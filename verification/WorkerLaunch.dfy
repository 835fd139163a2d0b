/** How the programs map queues to lcores before the workers run. */
module WorkerLaunch {

  datatype WorkerCtx = WorkerCtx(queueId: nat, lcoreId: nat)

  datatype LaunchResult =
    | NeedMoreLcores
    | CannotLaunch(queue: nat, lcore: nat)
    | OnlyMapped(used: int)
    | Mapped(ctxs: seq<WorkerCtx>)

  const MAX_CORES := 64

  predicate Distinct(ids: seq<nat>) {
    forall i, j :: 0 <= i < j < |ids| ==> ids[i] != ids[j]
  }

  /** The launch of queue `q` on its lcore succeeds. */
  predicate Launched(launch: (nat, nat) -> bool, others: seq<nat>, q: nat)
    requires 1 <= q <= |others|
  {
    launch(q, others[q - 1])
  }

  /**
   * Queue 0 stays on the main lcore, queue q goes to the q-th other lcore. With enough lcores the
   * final "only mapped" exit is unreachable; a failed launch is reported for the first queue it hits.
   */
  method LaunchWorkers(mainLcore: nat, others: seq<nat>, numQueues: nat, launch: (nat, nat) -> bool)
    returns (r: LaunchResult)
    requires 1 <= numQueues <= MAX_CORES
    requires Distinct([mainLcore] + others)
    ensures r.NeedMoreLcores? <==> 1 + |others| < numQueues
    ensures !r.OnlyMapped?
    ensures r.CannotLaunch? ==>
      && 1 <= r.queue < numQueues && r.lcore == others[r.queue - 1] && !Launched(launch, others, r.queue)
      && forall q :: 1 <= q < r.queue ==> Launched(launch, others, q)
    ensures r.Mapped? ==>
      && |r.ctxs| == numQueues && r.ctxs[0] == WorkerCtx(0, mainLcore)
      && (forall q :: 1 <= q < numQueues ==> r.ctxs[q] == WorkerCtx(q, others[q - 1]) && Launched(launch, others, q))
      && (forall p, q :: 0 <= p < q < numQueues ==> r.ctxs[p].lcoreId != r.ctxs[q].lcoreId)
  {
    if 1 + |others| < numQueues {
      return NeedMoreLcores;
    }
    var ctxs := new WorkerCtx[numQueues](_ => WorkerCtx(0, 0));
    var usedWorkers, nextQueue := 0, 0;
    ctxs[nextQueue] := WorkerCtx(nextQueue, mainLcore);
    usedWorkers, nextQueue := usedWorkers + 1, nextQueue + 1;

    for i := 0 to |others|
      invariant nextQueue == usedWorkers == i + 1 <= numQueues
      invariant ctxs[0] == WorkerCtx(0, mainLcore)
      invariant forall q :: 1 <= q < nextQueue ==> ctxs[q] == WorkerCtx(q, others[q - 1]) && Launched(launch, others, q)
    {
      if nextQueue >= numQueues {
        break;
      }
      ctxs[nextQueue] := WorkerCtx(nextQueue, others[i]);
      if !launch(nextQueue, others[i]) {
        return CannotLaunch(nextQueue, others[i]);
      }
      usedWorkers, nextQueue := usedWorkers + 1, nextQueue + 1;
    }

    if usedWorkers < numQueues {
      return OnlyMapped(usedWorkers);
    }
    r := Mapped(ctxs[..]);
    ghost var lcores := [mainLcore] + others;
    assert forall q :: 0 <= q < numQueues ==> r.ctxs[q].lcoreId == lcores[q];
  }
}
