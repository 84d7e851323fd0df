/** The pallet, the listener and the worker run one after the other. */
module Pipeline {
  import opened Prelude
  import opened UserProfile
  import opened PalletRuns
  import opened BlockchainService
  import opened Users
  import opened EventProcessor
  import opened Projection
  import opened Simulation

  /** The chain: calls dispatched one at a time. */
  method RunCalls(steps: seq<Step>) returns (pallet: Pallet)
    ensures fresh(pallet)
    ensures pallet.View() == Run(INITIAL, steps)
  {
    pallet := new Pallet();
    for i := 0 to |steps|
      invariant fresh(pallet)
      invariant pallet.View() == Run(INITIAL, steps[..i])
    {
      assert steps[..i + 1][..i] == steps[..i];
      match steps[i] {
        case NextBlock => pallet.NextBlock();
        case Dispatch(call) => var _ := pallet.Dispatch(call);
      }
    }
    assert steps[..|steps|] == steps;
  }

  /** The subscription: blocks handed over one at a time. */
  method Listen(blocks: seq<Block>) returns (listener: Listener)
    ensures fresh(listener)
    ensures listener.eventQueue == QueueAfter(blocks)
  {
    listener := new Listener();
    for i := 0 to |blocks|
      invariant fresh(listener)
      invariant listener.eventQueue == QueueAfter(blocks[..i])
    {
      assert blocks[..i + 1][..i] == blocks[..i];
      listener.ProcessBlockEvents(blocks[i].number, blocks[i].hash, blocks[i].records);
    }
    assert blocks[..|blocks|] == blocks;
  }

  /** The queue: jobs delivered one at a time, a failed job left behind. */
  method DeliverQueue(worker: Worker, jobs: seq<Job>)
    modifies worker.usersService
    ensures worker.usersService.Table() == DeliverJobs(old(worker.usersService.Table()), jobs)
  {
    for i := 0 to |jobs|
      invariant worker.usersService.Table() == DeliverJobs(old(worker.usersService.Table()), jobs[..i])
    {
      assert jobs[..i + 1][..i] == jobs[..i];
      var _ := worker.HandleUserProfileEvent(jobs[i]);
    }
    assert jobs[..|jobs|] == jobs;
  }

  /** All of it: after any calls over names that keep their identity the table mirrors the pallet. */
  method Mirror(ghost S: iset<Bytes>, steps: seq<Step>) returns (pallet: Pallet, users: UsersService)
    requires NamesOk(S) && UsernamesFrom(S, steps)
    ensures fresh(pallet) && fresh(users)
    ensures pallet.View() == Run(INITIAL, steps)
    ensures NamesMirrored(pallet.profiles, View(users.Table()))
    ensures DetailsMirrored(pallet.View(), View(users.Table()))
  {
    pallet := RunCalls(steps);
    var blocks := BlocksOf(pallet.log);
    var listener := Listen(blocks);
    users := new UsersService();
    var worker := new Worker(users);
    DeliverQueue(worker, listener.eventQueue);
    MirrorLemma(S, steps);
  }

  lemma MirrorLemma(S: iset<Bytes>, steps: seq<Step>)
    requires NamesOk(S) && UsernamesFrom(S, steps)
    ensures var s := Run(INITIAL, steps);
            var db := DeliverJobs(EMPTY, QueueAfter(BlocksOf(s.log)));
            NamesMirrored(s.profiles, View(db)) && DetailsMirrored(s, View(db))
  {
    var log := Run(INITIAL, steps).log;
    EveryLogHasBlocks(log);
    QueueIsFilteredLog(BlocksOf(log));
    Simulation.Simulation(S, steps);
    DeliverJobsRefines(QueueAfter(BlocksOf(log)), log);
  }
}
