// When nothing is lost: files are cut or destroyed only with no write in flight, and writes on
// one file complete in issue order.
module Discipline {
  import opened Words
  import opened Sums
  import opened Volumes
  import opened Index
  import opened Ledger
  import opened Reservations
  import opened Handles
  import opened Systems

  ghost predicate Disciplined<M>(v: Volume<M>, op: Op<M>)
    requires WellFormed(v) && Safe(v, op)
  {
    && (forall m :: m in Destroyed(v, op) + Cut(v, op) && m in v.meta ==> v.meta[m].ongoing == map[])
    && EndsInOrder(v, op)
  }

  // ------------------------------------------------------------------ nothing is lost, exactly when

  // Every file the step deletes, writes over, evicts or cuts is as long as it was promised to be.
  ghost predicate OnlyFinished<M>(v: Volume<M>, op: Op<M>)
    requires WellFormed(v) && Safe(v, op)
  {
    forall m :: m in Destroyed(v, op) + Cut(v, op) && m in v.meta ==> v.meta[m].current == v.meta[m].future
  }

  lemma NothingUnwrittenIff<M>(v: Volume<M>, objects: set<M>)
    requires AllHonest(false, v) && objects <= Live(v)
    ensures Unwritten(v, objects) >= 0
    ensures Unwritten(v, objects) == 0 <==>
              forall m :: m in objects && m in v.meta ==> v.meta[m].current == v.meta[m].future
  {
    var currents, futures := Currents(v.meta, objects), Futures(v.meta, objects);
    assert currents.Keys == futures.Keys;
    forall m | m in currents
      ensures currents[m] <= futures[m]
    {
      assert Honest(false, v.meta[m]);
    }
    SumMonotone(currents, futures);
    if m :| m in objects && m in v.meta && v.meta[m].current != v.meta[m].future {
      SumStrict(currents, futures, m);
    } else {
      assert currents == futures;
    }
  }

  // A step loses nothing if and only if it destroys and cuts finished files only.
  lemma LosesNothingIff<M>(v: Volume<M>, op: Op<M>)
    requires WellFormed(v) && Indexed(v) && Safe(v, op) && AllHonest(false, v)
    ensures Lost(v, op) >= 0
    ensures Lost(v, op) == 0 <==> OnlyFinished(v, op)
  {
    hide Apply, Cut, Destroyed, AllHonest, Indexed, Unwritten;
    DestroyedAreGone(v, op);
    NothingUnwrittenIff(v, Destroyed(v, op));
    NothingUnwrittenIff(v, Cut(v, op));
  }

  ghost predicate OnlyFinishedRun<M>(v: Volume<M>, ops: seq<Op<M>>)
    requires WellFormed(v) && Permitted(v, ops)
    decreases |ops|
  {
    ops == [] || (OnlyFinished(v, ops[0]) && OnlyFinishedRun(Apply(v, ops[0]).after, ops[1..]))
  }

  lemma {:induction false} RunLosesNothingIff<M>(v: Volume<M>, ops: seq<Op<M>>)
    requires WellFormed(v) && Indexed(v) && Permitted(v, ops) && CutCoversRun(v, ops) && AllHonest(false, v)
    ensures TotalLost(v, ops) >= 0
    ensures TotalLost(v, ops) == 0 <==> OnlyFinishedRun(v, ops)
    decreases |ops|
  {
    hide Apply, Indexed, AllHonest, CutCovers, WellFormed, Safe, Breaking, Lost, OnlyFinished;
    if ops != [] {
      StepKeepsIndexUnlessBreaking(v, ops[0]);
      LosesNothingIff(v, ops[0]);
      HonestAfter(false, v, ops[0]);
      RunLosesNothingIff(Apply(v, ops[0]).after, ops[1..]);
    }
  }

  // After a run that cuts no file shorter than its pending writes, free space and reservations add up
  // to the size of the partition if and only if all files destroyed or cut on the way were finished.
  lemma LedgerBalancesIff<M>(scheme: Scheme, size: u64, ops: seq<Op<M>>)
    requires Permitted(Mounted<M>(scheme, size), ops)
    requires CutCoversRun(Mounted<M>(scheme, size), ops)
    ensures var v := Mounted(scheme, size);
            var w := Run(v, ops);
            w.free + Reserved(w) == size <==> OnlyFinishedRun(v, ops)
  {
    var v := Mounted<M>(scheme, size);
    hide Permitted, Run, CutCoversRun, OnlyFinishedRun, Apply, TotalLost, ReturnsFit, Reserved;
    MountedIsIndexed<M>(scheme, size);
    LedgerOverIntegers(scheme, size, ops);
    RunLosesNothingIff(v, ops);
  }

  // ------------------------------------------------------------------ a discipline that suffices

  lemma DisciplineIsCareful<M>(v: Volume<M>, op: Op<M>)
    requires WellFormed(v) && Indexed(v) && Safe(v, op) && AllHonest(true, v) && Disciplined(v, op)
    ensures CutsIdle(v, op) && CutCovers(v, op) && EndsInOrder(v, op) && OnlyFinished(v, op)
  {
    hide Apply, Destroyed, Indexed;
    DestroyedAreGone(v, op);
    forall m | m in Destroyed(v, op) + Cut(v, op) && m in v.meta
      ensures v.meta[m].current == v.meta[m].future
    {
      assert m in Live(v) && Honest(true, v.meta[m]);
    }
  }

  ghost predicate DisciplinedRun<M>(v: Volume<M>, ops: seq<Op<M>>)
    requires WellFormed(v) && Permitted(v, ops)
    decreases |ops|
  {
    ops == [] || (Disciplined(v, ops[0]) && DisciplinedRun(Apply(v, ops[0]).after, ops[1..]))
  }

  lemma {:induction false} DisciplinedRunIsCareful<M>(v: Volume<M>, ops: seq<Op<M>>)
    requires WellFormed(v) && Indexed(v) && Permitted(v, ops) && DisciplinedRun(v, ops)
    requires AllHonest(false, v) && AllHonest(true, v)
    ensures CutCoversRun(v, ops) && OnlyFinishedRun(v, ops) && AllHonest(true, Run(v, ops))
    decreases |ops|
  {
    hide WellFormed, Safe;
    hide Apply, Indexed, AllHonest, Disciplined, Breaking, CutCovers, CutsIdle, OnlyFinished, EndsInOrder;
    if ops != [] {
      StepKeepsIndexUnlessBreaking(v, ops[0]);
      DisciplineIsCareful(v, ops[0]);
      HonestAfter(false, v, ops[0]);
      HonestAfter(true, v, ops[0]);
      DisciplinedRunIsCareful(Apply(v, ops[0]).after, ops[1..]);
    }
  }

  // Over every disciplined run from mounting, free space plus the reserved sizes of all files is
  // the size of the partition, and a file with no write in flight is as long as it was promised.
  lemma LedgerBalances<M>(scheme: Scheme, size: u64, ops: seq<Op<M>>)
    requires Permitted(Mounted<M>(scheme, size), ops)
    requires DisciplinedRun(Mounted<M>(scheme, size), ops)
    ensures var w := Run(Mounted(scheme, size), ops);
            && w.free + Reserved(w) == size
            && forall m :: m in Live(w) && m in w.meta ==>
                 && w.meta[m].current <= w.meta[m].future
                 && (w.meta[m].ongoing == map[] ==> w.meta[m].current == w.meta[m].future)
  {
    var v := Mounted<M>(scheme, size);
    hide Permitted, Run, DisciplinedRun, CutCoversRun, OnlyFinishedRun, Apply, Reserved;
    MountedIsIndexed<M>(scheme, size);
    DisciplinedRunIsCareful(v, ops);
    LedgerBalancesIff<M>(scheme, size, ops);
    var w := Run(v, ops);
    assert forall m :: m in Live(w) && m in w.meta ==> Honest(true, w.meta[m]);
  }

  // Seen from a whole file system: whatever the steps and the other partitions, the ledger of a
  // partition balances if the operations that reached it were disciplined. That these operations
  // are permitted at all is what RunProjects shows.
  lemma EveryPartitionBalances<M>(s: System<M>, steps: seq<Step<M>>, p: string)
    requires Fresh(s) && Runs(s, steps) && p in s.volumes
    requires WellFormed(s.volumes[p]) && Permitted(s.volumes[p], Projection(s, steps, p))
    requires DisciplinedRun(s.volumes[p], Projection(s, steps, p))
    ensures p in Final(s, steps).volumes
    ensures var w := Final(s, steps).volumes[p];
            w.free + Reserved(w) == s.volumes[p].size
  {
    hide Runs, Final, Projection, Permitted, DisciplinedRun, HandlesAgree, IdsBelow, Reserved;
    FreshAgrees(s);
    FreshIdsBelow(s);
    RunProjects(s, steps, p);
    LedgerBalances<M>(s.volumes[p].scheme, s.volumes[p].size, Projection(s, steps, p));
  }
}
