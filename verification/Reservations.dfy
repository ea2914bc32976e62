// Reservations kept honest: no file is longer than what it has reserved, and none is going to be,
// exactly as long as files are cut no shorter than their pending writes.
module Reservations {
  import opened Words
  import opened Sums
  import opened Volumes
  import opened Index
  import opened Eviction
  import opened Guards
  import opened Ledger
  import opened Writes

  // The file, and every write pending on it, fits what the file has reserved.
  ghost predicate Contained(f: FileRec) {
    && f.current <= f.future
    && forall i :: i in f.ongoing ==> f.ongoing[i] <= f.future
  }

  // With `ordered`, the file is in the state that writes ending in issue order leave.
  ghost predicate Honest(ordered: bool, f: FileRec) {
    Contained(f) && (ordered ==> Settled(f))
  }

  ghost predicate AllHonest<M>(ordered: bool, v: Volume<M>) {
    forall m :: m in Live(v) && m in v.meta ==> Honest(ordered, v.meta[m])
  }

  // A file that is truncated keeps room for every pending write; one that is opened in mode "w" has
  // none pending, or only writes that leave it empty.
  ghost predicate CutCovers<M>(v: Volume<M>, op: Op<M>)
    requires WellFormed(v)
  {
    match op
    case Truncate(key, bytes) =>
      IsClosed(v, key) ==>
        var f := v.meta[v.files[key]];
        forall i :: i in f.ongoing ==> f.ongoing[i] <= f.current - Min(bytes, f.current)
    case Open(path, mode, _) =>
      mode.Write? && SplitPath(path) in v.files ==>
        var f := v.meta[v.files[SplitPath(path)]];
        forall i :: i in f.ongoing ==> f.ongoing[i] == 0
    case _ => true
  }

  // A stricter discipline: a file is truncated, or opened in mode "w", only with no write in flight.
  ghost predicate CutsIdle<M>(v: Volume<M>, op: Op<M>)
    requires WellFormed(v) && Safe(v, op)
  {
    forall m :: m in Cut(v, op) && m in v.meta ==> v.meta[m].ongoing == map[]
  }

  // Writes on one file end in issue order.
  ghost predicate EndsInOrder<M>(v: Volume<M>, op: Op<M>)
    requires Safe(v, op)
  {
    op.FinishWrite? ==> IsOldest(v.meta[op.m], op.id)
  }

  // ------------------------------------------------------------------ files stay honest

  lemma StartKeepsHonest(ordered: bool, f: FileRec, id: int, added: nat)
    requires Honest(ordered, f) && f.future + added < TWO64
    requires forall i :: i in f.ongoing ==> i < id
    ensures Honest(ordered, f.WriteStarted(id, f.future + added))
  {
    if ordered {
      StartKeepsSettled(f, id, added);
    }
  }

  lemma EndKeepsHonest(ordered: bool, f: FileRec, id: int)
    requires Honest(ordered, f) && (ordered ==> IsOldest(f, id))
    ensures Honest(ordered, f.WriteEnded(id))
  {
    if ordered {
      EndKeepsSettled(f, id);
    }
  }

  lemma HonestAfter<M>(ordered: bool, v: Volume<M>, op: Op<M>)
    requires WellFormed(v) && Indexed(v) && Safe(v, op) && AllHonest(ordered, v)
    requires CutCovers(v, op) && (ordered ==> CutsIdle(v, op) && EndsInOrder(v, op))
    ensures AllHonest(ordered, Apply(v, op).after)
  {
    hide Honest, Indexed, AllHonest;
    match op
    case Create(path, bytes, m) => HonestAfterCreate(ordered, v, path, bytes, m);
    case Move(src, dst) => HonestAfterMove(ordered, v, src, dst);
    case Truncate(key, bytes) => HonestAfterTruncate(ordered, v, key, bytes);
    case Open(path, mode, m) => HonestAfterOpen(ordered, v, path, mode, m);
    case BeginWrite(m, id, pos, bytes) => HonestAfterBegin(ordered, v, m, id, pos, bytes);
    case FinishWrite(m, id) => HonestAfterEnd(ordered, v, m, id);
    case _ => HonestAfterQuietStep(ordered, v, op);
  }

  lemma HonestAfterQuietStep<M>(ordered: bool, v: Volume<M>, op: Op<M>)
    requires WellFormed(v) && Safe(v, op) && AllHonest(ordered, v)
    requires op.Delete? || op.MakeDirectory? || op.RemoveDirectory? || op.SetEvictable? || op.Close? || op.Access?
    ensures AllHonest(ordered, Apply(v, op).after)
  {
    hide Honest, AllHonest, WellFormed;
    var w := Apply(v, op).after;
    LiveHasMeta(v);
    assert forall k :: k in w.files ==> k in v.files && w.files[k] == v.files[k];
    HonestIfSame(ordered, v, w);
  }

  ghost predicate SameWrites(f: FileRec, g: FileRec) {
    f.current == g.current && f.future == g.future && f.ongoing == g.ongoing
  }

  lemma HonestIfSame<M>(ordered: bool, v: Volume<M>, w: Volume<M>)
    requires AllHonest(ordered, v)
    requires forall k :: k in w.files ==> w.files[k] in Live(v)
    requires forall m :: m in w.meta && m in Live(v) ==> m in v.meta && SameWrites(v.meta[m], w.meta[m])
    ensures AllHonest(ordered, w)
  {
    forall m | m in Live(w) && m in w.meta
      ensures Honest(ordered, w.meta[m])
    {
      assert Honest(ordered, v.meta[m]);
      HonestDependsOnWrites(ordered, v.meta[m], w.meta[m]);
    }
  }

  lemma HonestDependsOnWrites(ordered: bool, f: FileRec, g: FileRec)
    requires Honest(ordered, f) && SameWrites(f, g)
    ensures Honest(ordered, g)
  {
    if ordered && f.ongoing != map[] {
      var i :| i in f.ongoing && f.ongoing[i] == f.future && IsNewest(f, i);
      assert i in g.ongoing && g.ongoing[i] == g.future && IsNewest(g, i);
    }
  }

  // All files but one are as before, and that one is honest.
  lemma HonestIfOne<M>(ordered: bool, v: Volume<M>, w: Volume<M>, m: M)
    requires AllHonest(ordered, v) && (m in w.meta ==> Honest(ordered, w.meta[m]))
    requires forall k :: k in w.files && w.files[k] != m ==> w.files[k] in Live(v)
    requires forall n :: n in w.meta && n != m && n in Live(v) ==> n in v.meta && SameWrites(v.meta[n], w.meta[n])
    ensures AllHonest(ordered, w)
  {
    forall n | n in Live(w) && n in w.meta && n != m
      ensures Honest(ordered, w.meta[n])
    {
      assert Honest(ordered, v.meta[n]);
      HonestDependsOnWrites(ordered, v.meta[n], w.meta[n]);
    }
  }

  // A volume with fewer files, one of which was replaced by a honest one.
  lemma HonestIfPatched<M>(ordered: bool, v: Volume<M>, w: Volume<M>, m: M, g: FileRec)
    requires AllHonest(ordered, v) && Honest(ordered, g)
    requires Live(w) <= Live(v) && w.meta == v.meta[m := g]
    ensures AllHonest(ordered, w)
  {
    forall n | n in Live(w) && n in w.meta
      ensures Honest(ordered, w.meta[n])
    {
      assert n != m ==> Honest(ordered, v.meta[n]);
    }
  }

  lemma HonestAfterCreate<M>(ordered: bool, v: Volume<M>, path: string, size: u64, m: M)
    requires WellFormed(v) && Indexed(v) && m !in v.meta && AllHonest(ordered, v)
    ensures AllHonest(ordered, CreateFile(v, path, size, m).after)
  {
    hide Indexed, AllHonest, CreateSpace, Honest;
    var r := CreateFile(v, path, size, m);
    if path !in v.dirs && SplitPath(path) !in v.files {
      var room := MakeRoom(v, size);
      RoomLive(v, size);
      RoomOnlyRemoves(v, size);
      LiveHasMeta(v);
      HonestIfSame(ordered, v, room.after);
      if room.outcome.Ok? {
        HonestAfterInstall(ordered, room.after, SplitPath(path), size, m);
      }
    }
  }

  lemma HonestAfterInstall<M>(ordered: bool, v: Volume<M>, key: Key, size: u64, m: M)
    requires WellFormed(v) && m !in v.meta && key !in v.files && AllHonest(ordered, v)
    ensures AllHonest(ordered, Install(v, key, size, m))
  {
    var w := Install(v, key, size, m);
    InstallReserves(v, key, size, m);
    LiveHasMeta(v);
    hide Install, AllHonest, Reserved, SumFuture;
    assert Honest(ordered, w.meta[m]);
    assert forall k :: k in w.files ==> w.files[k] in Live(w);
    HonestIfOne(ordered, v, w, m);
  }

  lemma HonestAfterMove<M>(ordered: bool, v: Volume<M>, src: Key, dst: Key)
    requires WellFormed(v) && AllHonest(ordered, v)
    ensures AllHonest(ordered, MoveFile(v, src, dst).after)
  {
    var w := MoveFile(v, src, dst).after;
    if MoveHappens(v, src, dst) {
      LiveHasMeta(v);
      MoveLive(v, src, dst);
      MoveShape(v, src, dst);
      hide AllHonest, Honest, MoveFile;
      assert forall k :: k in w.files ==> w.files[k] in Live(w);
      HonestIfSame(ordered, v, w);
    }
  }

  lemma HonestAfterTruncate<M>(ordered: bool, v: Volume<M>, key: Key, n: u64)
    requires WellFormed(v) && AllHonest(ordered, v)
    requires IsClosed(v, key) ==>
               var f := v.meta[v.files[key]];
               && (forall i :: i in f.ongoing ==> f.ongoing[i] <= f.current - Min(n, f.current))
               && (ordered ==> f.ongoing == map[])
    ensures AllHonest(ordered, TruncateFile(v, key, n).after)
  {
    var r := TruncateFile(v, key, n);
    if r.outcome.Ok? {
      LiveHasMeta(v);
      assert Honest(ordered, r.after.meta[v.files[key]]);
      HonestIfOne(ordered, v, r.after, v.files[key]);
    }
  }

  lemma HonestAfterOpen<M>(ordered: bool, v: Volume<M>, path: string, mode: Mode, m: M)
    requires WellFormed(v) && Indexed(v) && NewIfMissing(v, path, m) && AllHonest(ordered, v)
    requires mode.Write? && SplitPath(path) in v.files ==>
               var f := v.meta[v.files[SplitPath(path)]];
               && (forall i :: i in f.ongoing ==> f.ongoing[i] == 0)
               && (ordered ==> f.ongoing == map[])
    ensures AllHonest(ordered, OpenFile(v, path, mode, m).after)
  {
    hide AllHonest, Indexed, CreateFile;
    var key := SplitPath(path);
    var w := OpenFile(v, path, mode, m).after;
    LiveHasMeta(v);
    if key in v.files && mode.Write? {
      assert Honest(ordered, w.meta[v.files[key]]);
      HonestIfOne(ordered, v, w, v.files[key]);
    } else if key in v.files {
      HonestIfSame(ordered, v, w);
    } else {
      HonestAfterCreate(ordered, v, path, 0, m);
      var x := CreateFile(v, path, 0, m).after;
      LiveHasMeta(x);
      if w != v {
        HonestIfSame(ordered, x, w);
      }
    }
  }

  lemma HonestAfterBegin<M>(ordered: bool, v: Volume<M>, m: M, id: int, pos: u64, n: u64)
    requires WellFormed(v) && Indexed(v) && AllHonest(ordered, v) && InUse(v, m) && FreshId(v, id)
    ensures AllHonest(ordered, StartWrite(v, m, id, pos, n).after)
  {
    hide Honest, Indexed, CreateSpace, Wrap64, WellFormed;
    var f, added := v.meta[m], AddedBytes(pos, n, v.meta[m].future);
    assert Honest(ordered, f);
    StartKeepsHonest(ordered, f, id, added);
    RoomLive(v, added);
    hide AllHonest, AddedBytes;
    var room := MakeRoom(v, added);
    var w := StartWrite(v, m, id, pos, n).after;
    assert Live(room.after) <= Live(v) && room.after.meta == v.meta;
    if room.outcome.Ok? {
      assert w.files == room.after.files && w.meta == v.meta[m := f.WriteStarted(id, f.future + added)];
      HonestIfPatched(ordered, v, w, m, f.WriteStarted(id, f.future + added));
    } else {
      assert w == room.after;
      HonestIfSame(ordered, v, w);
    }
  }

  lemma HonestAfterEnd<M>(ordered: bool, v: Volume<M>, m: M, id: int)
    requires WellFormed(v) && AllHonest(ordered, v) && m in Live(v) && m in v.meta
    requires ordered ==> IsOldest(v.meta[m], id)
    ensures AllHonest(ordered, EndWrite(v, m, id))
  {
    var w := EndWrite(v, m, id);
    assert Honest(ordered, v.meta[m]);
    EndKeepsHonest(ordered, v.meta[m], id);
    HonestDependsOnWrites(ordered, v.meta[m].WriteEnded(id), w.meta[m]);
    hide AllHonest, Honest;
    assert Live(w) == Live(v) && w.meta == v.meta[m := w.meta[m]];
    HonestIfPatched(ordered, v, w, m, w.meta[m]);
  }

  // Every file still fits what it has reserved after a step if and only if the step cuts none
  // shorter than its pending writes.
  lemma HonestIff<M>(v: Volume<M>, op: Op<M>)
    requires WellFormed(v) && Indexed(v) && Safe(v, op) && AllHonest(false, v)
    ensures AllHonest(false, Apply(v, op).after) <==> CutCovers(v, op)
  {
    hide Indexed, AllHonest;
    if CutCovers(v, op) {
      HonestAfter(false, v, op);
    } else {
      ShortCutIsDishonest(v, op);
    }
  }

  lemma ShortCutIsDishonest<M>(v: Volume<M>, op: Op<M>)
    requires WellFormed(v) && Safe(v, op) && !CutCovers(v, op)
    ensures !AllHonest(false, Apply(v, op).after)
  {
    var w := Apply(v, op).after;
    LiveHasMeta(v);
    var m := v.files[if op.Truncate? then op.key else SplitPath(op.path)];
    assert m in Live(w) && m in w.meta && !Contained(w.meta[m]);
    assert !Honest(false, w.meta[m]);
  }

  ghost predicate CutCoversRun<M>(v: Volume<M>, ops: seq<Op<M>>)
    requires WellFormed(v) && Permitted(v, ops)
    decreases |ops|
  {
    ops == [] || (CutCovers(v, ops[0]) && CutCoversRun(Apply(v, ops[0]).after, ops[1..]))
  }

  ghost predicate HonestThroughout<M>(v: Volume<M>, ops: seq<Op<M>>)
    requires WellFormed(v) && Permitted(v, ops)
    decreases |ops|
  {
    AllHonest(false, v) && (ops == [] || HonestThroughout(Apply(v, ops[0]).after, ops[1..]))
  }

  // In every state of a run no file is longer than its reservation or will be, if and only if no step
  // of the run cuts a file shorter than its pending writes.
  lemma {:induction false} HonestThroughoutIff<M>(v: Volume<M>, ops: seq<Op<M>>)
    requires WellFormed(v) && Indexed(v) && Permitted(v, ops) && AllHonest(false, v)
    ensures HonestThroughout(v, ops) <==> CutCoversRun(v, ops)
    decreases |ops|
  {
    hide Apply, Indexed, AllHonest, CutCovers, WellFormed, Safe, Breaking;
    if ops != [] {
      HonestIff(v, ops[0]);
      StepKeepsIndexUnlessBreaking(v, ops[0]);
      if CutCovers(v, ops[0]) {
        HonestThroughoutIff(Apply(v, ops[0]).after, ops[1..]);
      }
    }
  }

  // ------------------------------------------------------------------ solvency

  // Free space, reservations and `lost` bytes add up to the size, over the integers.
  ghost predicate Solvent<M>(v: Volume<M>, lost: int) {
    lost >= 0 && v.free + Reserved(v) + lost == v.size
  }

  lemma CurrentsWithinReserved<M>(v: Volume<M>, objects: set<M>)
    requires AllHonest(false, v) && objects <= Live(v)
    ensures SumCurrent(v.meta, objects) <= SumFuture(v.meta, objects) <= Reserved(v)
  {
    forall m | m in Currents(v.meta, objects)
      ensures Currents(v.meta, objects)[m] <= Futures(v.meta, objects)[m]
    {
      assert Honest(false, v.meta[m]);
    }
    assert Currents(v.meta, objects).Keys == Futures(v.meta, objects).Keys;
    SumMonotone(Currents(v.meta, objects), Futures(v.meta, objects));
    SumWithout(v.meta, Live(v), objects);
    ReservedIsNat(v.meta, Live(v) - objects);
  }

  // In such states eviction meets the condition under which it is exact.
  lemma SolventEvictionIsExact<M>(v: Volume<M>, lost: int, n: u64, j: nat)
    requires WellFormed(v) && Indexed(v) && !v.scheme.NoCaching? && AllHonest(false, v) && Solvent(v, lost)
    requires n > 0 && IsShortest(v, n, j)
    ensures v.free + Sizes(v, Candidates(v)[..j]) <= v.size && Evicts(v, j, CreateSpace(v, n))
  {
    hide CreateSpace, Without, WellFormed, Indexed, Candidates, Sizes, AllHonest, SumCurrent, SumFuture;
    CandidatesWithinReserved(v);
    SizesPrefix(v, Candidates(v), j, |Candidates(v)|);
    assert Candidates(v)[..|Candidates(v)|] == Candidates(v);
    EvictionIsExact(v, n);
  }

  lemma CandidatesWithinReserved<M>(v: Volume<M>)
    requires WellFormed(v) && Indexed(v) && !v.scheme.NoCaching? && AllHonest(false, v)
    ensures Sizes(v, Candidates(v)) <= Reserved(v)
  {
    var c := Candidates(v);
    AscendingIsSorted(v.priority, v.counter);
    EligibleIsAscending(v, Ranks(v));
    IndexedIsBijection(v);
    SizesAreCurrents(v, c);
    assert Objects(v, c) <= Live(v);
    CurrentsWithinReserved(v, Objects(v, c));
  }

  // When room is made, there is enough of it: the subtraction that follows does not wrap.
  lemma RoomIsEnough<M>(v: Volume<M>, lost: int, needed: u64)
    requires WellFormed(v) && Indexed(v) && AllHonest(false, v) && Solvent(v, lost)
    requires MakeRoom(v, needed).outcome.Ok?
    ensures MakeRoom(v, needed).after.free >= needed
  {
    hide Indexed, WellFormed, AllHonest, HasRoom, MakeRoom, SumCurrent, SumFuture, RoomVictims;
    RoomIff(v, needed);
    RoomMoves(v, needed);
    CurrentsWithinReserved(v, Objects(v, RoomVictims(v, needed)));
  }

  lemma LostIsNat<M>(v: Volume<M>, op: Op<M>)
    requires WellFormed(v) && Indexed(v) && Safe(v, op) && AllHonest(false, v)
    ensures Lost(v, op) >= 0
  {
    hide Apply, Honest, AllHonest, Cut, Destroyed, Indexed;
    DestroyedAreGone(v, op);
    CurrentsWithinReserved(v, Destroyed(v, op));
    CurrentsWithinReserved(v, Cut(v, op));
  }

  // From a state whose files fit their reservations, a step keeps the ledger over the integers,
  // whatever the step.
  lemma StepStaysSolvent<M>(v: Volume<M>, lost: int, op: Op<M>)
    requires WellFormed(v) && Indexed(v) && Safe(v, op) && AllHonest(false, v) && Solvent(v, lost)
    ensures Solvent(Apply(v, op).after, lost + Lost(v, op))
    ensures Lost(v, op) >= 0 && v.free + Returned(v, op) < TWO64
  {
    hide Apply, Indexed, AllHonest, Lost, Returned, Destroyed, SumFuture, WellFormed;
    StepMoves(v, op);
    LostIsNat(v, op);
    ReservedIsNat(Apply(v, op).after.meta, Live(Apply(v, op).after));
    ApplyKeepsSize(v, op);
  }

  lemma ApplyKeepsSize<M>(v: Volume<M>, op: Op<M>)
    requires WellFormed(v) && Safe(v, op)
    ensures Apply(v, op).after.size == v.size
  {
    hide WellFormed;
  }

  lemma {:induction false} RunStaysSolvent<M>(v: Volume<M>, lost: int, ops: seq<Op<M>>)
    requires WellFormed(v) && Indexed(v) && Permitted(v, ops) && CutCoversRun(v, ops)
    requires AllHonest(false, v) && Solvent(v, lost)
    ensures Solvent(Run(v, ops), lost + TotalLost(v, ops)) && AllHonest(false, Run(v, ops))
    ensures ReturnsFit(v, ops)
    decreases |ops|
  {
    hide Apply, Indexed, Solvent, AllHonest, CutCovers, WellFormed, Safe, Breaking, Lost, Returned;
    if ops != [] {
      StepKeepsIndexUnlessBreaking(v, ops[0]);
      StepStaysSolvent(v, lost, ops[0]);
      HonestAfter(false, v, ops[0]);
      RunStaysSolvent(Apply(v, ops[0]).after, lost + Lost(v, ops[0]), ops[1..]);
    }
  }

  // Whatever is destroyed, and in whatever order writes end: as long as no file is cut shorter than
  // its pending writes, free space never wraps, and the ledger is exact over the integers.
  lemma LedgerOverIntegers<M>(scheme: Scheme, size: u64, ops: seq<Op<M>>)
    requires Permitted(Mounted<M>(scheme, size), ops)
    requires CutCoversRun(Mounted<M>(scheme, size), ops)
    ensures ReturnsFit(Mounted<M>(scheme, size), ops)
    ensures var v := Mounted(scheme, size);
            var w := Run(v, ops);
            && w.free + Reserved(w) + TotalLost(v, ops) == size
            && 0 <= TotalLost(v, ops) <= size
            && forall m :: m in Live(w) && m in w.meta ==> w.meta[m].current <= w.meta[m].future
  {
    var v := Mounted<M>(scheme, size);
    hide Permitted, Run, CutCoversRun, Apply, TotalLost, ReturnsFit;
    MountedIsIndexed<M>(scheme, size);
    NothingReserved<M>(scheme, size);
    RunStaysSolvent(v, 0, ops);
    var w := Run(v, ops);
    ReservedIsNat(w.meta, Live(w));
    assert forall m :: m in Live(w) && m in w.meta ==> Honest(false, w.meta[m]);
  }
}
