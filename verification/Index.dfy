// The eviction index: priority_list_ and content_ describe the same files.
module Index {
  import opened Volumes

  // The object is stored where it says it is.
  ghost predicate AtHome<M>(v: Volume<M>, m: M) {
    m in v.meta && v.meta[m].Place() in v.files && v.files[v.meta[m].Place()] == m
  }

  ghost predicate Ranked<M>(v: Volume<M>, m: M) {
    m in v.meta && v.meta[m].rank in v.priority && v.priority[v.meta[m].rank] == m
  }

  // Agreement of the two indexes of a caching partition.
  ghost predicate Indexed<M>(v: Volume<M>) {
    v.scheme.NoCaching? ||
    (&& (forall r :: r in v.priority ==> AtHome(v, v.priority[r]) && v.meta[v.priority[r]].rank == r)
     && (forall k :: k in v.files ==> Ranked(v, v.files[k])))
  }

  // No entry of the priority list points to an object that content_ no longer owns.
  ghost predicate NoDangling<M>(v: Volume<M>) {
    forall r :: r in v.priority ==> v.priority[r] in Live(v)
  }

  lemma IndexedLeavesNothingDangling<M>(v: Volume<M>)
    requires WellFormed(v) && Indexed(v)
    ensures NoDangling(v)
  {
    forall r | r in v.priority
      ensures v.priority[r] in Live(v)
    {
      assert AtHome(v, v.priority[r]);
    }
  }

  // Agreement is a bijection between sequence numbers and stored files.
  lemma IndexedIsBijection<M>(v: Volume<M>)
    requires WellFormed(v) && Indexed(v) && !v.scheme.NoCaching?
    ensures v.priority.Values == Live(v)
    ensures forall r, s :: r in v.priority && s in v.priority && v.priority[r] == v.priority[s] ==> r == s
    ensures forall k :: k in v.files ==> v.meta[v.files[k]].Place() == k
    ensures forall r :: r in v.priority ==>
              r < v.counter && v.meta[v.priority[r]].rank == r &&
              v.meta[v.priority[r]].Place() in v.files &&
              v.files[v.meta[v.priority[r]].Place()] == v.priority[r]
  {
    forall r | r in v.priority
      ensures v.priority[r] in Live(v) && AtHome(v, v.priority[r])
    {
    }
    forall k | k in v.files
      ensures v.meta[v.files[k]].Place() == k && v.files[k] in v.priority.Values
    {
      assert Ranked(v, v.files[k]);
      assert AtHome(v, v.priority[v.meta[v.files[k]].rank]);
    }
  }

  // ------------------------------------------------------------------ one block at a time

  lemma DeleteKeepsIndex<M>(v: Volume<M>, key: Key)
    requires WellFormed(v) && Indexed(v)
    ensures Indexed(DeleteFile(v, key).after)
  {
    var r := DeleteFile(v, key);
    if r.outcome.Ok? && !v.scheme.NoCaching? {
      var w := r.after;
      var m := v.files[key];
      forall i | i in w.priority
        ensures AtHome(w, w.priority[i]) && w.meta[w.priority[i]].rank == i
      {
        assert AtHome(v, v.priority[i]);
        assert Ranked(v, m);
      }
      forall k | k in w.files
        ensures Ranked(w, w.files[k])
      {
        assert Ranked(v, v.files[k]) && Ranked(v, m);
      }
    }
  }

  lemma {:induction false} VictimsKeepIndex<M>(v: Volume<M>, victims: seq<nat>)
    requires WellFormed(v) && Indexed(v)
    ensures Indexed(DeleteVictims(v, victims).after)
    decreases |victims|
  {
    if victims != [] && victims[0] in v.priority {
      var place := v.meta[v.priority[victims[0]]].Place();
      DeleteKeepsIndex(v, place);
      if DeleteFile(v, place).outcome.Ok? {
        VictimsKeepIndex(DeleteFile(v, place).after, victims[1..]);
      }
    }
  }

  lemma SpaceKeepsIndex<M>(v: Volume<M>, n: Words.u64)
    requires WellFormed(v) && Indexed(v)
    ensures Indexed(CreateSpace(v, n).after)
  {
    VictimsKeepIndex(v, Victims(v, n).0);
  }

  lemma RoomKeepsIndex<M>(v: Volume<M>, needed: Words.u64)
    requires WellFormed(v) && Indexed(v)
    ensures Indexed(MakeRoom(v, needed).after)
  {
    hide Indexed, WellFormed, CreateSpace;
    var r := MakeRoom(v, needed);
    if v.free < needed {
      SpaceKeepsIndex(v, needed - v.free);
      assert r == CreateSpace(v, needed - v.free);
      assert Indexed(r.after);
    } else {
      assert r.after == v;
      assert Indexed(r.after);
    }
  }

  lemma {:induction false} VictimsOnlyRemove<M>(v: Volume<M>, victims: seq<nat>)
    requires WellFormed(v)
    ensures DeleteVictims(v, victims).after.files.Keys <= v.files.Keys
    decreases |victims|
  {
    if victims != [] && victims[0] in v.priority {
      var r := DeleteFile(v, v.meta[v.priority[victims[0]]].Place());
      if r.outcome.Ok? {
        VictimsOnlyRemove(r.after, victims[1..]);
      }
    }
  }

  lemma RoomOnlyRemoves<M>(v: Volume<M>, needed: Words.u64)
    requires WellFormed(v)
    ensures MakeRoom(v, needed).after.files.Keys <= v.files.Keys
  {
    var r := MakeRoom(v, needed);
    if r.after != v {
      var victims := Victims(v, needed - v.free).0;
      VictimsOnlyRemove(v, victims);
      assert r == DeleteVictims(v, victims);
    }
  }

  // ------------------------------------------------------------------ going to the back

  ghost function AtBack<M>(v: Volume<M>, m: M, rank: nat): Volume<M>
    requires m in v.meta
  {
    v.(meta := v.meta[m := v.meta[m].(rank := rank)], priority := v.priority[rank := m], counter := rank + 1)
  }

  // The rank under which a new or moved object ends up: the access event of an LRU partition
  // throws away the one given at creation.
  ghost function EntryRank<M>(v: Volume<M>): nat {
    if v.scheme.LRU? then v.counter + 1 else v.counter
  }

  lemma EnterGoesToBack<M>(v: Volume<M>, m: M)
    requires WellFormed(v) && m in v.meta && !v.scheme.NoCaching?
    ensures Enter(v, m) == AtBack(v, m, EntryRank(v))
  {
    assert v.counter !in v.priority;
    if v.scheme.LRU? {
      assert v.priority[v.counter := m] - {v.counter} == v.priority;
    }
  }

  lemma EnterOnlyRanks<M>(v: Volume<M>, m: M)
    requires WellFormed(v) && m in v.meta
    ensures var w := Enter(v, m);
            && w.free == v.free
            && w.dirs == v.dirs
            && m in w.meta
            && w.meta == v.meta[m := v.meta[m].(rank := w.meta[m].rank)]
  {
    if !v.scheme.NoCaching? {
      EnterGoesToBack(v, m);
    } else {
      assert v.meta[m := v.meta[m]] == v.meta;
    }
  }

  // What a move that happens does, apart from the index.
  lemma MoveShape<M>(v: Volume<M>, src: Key, dst: Key)
    requires WellFormed(v) && MoveHappens(v, src, dst)
    ensures var w, m := MoveFile(v, src, dst).after, v.files[src];
            && w.files == (v.files - {src})[dst := m]
            && w.free == (if dst in v.files then Words.Wrap64(v.free + v.meta[v.files[dst]].current) else v.free)
            && m in w.meta
            && w.meta == v.meta[m := v.meta[m].(name := dst.name, rank := w.meta[m].rank)]
  {
    hide Enter, Words.Wrap64;
    MoveIsRelocateThenEnter(v, src, dst);
    hide MoveFile, WellFormed;
    EnterOnlyRanks(Relocate(v, src, dst), v.files[src]);
  }

  // An object that is not in the list, stored where it says, may go to the back.
  lemma BackKeepsIndex<M>(v: Volume<M>, m: M, rank: nat)
    requires WellFormed(v) && !v.scheme.NoCaching? && AtHome(v, m) && rank >= v.counter
    requires forall r :: r in v.priority ==>
               v.priority[r] != m && AtHome(v, v.priority[r]) && v.meta[v.priority[r]].rank == r
    requires forall k :: k in v.files && v.files[k] != m ==> Ranked(v, v.files[k])
    ensures Indexed(AtBack(v, m, rank))
  {
    var w := AtBack(v, m, rank);
    forall i | i in w.priority
      ensures AtHome(w, w.priority[i]) && w.meta[w.priority[i]].rank == i
    {
      assert i != rank ==> AtHome(v, v.priority[i]);
    }
    forall k | k in w.files
      ensures Ranked(w, w.files[k])
    {
      assert v.files[k] != m ==> Ranked(v, v.files[k]);
    }
  }

  // A volume with the new object in place, before it enters the list.
  ghost function WithNewFile<M>(v: Volume<M>, key: Key, size: Words.u64, m: M): Volume<M> {
    v.(meta := v.meta[m := FileRec(key.dir, key.name, size, size, map[], 0, 0, true)],
       dirs := v.dirs + {key.dir},
       files := v.files[key := m],
       free := Words.Wrap64(v.free - size))
  }

  lemma InstallGoesToBack<M>(v: Volume<M>, key: Key, size: Words.u64, m: M)
    requires WellFormed(v) && m !in v.meta && !v.scheme.NoCaching?
    ensures Install(v, key, size, m) == AtBack(WithNewFile(v, key, size, m), m, EntryRank(WithNewFile(v, key, size, m)))
  {
    hide Words.Wrap64, Enter;
    EnterGoesToBack(v.(meta := v.meta[m := FileRec(key.dir, key.name, size, size, map[], 0, 0, true)]), m);
  }

  lemma InstallKeepsIndex<M>(v: Volume<M>, key: Key, size: Words.u64, m: M)
    requires WellFormed(v) && Indexed(v)
    requires m !in v.meta && key !in v.files
    ensures Indexed(Install(v, key, size, m))
  {
    hide Words.Wrap64, Install, AtBack;
    if !v.scheme.NoCaching? {
      var y := WithNewFile(v, key, size, m);
      InstallGoesToBack(v, key, size, m);
      forall r | r in y.priority
        ensures y.priority[r] != m && AtHome(y, y.priority[r]) && y.meta[y.priority[r]].rank == r
      {
        assert AtHome(v, v.priority[r]);
      }
      forall k | k in y.files && y.files[k] != m
        ensures Ranked(y, y.files[k])
      {
        assert Ranked(v, v.files[k]);
      }
      BackKeepsIndex(y, m, EntryRank(y));
    }
  }

  lemma AccessKeepsIndex<M>(v: Volume<M>, m: M)
    requires WellFormed(v) && Indexed(v) && m in Live(v)
    ensures Indexed(AccessEvent(v, m))
  {
    if v.scheme.LRU? {
      assert Ranked(v, m);
      var x := v.(priority := v.priority - {v.meta[m].rank});
      forall r | r in x.priority
        ensures x.priority[r] != m && AtHome(x, x.priority[r]) && x.meta[x.priority[r]].rank == r
      {
        assert AtHome(v, v.priority[r]);
      }
      assert AtHome(v, m);
      forall k | k in x.files && x.files[k] != m
        ensures Ranked(x, x.files[k])
      {
        assert Ranked(v, v.files[k]);
      }
      BackKeepsIndex(x, m, v.counter);
    }
  }

  // Sizes, reference counts, pending writes and flags play no part in the index.
  lemma PatchKeepsIndex<M>(v: Volume<M>, w: Volume<M>, m: M)
    requires WellFormed(v) && m in v.meta && m in w.meta
    requires w == v.(free := w.free, meta := v.meta[m := w.meta[m]])
    requires w.meta[m].Place() == v.meta[m].Place() && w.meta[m].rank == v.meta[m].rank
    ensures Indexed(v) <==> Indexed(w)
  {
    if !v.scheme.NoCaching? {
      assert forall n :: AtHome(v, n) <==> AtHome(w, n);
      assert forall n :: Ranked(v, n) <==> Ranked(w, n);
    }
  }

  // ------------------------------------------------------------------ the two steps that break it

  // A move that happens and leaves the directory, or overwrites a file, breaks the index of a
  // caching partition; so does the removal of a directory that holds files.
  ghost predicate Breaking<M>(v: Volume<M>, op: Op<M>)
    requires WellFormed(v)
  {
    && !v.scheme.NoCaching?
    && match op
       case Move(src, dst) => MoveHappens(v, src, dst) && (src.dir != dst.dir || dst in v.files)
       case RemoveDirectory(dir) => dir in v.dirs && !AnyOpen(v, dir) && Within(v, dir) != {}
       case _ => false
  }

  lemma MoveKeepsIndex<M>(v: Volume<M>, src: Key, dst: Key)
    requires WellFormed(v) && Indexed(v) && !Breaking(v, Op.Move(src, dst))
    ensures Indexed(MoveFile(v, src, dst).after)
  {
    var w := MoveFile(v, src, dst).after;
    if MoveHappens(v, src, dst) && !v.scheme.NoCaching? {
      var m := v.files[src];
      var x := Relocate(v, src, dst);
      assert Ranked(v, m) && AtHome(v, v.priority[v.meta[m].rank]);
      forall r | r in x.priority
        ensures x.priority[r] != m && AtHome(x, x.priority[r]) && x.meta[x.priority[r]].rank == r
      {
        assert AtHome(v, v.priority[r]);
      }
      forall k | k in x.files && x.files[k] != m
        ensures Ranked(x, x.files[k])
      {
        assert Ranked(v, v.files[k]);
      }
      EnterGoesToBack(x, m);
      BackKeepsIndex(x, m, EntryRank(x));
      assert w == AtBack(x, m, EntryRank(x));
      assert Indexed(w);
    } else {
      assert w.priority == v.priority;
      assert Indexed(w);
    }
  }

  // The moved object still names its old directory, or the overwritten object keeps its entry.
  lemma MoveBreaksIndex<M>(v: Volume<M>, src: Key, dst: Key)
    requires WellFormed(v) && Indexed(v) && Breaking(v, Op.Move(src, dst))
    ensures !Indexed(MoveFile(v, src, dst).after)
  {
    IndexedIsBijection(v);
    var m := v.files[src];
    var x := Relocate(v, src, dst);
    var w := MoveFile(v, src, dst).after;
    EnterGoesToBack(x, m);
    assert w == AtBack(x, m, EntryRank(x));
    if src.dir != dst.dir {
      assert w.priority[EntryRank(x)] == m;
      assert w.meta[m].dir == src.dir;
      assert w.files[dst] == m;
      assert !AtHome(w, m);
    } else {
      var victim := v.files[dst];
      assert Ranked(v, victim) && Ranked(v, m);
      assert w.priority[v.meta[victim].rank] == victim;
      assert w.meta[victim].Place() == dst && w.files[dst] == m;
      assert !AtHome(w, victim);
    }
  }

  lemma DirectoryAndIndex<M>(v: Volume<M>, dir: string)
    requires WellFormed(v) && Indexed(v)
    ensures Indexed(DeleteDirectory(v, dir).after) <==> !Breaking(v, Op.RemoveDirectory(dir))
  {
    var w := DeleteDirectory(v, dir).after;
    if Breaking(v, Op<M>.RemoveDirectory(dir)) {
      var k :| k in Within(v, dir);
      var m := v.files[k];
      IndexedIsBijection(v);
      assert Ranked(v, m);
      assert w.priority[v.meta[m].rank] == m && w.meta[m].Place() == k;
      assert !AtHome(w, m);
      assert !Indexed(w);
    } else {
      if dir in v.dirs && !AnyOpen(v, dir) {
        assert !v.scheme.NoCaching? ==> w.files == v.files;
      }
      assert forall n :: !v.scheme.NoCaching? && AtHome(v, n) ==> AtHome(w, n);
      assert Indexed(w);
    }
  }

  lemma CreateKeepsIndex<M>(v: Volume<M>, path: string, size: Words.u64, m: M)
    requires WellFormed(v) && Indexed(v) && m !in v.meta
    ensures Indexed(CreateFile(v, path, size, m).after)
  {
    var w := CreateFile(v, path, size, m).after;
    if path !in v.dirs && SplitPath(path) !in v.files {
      var r := MakeRoom(v, size);
      RoomKeepsIndex(v, size);
      RoomOnlyRemoves(v, size);
      InstallKeepsIndex(r.after, SplitPath(path), size, m);
      assert w == if r.outcome.Ok? then Install(r.after, SplitPath(path), size, m) else r.after;
      assert Indexed(w);
    } else {
      assert w == v;
      assert Indexed(w);
    }
  }

  lemma OpenKeepsIndex<M>(v: Volume<M>, path: string, mode: Mode, m: M)
    requires WellFormed(v) && Indexed(v) && NewIfMissing(v, path, m)
    ensures Indexed(OpenFile(v, path, mode, m).after)
  {
    var key := SplitPath(path);
    var w := OpenFile(v, path, mode, m).after;
    if key in v.files {
      PatchKeepsIndex(v, w, v.files[key]);
      assert Indexed(w);
    } else {
      CreateKeepsIndex(v, path, 0, m);
      var r := CreateFile(v, path, 0, m);
      if r.outcome.Ok? {
        PatchKeepsIndex(r.after, Retain(r.after, m), m);
      }
      assert Indexed(w);
    }
  }

  lemma StartWriteKeepsIndex<M>(v: Volume<M>, m: M, id: int, pos: Words.u64, n: Words.u64)
    requires WellFormed(v) && Indexed(v) && m in v.meta
    ensures Indexed(StartWrite(v, m, id, pos, n).after)
  {
    var added := AddedBytes(pos, n, v.meta[m].future);
    var r := MakeRoom(v, added);
    var w := StartWrite(v, m, id, pos, n).after;
    RoomKeepsIndex(v, added);
    if r.outcome.Ok? {
      PatchKeepsIndex(r.after, w, m);
    }
    assert Indexed(w);
  }

  // Every step keeps the index of a partition, except exactly the breaking ones.
  lemma StepKeepsIndexUnlessBreaking<M>(v: Volume<M>, op: Op<M>)
    requires WellFormed(v) && Indexed(v) && Safe(v, op)
    ensures Indexed(Apply(v, op).after) <==> !Breaking(v, op)
  {
    var w := Apply(v, op).after;
    match op
    case Create(path, bytes, m) => CreateKeepsIndex(v, path, bytes, m);
    case Delete(key) => DeleteKeepsIndex(v, key);
    case Move(src, dst) =>
      if Breaking(v, op) { MoveBreaksIndex(v, src, dst); } else { MoveKeepsIndex(v, src, dst); }
    case MakeDirectory(dir) => DirectoryAddKeepsIndex(v, dir);
    case RemoveDirectory(dir) => DirectoryAndIndex(v, dir);
    case Truncate(key, bytes) => if w != v { PatchKeepsIndex(v, w, v.files[key]); }
    case SetEvictable(key, evictable) => if w != v { PatchKeepsIndex(v, w, v.files[key]); }
    case Open(path, mode, m) => OpenKeepsIndex(v, path, mode, m);
    case Close(m) => PatchKeepsIndex(v, w, m);
    case Access(m) => AccessKeepsIndex(v, m);
    case BeginWrite(m, id, pos, bytes) => StartWriteKeepsIndex(v, m, id, pos, bytes);
    case FinishWrite(m, id) =>
      AccessKeepsIndex(v, m);
      PatchKeepsIndex(AccessEvent(v, m), w, m);
  }

  lemma DirectoryAddKeepsIndex<M>(v: Volume<M>, dir: string)
    requires WellFormed(v) && Indexed(v)
    ensures Indexed(CreateDirectory(v, dir).after)
  {
    var w := CreateDirectory(v, dir).after;
    assert forall n :: AtHome(v, n) ==> AtHome(w, n);
    assert Indexed(w);
  }

  // ------------------------------------------------------------------ runs

  ghost predicate Permitted<M>(v: Volume<M>, ops: seq<Op<M>>)
    requires WellFormed(v)
    decreases |ops|
  {
    ops == [] ||
    (Safe(v, ops[0]) && !Breaking(v, ops[0]) && Permitted(Apply(v, ops[0]).after, ops[1..]))
  }

  ghost function Run<M>(v: Volume<M>, ops: seq<Op<M>>): (w: Volume<M>)
    requires WellFormed(v) && Permitted(v, ops)
    ensures WellFormed(w) && SameVolume(v, w)
    decreases |ops|
  {
    if ops == [] then v else Run(Apply(v, ops[0]).after, ops[1..])
  }

  lemma {:induction false} RunKeepsIndex<M>(v: Volume<M>, ops: seq<Op<M>>)
    requires WellFormed(v) && Indexed(v) && Permitted(v, ops)
    ensures Indexed(Run(v, ops))
    decreases |ops|
  {
    if ops != [] {
      StepKeepsIndexUnlessBreaking(v, ops[0]);
      RunKeepsIndex(Apply(v, ops[0]).after, ops[1..]);
    }
  }

  lemma MountedIsIndexed<M>(scheme: Scheme, size: Words.u64)
    ensures WellFormed(Mounted<M>(scheme, size)) && Indexed(Mounted<M>(scheme, size))
  {
  }

  // In every reachable state of a FIFO or LRU partition, the two indexes are in bijection.
  lemma IndexAgreesInEveryReachableState<M>(scheme: Scheme, size: Words.u64, ops: seq<Op<M>>)
    requires !scheme.NoCaching?
    requires Permitted(Mounted<M>(scheme, size), ops)
    ensures var v := Run(Mounted(scheme, size), ops);
            && v.priority.Values == Live(v)
            && (forall r, s :: r in v.priority && s in v.priority && v.priority[r] == v.priority[s] ==> r == s)
            && (forall r :: r in v.priority ==>
                  var f := v.meta[v.priority[r]];
                  r < v.counter && f.rank == r && f.Place() in v.files && v.files[f.Place()] == v.priority[r])
  {
    RunKeepsIndex(Mounted(scheme, size), ops);
    IndexedIsBijection(Run(Mounted(scheme, size), ops));
  }

  // ------------------------------------------------------------------ what a broken index costs

  // A full FIFO partition holding the one file `f`, named so by its metadata, at `place`.
  ghost function OneFile<M>(m: M, f: FileRec, place: Key): Volume<M> {
    Volume(FIFO, f.future, 0, {f.dir, place.dir}, map[place := m], map[f.rank := m], f.rank + 1, map[m := f])
  }

  // Creating a file that fills a fresh FIFO partition is a permitted run. After moving it to another
  // directory, making room finds a victim that is large enough and then fails, because the file it
  // asks to delete is not where the metadata says.
  lemma EvictionFailsAfterMoveAcross<M>(size: Words.u64, m: M, path: string, dir: string, n: Words.u64)
    requires dir != SplitPath(path).dir && 0 < n <= size
    ensures var v, src := Mounted<M>(FIFO, size), SplitPath(path);
            && Permitted(v, [Op.Create(path, size, m)])
            && var w := Run(v, [Op.Create(path, size, m)]);
            && src in w.files && Indexed(w)
            && var x := Apply(w, Op.Move(src, Key(dir, src.name))).after;
            && Victims(x, n).1 >= n
            && MakeRoom(x, n).outcome == FileNotFound
  {
    hide SplitPath, MoveFile, CreateFile, CreateSpace, Victims, Indexed;
    var key := SplitPath(path);
    var f := FileRec(key.dir, key.name, size, size, map[], 0, 0, true);
    MountedIsIndexed<M>(FIFO, size);
    FullOfOneFile(size, m, path);
    OneFileIsIndexed(m, f);
    MoveOfOneFile(m, f, dir);
    EvictionLooksInTheOldPlace(m, f.(rank := 1), dir, n);
    var ops := [Op.Create(path, size, m)];
    assert ops[1..] == [];
  }

  lemma FullOfOneFile<M>(size: Words.u64, m: M, path: string)
    ensures var key := SplitPath(path);
            CreateFile(Mounted<M>(FIFO, size), path, size, m)
            == Reply(Ok, OneFile(m, FileRec(key.dir, key.name, size, size, map[], 0, 0, true), key))
  {
    hide SplitPath;
    var v, key := Mounted<M>(FIFO, size), SplitPath(path);
    var f := FileRec(key.dir, key.name, size, size, map[], 0, 0, true);
    var w := Install(v, key, size, m);
    EnterGoesToBack(v.(meta := map[m := f]), m);
    assert w == OneFile(m, f, key);
  }

  lemma OneFileIsIndexed<M>(m: M, f: FileRec)
    ensures WellFormed(OneFile(m, f, f.Place())) && Indexed(OneFile(m, f, f.Place()))
  {
    var v := OneFile(m, f, f.Place());
    assert AtHome(v, m) && Ranked(v, m);
  }

  lemma MoveOfOneFile<M>(m: M, f: FileRec, dir: string)
    requires f.refs == 0 && dir != f.dir
    ensures WellFormed(OneFile(m, f, f.Place()))
    ensures MoveFile(OneFile(m, f, f.Place()), f.Place(), Key(dir, f.name)).after
            == OneFile(m, f.(rank := f.rank + 1), Key(dir, f.name))
  {
    hide Words.Wrap64, Enter;
    OneFileIsIndexed(m, f);
    var v := OneFile(m, f, f.Place());
    var x := Relocate(v, f.Place(), Key(dir, f.name));
    assert x.priority == map[];
    assert x.files == map[Key(dir, f.name) := m];
    assert x.meta == map[m := f];
    EnterGoesToBack(x, m);
    var y := AtBack(x, m, f.rank + 1);
    assert y.meta == map[m := f.(rank := f.rank + 1)];
    assert y.priority == map[f.rank + 1 := m];
    assert y.dirs == {f.dir, dir};
  }

  lemma EvictionLooksInTheOldPlace<M>(m: M, f: FileRec, dir: string, n: Words.u64)
    requires f.IsVictim() && dir != f.dir && n <= f.current
    ensures var w := OneFile(m, f, Key(dir, f.name));
            && WellFormed(w)
            && Victims(w, n) == ([f.rank], f.current)
            && CreateSpace(w, n).outcome == FileNotFound
  {
    var w := OneFile(m, f, Key(dir, f.name));
    NothingBelow(w.priority, f.rank);
    assert Ranks(w) == [f.rank];
    assert Victims(w, n) == ([f.rank], f.current);
    assert DeleteFile(w, f.Place()).outcome == FileNotFound;
  }

  lemma {:induction false} NothingBelow<M>(priority: map<nat, M>, bound: nat)
    requires forall r :: r in priority ==> r >= bound
    ensures Ascending(priority, bound) == []
  {
    if bound > 0 {
      NothingBelow(priority, bound - 1);
    }
  }
}
