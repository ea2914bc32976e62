// Where the bytes go: free space, reserved sizes, and what unfinished writes leave behind.
module Ledger {
  import opened Words
  import opened Sums
  import opened Volumes
  import opened Index
  import opened Eviction
  import opened Guards

  // The space every stored file has reserved.
  ghost function Reserved<M>(v: Volume<M>): int { SumFuture(v.meta, Live(v)) }

  // What is reserved for the given files but was never written.
  ghost function Unwritten<M>(v: Volume<M>, objects: set<M>): int {
    SumFuture(v.meta, objects) - SumCurrent(v.meta, objects)
  }

  // The files a step destroys: what is deleted, written over, or evicted to make room.
  ghost function Destroyed<M>(v: Volume<M>, op: Op<M>): set<M>
    requires WellFormed(v) && Safe(v, op)
  {
    if !Accepted(v, op) then {}
    else
      match op
      case Create(_, bytes, _) => Objects(v, RoomVictims(v, bytes))
      case Delete(key) => {v.files[key]}
      case Move(src, dst) => if src != dst && dst in v.files then {v.files[dst]} else {}
      case RemoveDirectory(dir) => Inside(v, dir)
      case BeginWrite(m, _, pos, bytes) => Objects(v, RoomVictims(v, AddedBytes(pos, bytes, v.meta[m].future)))
      case _ => {}
  }

  // The file whose sizes a step resets.
  ghost function Cut<M>(v: Volume<M>, op: Op<M>): set<M>
    requires WellFormed(v) && Safe(v, op)
  {
    match op
    case Truncate(key, _) => if IsClosed(v, key) then {v.files[key]} else {}
    case Open(path, mode, _) =>
      if mode.Write? && SplitPath(path) in v.files then {v.files[SplitPath(path)]} else {}
    case _ => {}
  }

  // The bytes a step loses: reserved in its files, and not given back.
  ghost function Lost<M>(v: Volume<M>, op: Op<M>): int
    requires WellFormed(v) && Safe(v, op)
  {
    Unwritten(v, Destroyed(v, op)) + Unwritten(v, Cut(v, op))
  }

  // The bytes a step gives back to free space; negative if it takes more.
  ghost function Returned<M>(v: Volume<M>, op: Op<M>): int
    requires WellFormed(v) && Safe(v, op)
  {
    SumCurrent(v.meta, Destroyed(v, op)) + GivenByCut(v, op) - Taken(v, op)
  }

  ghost function GivenByCut<M>(v: Volume<M>, op: Op<M>): int
    requires WellFormed(v) && Safe(v, op)
  {
    match op
    case Truncate(key, bytes) => if IsClosed(v, key) then Min(bytes, v.meta[v.files[key]].current) else 0
    case Open(path, mode, _) =>
      if mode.Write? && SplitPath(path) in v.files then v.meta[v.files[SplitPath(path)]].current else 0
    case _ => 0
  }

  ghost function Taken<M>(v: Volume<M>, op: Op<M>): nat
    requires WellFormed(v) && Safe(v, op)
  {
    if !Accepted(v, op) then 0
    else
      match op
      case Create(_, bytes, _) => bytes
      case BeginWrite(m, _, pos, bytes) => AddedBytes(pos, bytes, v.meta[m].future)
      case _ => 0
  }

  ghost function Objects<M>(v: Volume<M>, ranks: seq<nat>): set<M>
    requires WellFormed(v) && Listed(v, ranks)
  {
    set r | r in ranks :: v.priority[r]
  }

  // ------------------------------------------------------------------ sums over objects

  ghost function Futures<M>(meta: map<M, FileRec>, objects: set<M>): map<M, int> {
    map m | m in meta && m in objects :: meta[m].future
  }

  ghost function Currents<M>(meta: map<M, FileRec>, objects: set<M>): map<M, int> {
    map m | m in meta && m in objects :: meta[m].current
  }

  lemma SumNothing<M>(meta: map<M, FileRec>)
    ensures SumFuture(meta, {}) == 0 && SumCurrent(meta, {}) == 0
  {
    assert Futures(meta, {}) == map[];
    assert Currents(meta, {}) == map[];
  }

  lemma SumOne<M>(meta: map<M, FileRec>, m: M)
    requires m in meta
    ensures SumFuture(meta, {m}) == meta[m].future && SumCurrent(meta, {m}) == meta[m].current
  {
    SumRemove(Futures(meta, {m}), m);
    SumRemove(Currents(meta, {m}), m);
    assert Futures(meta, {m}) - {m} == map[];
    assert Currents(meta, {m}) - {m} == map[];
  }

  lemma SumWithout<M>(meta: map<M, FileRec>, objects: set<M>, gone: set<M>)
    requires gone <= objects
    ensures SumFuture(meta, objects) == SumFuture(meta, objects - gone) + SumFuture(meta, gone)
  {
    SumSplit(Futures(meta, objects), gone);
    assert Futures(meta, objects) - gone == Futures(meta, objects - gone);
    assert (map m | m in Futures(meta, objects) && m in gone :: Futures(meta, objects)[m]) == Futures(meta, gone);
  }

  lemma SumPatched<M>(meta: map<M, FileRec>, objects: set<M>, m: M, f: FileRec)
    requires m in objects
    ensures SumFuture(meta[m := f], objects)
            == SumFuture(meta, objects) - (if m in meta then meta[m].future else 0) + f.future
  {
    SumSet(Futures(meta, objects), m, f.future);
    assert Futures(meta[m := f], objects) == Futures(meta, objects)[m := f.future];
  }

  lemma SumGrown<M>(meta: map<M, FileRec>, objects: set<M>, m: M)
    requires m !in objects && m in meta
    ensures SumFuture(meta, objects + {m}) == SumFuture(meta, objects) + meta[m].future
  {
    SumSet(Futures(meta, objects), m, meta[m].future);
    assert Futures(meta, objects + {m}) == Futures(meta, objects)[m := meta[m].future];
  }

  lemma SumAgree<M>(a: map<M, FileRec>, b: map<M, FileRec>, objects: set<M>)
    requires forall m :: m in objects ==> m in a && m in b && a[m].future == b[m].future
    ensures SumFuture(a, objects) == SumFuture(b, objects)
  {
    assert Futures(a, objects) == Futures(b, objects);
  }

  // ------------------------------------------------------------------ what a step moves

  // From `v` to `w`, the objects `gone` disappear and `lost` bytes with them; `returned` bytes go from
  // the reservations to free space, which counts in 64 bits.
  ghost predicate Moves<M>(v: Volume<M>, w: Volume<M>, gone: set<M>, lost: int, returned: int) {
    && Live(v) - Live(w) == gone
    && Reserved(w) == Reserved(v) - lost - returned
    && w.free == Wrap64(v.free + returned)
  }

  lemma ReservedIsNat<M>(meta: map<M, FileRec>, objects: set<M>)
    ensures SumFuture(meta, objects) >= 0 && SumCurrent(meta, objects) >= 0
    ensures forall m :: m in objects && m in meta ==> meta[m].future <= SumFuture(meta, objects)
  {
    SumNonNegative(Futures(meta, objects));
    SumNonNegative(Currents(meta, objects));
    assert forall m :: m in objects && m in meta ==> m in Futures(meta, objects);
  }

  lemma LiveHasMeta<M>(v: Volume<M>)
    requires WellFormed(v)
    ensures forall m :: m in Live(v) ==> m in v.meta
  {
  }

  lemma SameReserved<M>(v: Volume<M>, w: Volume<M>)
    requires Live(w) == Live(v)
    requires forall m :: m in Live(v) ==> m in v.meta && m in w.meta && w.meta[m].future == v.meta[m].future
    ensures Reserved(v) == Reserved(w)
  {
    SumAgree(v.meta, w.meta, Live(v));
  }

  lemma DropMoves<M>(v: Volume<M>, w: Volume<M>, gone: set<M>)
    requires gone <= Live(v) && Live(w) == Live(v) - gone
    requires forall m :: m in Live(w) ==> m in v.meta && m in w.meta && w.meta[m].future == v.meta[m].future
    requires w.free == Wrap64(v.free + SumCurrent(v.meta, gone))
    ensures Moves(v, w, gone, Unwritten(v, gone), SumCurrent(v.meta, gone))
  {
    SumWithout(v.meta, Live(v), gone);
    SumAgree(v.meta, w.meta, Live(w));
    assert Live(v) - Live(w) == gone;
  }

  lemma ReserveMoves<M>(v: Volume<M>, room: Volume<M>, w: Volume<M>, gone: set<M>, lost: int, returned: int, added: int)
    requires Moves(v, room, gone, lost, returned) && Live(v) - Live(w) == gone
    requires Reserved(w) == Reserved(room) + added
    requires w.free == Wrap64(room.free - added)
    ensures Moves(v, w, gone, lost, returned - added)
  {
    WrapAdd(v.free + returned, -added);
  }

  lemma NothingMoves<M>(v: Volume<M>, w: Volume<M>)
    requires WellFormed(v) && Live(w) == Live(v) && w.free == v.free
    requires forall m :: m in Live(v) ==> m in w.meta && w.meta[m].future == v.meta[m].future
    ensures Moves(v, w, {}, 0, 0)
  {
    LiveHasMeta(v);
    SameReserved(v, w);
    assert Live(v) - Live(w) == {};
  }

  lemma Unchanged<M>(v: Volume<M>)
    requires WellFormed(v)
    ensures Moves(v, v, {}, 0, 0)
  {
    LiveHasMeta(v);
    NothingMoves(v, v);
  }

  // ------------------------------------------------------------------ files that disappear

  // Removing keys from content_ removes exactly the objects stored under them.
  lemma LiveWithout<M>(v: Volume<M>, files: map<Key, M>, gone: set<M>)
    requires WellFormed(v)
    requires forall k :: k in files <==> k in v.files && v.files[k] !in gone
    requires forall k :: k in files ==> files[k] == v.files[k]
    requires gone <= Live(v)
    ensures files.Values == Live(v) - gone
  {
    forall m | m in files.Values
      ensures m in Live(v) && m !in gone
    {
      var k :| k in files && files[k] == m;
      assert k in v.files;
    }
    forall m | m in Live(v) && m !in gone
      ensures m in files.Values
    {
      var k :| k in v.files && v.files[k] == m;
      assert k in files && files[k] == m;
    }
  }

  lemma DeleteMoves<M>(v: Volume<M>, key: Key)
    requires WellFormed(v) && IsClosed(v, key)
    ensures var m := v.files[key];
            Moves(v, DeleteFile(v, key).after, {m}, Unwritten(v, {m}), SumCurrent(v.meta, {m}))
  {
    var r, m := DeleteFile(v, key), v.files[key];
    LiveWithout(v, r.after.files, {m});
    SumOne(v.meta, m);
    DropMoves(v, r.after, {m});
  }

  lemma {:induction false} SizesAreCurrents<M>(v: Volume<M>, ranks: seq<nat>)
    requires WellFormed(v) && Listed(v, ranks)
    requires forall i, j :: 0 <= i < j < |ranks| ==> v.priority[ranks[i]] != v.priority[ranks[j]]
    ensures Sizes(v, ranks) == SumCurrent(v.meta, Objects(v, ranks))
  {
    if ranks == [] {
      assert Objects(v, ranks) == {};
      SumNothing(v.meta);
    } else {
      var rest, m := ranks[1..], v.priority[ranks[0]];
      SizesAreCurrents(v, rest);
      assert ranks == [ranks[0]] + rest;
      assert Objects(v, ranks) == {m} + Objects(v, rest);
      assert m !in Objects(v, rest);
      SumOneMore(v.meta, Objects(v, rest), m);
    }
  }

  lemma SumOneMore<M>(meta: map<M, FileRec>, objects: set<M>, m: M)
    requires m in meta && m !in objects
    ensures SumCurrent(meta, {m} + objects) == meta[m].current + SumCurrent(meta, objects)
  {
    var c := Currents(meta, {m} + objects);
    SumRemove(c, m);
    assert c - {m} == Currents(meta, objects);
  }

  lemma EvictedObjects<M>(v: Volume<M>, victims: seq<nat>)
    requires WellFormed(v) && Indexed(v) && AllVictims(v, victims) && !v.scheme.NoCaching?
    ensures Live(Without(v, victims)) == Live(v) - Objects(v, victims)
    ensures Objects(v, victims) <= Live(v)
    ensures Sizes(v, victims) == SumCurrent(v.meta, Objects(v, victims))
  {
    IndexedIsBijection(v);
    forall k | k in v.files
      ensures v.meta[v.files[k]].rank in victims <==> v.files[k] in Objects(v, victims)
    {
      assert Ranked(v, v.files[k]);
    }
    LiveWithout(v, Without(v, victims).files, Objects(v, victims));
    SizesAreCurrents(v, victims);
  }

  // Room that is made comes from the victims alone, and suffices.
  lemma RoomMoves<M>(v: Volume<M>, needed: u64)
    requires WellFormed(v) && Indexed(v) && HasRoom(v, needed)
    ensures var gone := Objects(v, RoomVictims(v, needed));
            && MakeRoom(v, needed).outcome.Ok?
            && Moves(v, MakeRoom(v, needed).after, gone, Unwritten(v, gone), SumCurrent(v.meta, gone))
            && gone <= Live(v)
            && v.free + SumCurrent(v.meta, gone) >= needed
  {
    hide Indexed, DeleteVictims, Select, HasRoom, CreateSpace, WellFormed, Wrap64;
    RoomIff(v, needed);
    RoomShape(v, needed);
    SumNothing(v.meta);
    LiveHasMeta(v);
    var victims := RoomVictims(v, needed);
    if victims == [] {
      WithoutNothing(v);
      Unchanged(v);
      assert Objects(v, victims) == {};
    } else {
      EvictedObjects(v, victims);
      DropMoves(v, Without(v, victims), Objects(v, victims));
    }
    VictimsSuffice(v, needed);
  }

  lemma VictimsSuffice<M>(v: Volume<M>, needed: u64)
    requires WellFormed(v) && MakeRoom(v, needed).outcome.Ok?
    ensures v.free + Sizes(v, RoomVictims(v, needed)) >= needed
  {
    hide DeleteVictims, Select, WellFormed;
    if v.free < needed {
      SelectStopsAtFirst(v, Ranks(v), 0, needed - v.free);
      var victims := RoomVictims(v, needed);
      var c := Candidates(v);
      assert victims == c[..|victims|];
      WrapIsAtMost(Sizes(v, victims));
    }
  }

  lemma {:induction false} WrapIsAtMost(x: nat)
    ensures Wrap64(x) <= x
  {
    if x >= TWO64 {
      WrapIsAtMost(x - TWO64);
    }
  }

  lemma RoomLive<M>(v: Volume<M>, needed: u64)
    requires WellFormed(v) && Indexed(v)
    ensures WellFormed(MakeRoom(v, needed).after) && MakeRoom(v, needed).after.meta == v.meta
    ensures Live(MakeRoom(v, needed).after) <= Live(v)
  {
    RoomShape(v, needed);
    var w := MakeRoom(v, needed).after;
    assert forall k :: k in w.files ==> k in v.files && w.files[k] == v.files[k];
  }

  lemma MoveMoves<M>(v: Volume<M>, src: Key, dst: Key)
    requires WellFormed(v) && MoveHappens(v, src, dst)
    ensures var gone := if dst in v.files then {v.files[dst]} else {};
            Moves(v, MoveFile(v, src, dst).after, gone, Unwritten(v, gone), SumCurrent(v.meta, gone))
  {
    hide Enter, Relocate, SumCurrent;
    var w := MoveFile(v, src, dst).after;
    MoveLive(v, src, dst);
    MoveKeepsFutures(v, src, dst);
    SumNothing(v.meta);
    if dst in v.files {
      SumOne(v.meta, v.files[dst]);
      DropMoves(v, w, {v.files[dst]});
    } else {
      NothingMoves(v, w);
    }
  }

  // A file moved onto itself stays.
  lemma MoveStepMoves<M>(v: Volume<M>, src: Key, dst: Key)
    requires WellFormed(v) && src in v.files && (src == dst || MoveHappens(v, src, dst))
    ensures var gone := if src != dst && dst in v.files then {v.files[dst]} else {};
            Moves(v, MoveFile(v, src, dst).after, gone, Unwritten(v, gone), SumCurrent(v.meta, gone))
  {
    SumNothing(v.meta);
    if src == dst {
      hide Moves;
      Unchanged(v);
    } else {
      hide MoveFile;
      MoveMoves(v, src, dst);
    }
  }

  lemma MoveKeepsFutures<M>(v: Volume<M>, src: Key, dst: Key)
    requires WellFormed(v) && MoveHappens(v, src, dst)
    ensures var w := MoveFile(v, src, dst).after;
            && (forall n :: n in Live(v) ==> n in v.meta && n in w.meta && w.meta[n].future == v.meta[n].future)
            && w.free == if dst in v.files then Wrap64(v.free + v.meta[v.files[dst]].current) else v.free
  {
    LiveHasMeta(v);
    MoveShape(v, src, dst);
  }

  lemma MoveLive<M>(v: Volume<M>, src: Key, dst: Key)
    requires WellFormed(v) && MoveHappens(v, src, dst)
    ensures Live(MoveFile(v, src, dst).after) == Live(v) - (if dst in v.files then {v.files[dst]} else {})
  {
    var files := (v.files - {src})[dst := v.files[src]];
    assert MoveFile(v, src, dst).after.files == files;
    forall m | m in files.Values
      ensures m in Live(v) && (dst in v.files ==> m != v.files[dst])
    {
      var k :| k in files && files[k] == m;
      assert k == dst || k in v.files;
    }
    forall m | m in Live(v) && (dst in v.files ==> m != v.files[dst])
      ensures m in files.Values
    {
      var k :| k in v.files && v.files[k] == m;
      assert files[if k == src then dst else k] == m;
    }
  }

  lemma DirectoryMoves<M>(v: Volume<M>, dir: string)
    requires WellFormed(v) && DeleteDirectory(v, dir).outcome.Ok?
    ensures var gone := Inside(v, dir);
            Moves(v, DeleteDirectory(v, dir).after, gone, Unwritten(v, gone), SumCurrent(v.meta, gone))
  {
    var r := DeleteDirectory(v, dir);
    LiveHasMeta(v);
    assert forall k :: k in v.files && v.files[k] in Inside(v, dir) ==> k.dir == dir;
    LiveWithout(v, r.after.files, Inside(v, dir));
    DropMoves(v, r.after, Inside(v, dir));
  }

  // ------------------------------------------------------------------ files that appear or grow

  lemma InstallReserves<M>(v: Volume<M>, key: Key, size: u64, m: M)
    requires WellFormed(v) && m !in v.meta && key !in v.files
    ensures var w := Install(v, key, size, m);
            && Live(w) == Live(v) + {m}
            && w.free == Wrap64(v.free - size)
            && m in w.meta && w.meta[m].future == size && w.meta[m].current == size
            && w.meta[m].ongoing == map[]
            && (forall n :: n in v.meta ==> n in w.meta && w.meta[n] == v.meta[n])
            && Reserved(w) == Reserved(v) + size
  {
    var w := Install(v, key, size, m);
    LiveHasMeta(v);
    EnterOnlyRanks(v.(meta := v.meta[m := FileRec(key.dir, key.name, size, size, map[], 0, 0, true)]), m);
    assert w.files == v.files[key := m] && w.free == Wrap64(v.free - size);
    assert forall n :: n in v.meta ==> n in w.meta && w.meta[n] == v.meta[n];
    assert w.meta[m].future == size && w.meta[m].current == size && w.meta[m].ongoing == map[];
    hide Install, WellFormed, Wrap64, SumFuture;
    LiveWith(v.files, key, m);
    SumGrown(w.meta, Live(v), m);
    SumAgree(v.meta, w.meta, Live(v));
  }

  lemma LiveWith<M>(files: map<Key, M>, key: Key, m: M)
    requires key !in files
    ensures files[key := m].Values == files.Values + {m}
  {
    var w := files[key := m];
    assert w[key] == m;
    forall n | n in files.Values
      ensures n in w.Values
    {
      var k :| k in files && files[k] == n;
      assert w[k] == n;
    }
  }

  lemma CreateMoves<M>(v: Volume<M>, path: string, size: u64, m: M)
    requires WellFormed(v) && Indexed(v) && m !in v.meta
    requires path !in v.dirs && SplitPath(path) !in v.files && HasRoom(v, size)
    ensures var gone := Objects(v, RoomVictims(v, size));
            Moves(v, CreateFile(v, path, size, m).after, gone, Unwritten(v, gone), SumCurrent(v.meta, gone) - size)
  {
    hide Indexed, HasRoom, MakeRoom, WellFormed, RoomVictims, Install, SplitPath;
    RoomMoves(v, size);
    RoomLive(v, size);
    RoomOnlyRemoves(v, size);
    LiveHasMeta(v);
    var room, gone := MakeRoom(v, size).after, Objects(v, RoomVictims(v, size));
    var w := Install(room, SplitPath(path), size, m);
    assert w == CreateFile(v, path, size, m).after;
    InstallReserves(room, SplitPath(path), size, m);
    hide CreateFile;
    assert Live(v) - Live(w) == Live(v) - Live(room);
    ReserveMoves(v, room, w, gone, Unwritten(v, gone), SumCurrent(v.meta, gone), size);
  }

  // An open file is never evicted.
  lemma OpenFileSurvives<M>(v: Volume<M>, needed: u64, m: M)
    requires WellFormed(v) && Indexed(v) && InUse(v, m)
    ensures m in Live(MakeRoom(v, needed).after)
  {
    RoomShape(v, needed);
    var victims := RoomVictims(v, needed);
    var k :| k in v.files && v.files[k] == m;
    if v.scheme.NoCaching? {
      WithoutNothing(v);
    } else {
      assert Ranked(v, v.files[k]);
      assert k in Without(v, victims).files;
      assert Without(v, victims).files[k] == m;
    }
  }

  lemma WriteShape<M>(v: Volume<M>, m: M, id: int, pos: u64, n: u64)
    requires WellFormed(v) && m in v.meta
    requires MakeRoom(v, AddedBytes(pos, n, v.meta[m].future)).outcome.Ok?
    requires MakeRoom(v, AddedBytes(pos, n, v.meta[m].future)).after.meta == v.meta
    ensures var added := AddedBytes(pos, n, v.meta[m].future);
            var room, w := MakeRoom(v, added).after, StartWrite(v, m, id, pos, n).after;
            && w.files == room.files && w.free == Wrap64(room.free - added)
            && m in w.meta && w.meta == room.meta[m := w.meta[m]]
            && w.meta[m].future == room.meta[m].future + added
  {
    hide MakeRoom, WellFormed, Wrap64;
  }

  lemma WriteMoves<M>(v: Volume<M>, m: M, id: int, pos: u64, n: u64)
    requires WellFormed(v) && Indexed(v) && InUse(v, m) && HasRoom(v, AddedBytes(pos, n, v.meta[m].future))
    ensures var added := AddedBytes(pos, n, v.meta[m].future);
            var gone := Objects(v, RoomVictims(v, added));
            Moves(v, StartWrite(v, m, id, pos, n).after, gone, Unwritten(v, gone), SumCurrent(v.meta, gone) - added)
  {
    hide Indexed, HasRoom, CreateSpace, WellFormed, StartWrite, MakeRoom, RoomVictims, AddedBytes;
    hide Wrap64, Objects, Unwritten, SumCurrent;
    var added := AddedBytes(pos, n, v.meta[m].future);
    RoomMoves(v, added);
    RoomLive(v, added);
    OpenFileSurvives(v, added, m);
    WriteShape(v, m, id, pos, n);
    var room, w := MakeRoom(v, added).after, StartWrite(v, m, id, pos, n).after;
    var gone := Objects(v, RoomVictims(v, added));
    SumPatched(room.meta, Live(room), m, w.meta[m]);
    ReserveMoves(v, room, w, gone, Unwritten(v, gone), SumCurrent(v.meta, gone), added);
  }

  lemma OpenMoves<M>(v: Volume<M>, path: string, mode: Mode, m: M)
    requires WellFormed(v) && Indexed(v) && NewIfMissing(v, path, m)
    requires mode.Write? ==> SplitPath(path) !in v.files
    ensures Moves(v, OpenFile(v, path, mode, m).after, {}, 0, 0)
  {
    hide Indexed, CreateFile;
    var w := OpenFile(v, path, mode, m).after;
    LiveHasMeta(v);
    Unchanged(v);
    if SplitPath(path) in v.files {
      NothingMoves(v, w);
    } else if !mode.Read? && !mode.ReadWrite? {
      CreateNothingMoves(v, path, m);
      var x := CreateFile(v, path, 0, m).after;
      LiveHasMeta(x);
      assert w.files == x.files && w.free == x.free;
      SameReserved(x, w);
    }
  }

  lemma CreateNothingMoves<M>(v: Volume<M>, path: string, m: M)
    requires WellFormed(v) && Indexed(v) && m !in v.meta
    ensures Moves(v, CreateFile(v, path, 0, m).after, {}, 0, 0)
  {
    hide Indexed, CreateSpace;
    Unchanged(v);
    SumNothing(v.meta);
    if path !in v.dirs && SplitPath(path) !in v.files {
      CreateMoves(v, path, 0, m);
      assert Objects(v, RoomVictims(v, 0)) == {};
    }
  }

  // ------------------------------------------------------------------ files that are cut

  // Giving back part of the current size of a file whose reservation becomes what is left.
  lemma CutMoves<M>(v: Volume<M>, w: Volume<M>, m: M, given: int)
    requires WellFormed(v) && m in Live(v) && m in w.meta && w.files == v.files
    requires forall n :: n in Live(v) && n != m ==> n in w.meta && w.meta[n].future == v.meta[n].future
    requires w.meta[m].future == v.meta[m].current - given
    requires w.free == Wrap64(v.free + given)
    ensures Moves(v, w, {}, Unwritten(v, {m}), given)
  {
    LiveHasMeta(v);
    SumOne(v.meta, m);
    CutReserved(v, w, m);
    assert Live(v) - Live(w) == {};
  }

  lemma CutReserved<M>(v: Volume<M>, w: Volume<M>, m: M)
    requires WellFormed(v) && m in Live(v) && m in w.meta && w.files == v.files
    requires forall n :: n in Live(v) && n != m ==> n in v.meta && n in w.meta && w.meta[n].future == v.meta[n].future
    ensures Reserved(w) == Reserved(v) - v.meta[m].future + w.meta[m].future
  {
    LiveHasMeta(v);
    SumPatched(v.meta, Live(v), m, w.meta[m]);
    SumAgree(v.meta[m := w.meta[m]], w.meta, Live(v));
  }

  lemma TruncateMoves<M>(v: Volume<M>, key: Key, n: u64)
    requires WellFormed(v) && IsClosed(v, key)
    ensures var m := v.files[key];
            && Moves(v, TruncateFile(v, key, n).after, {}, Unwritten(v, {m}), Min(n, v.meta[m].current))
            && Min(n, v.meta[m].current) >= 0
  {
    LiveHasMeta(v);
    var m := v.files[key];
    CutMoves(v, TruncateFile(v, key, n).after, m, Min(n, v.meta[m].current));
  }

  lemma ResetMoves<M>(v: Volume<M>, m: M)
    requires WellFormed(v) && m in Live(v) && m in v.meta
    ensures Moves(v, Retain(ResetFile(v, m), m), {}, Unwritten(v, {m}), v.meta[m].current)
  {
    LiveHasMeta(v);
    CutMoves(v, Retain(ResetFile(v, m), m), m, v.meta[m].current);
  }

  // ------------------------------------------------------------------ every step

  lemma QuietMoves<M>(v: Volume<M>, op: Op<M>)
    requires WellFormed(v) && Safe(v, op)
    requires op.SetEvictable? || op.Close? || op.Access? || op.FinishWrite? || op.MakeDirectory?
    ensures Moves(v, Apply(v, op).after, {}, 0, 0)
  {
    hide WellFormed;
    var w := Apply(v, op).after;
    LiveHasMeta(v);
    assert w.files == v.files && w.free == v.free;
    assert forall n :: n in v.meta ==> n in w.meta && w.meta[n].future == v.meta[n].future;
    NothingMoves(v, w);
  }

  // Over the integers, every step loses exactly `Lost` and returns exactly `Returned`, both read off
  // the state before it; and free space never has to go below zero.
  lemma StepMoves<M>(v: Volume<M>, op: Op<M>)
    requires WellFormed(v) && Indexed(v) && Safe(v, op)
    ensures Moves(v, Apply(v, op).after, Destroyed(v, op), Lost(v, op), Returned(v, op))
    ensures v.free + Returned(v, op) >= 0
  {
    hide Indexed, Moves, HasRoom, Unwritten, SumCurrent, SumFuture, WellFormed;
    AcceptedIff(v, op);
    SumNothing(v.meta);
    if !Accepted(v, op) {
      RefusedMoves(v, op);
    } else {
      AcceptedMoves(v, op);
    }
  }

  lemma RefusedMoves<M>(v: Volume<M>, op: Op<M>)
    requires WellFormed(v) && Indexed(v) && Safe(v, op) && !Accepted(v, op)
    ensures Moves(v, Apply(v, op).after, Destroyed(v, op), Lost(v, op), Returned(v, op))
    ensures Returned(v, op) == 0
  {
    hide Indexed, Moves, HasRoom, Apply;
    AcceptedIff(v, op);
    RefusedOperationChangesNothing(v, op);
    assert Cut(v, op) == {};
    SumNothing(v.meta);
    Unchanged(v);
  }

  lemma AcceptedMoves<M>(v: Volume<M>, op: Op<M>)
    requires WellFormed(v) && Indexed(v) && Safe(v, op) && Accepted(v, op)
    ensures Moves(v, Apply(v, op).after, Destroyed(v, op), Lost(v, op), Returned(v, op))
    ensures v.free + Returned(v, op) >= 0
  {
    hide Indexed, Moves, HasRoom, SumCurrent, SumFuture, WellFormed, RoomVictims, Objects, Inside, SplitPath,
         CreateFile, DeleteFile, MoveFile, DeleteDirectory, TruncateFile, OpenFile, StartWrite;
    AcceptedIff(v, op);
    SumNothing(v.meta);
    ReservedIsNat(v.meta, Destroyed(v, op));
    match op
    case Create(path, bytes, m) => RoomMoves(v, bytes); CreateMoves(v, path, bytes, m);
    case Delete(key) => DeleteMoves(v, key);
    case Move(src, dst) => MoveStepMoves(v, src, dst);
    case RemoveDirectory(dir) => DirectoryMoves(v, dir);
    case Truncate(key, bytes) => TruncateMoves(v, key, bytes);
    case Open(path, mode, m) => OpenStepMoves(v, path, mode, m);
    case BeginWrite(m, id, pos, bytes) =>
      RoomMoves(v, AddedBytes(pos, bytes, v.meta[m].future)); WriteMoves(v, m, id, pos, bytes);
    case _ => QuietMoves(v, op);
  }

  lemma OpenStepMoves<M>(v: Volume<M>, path: string, mode: Mode, m: M)
    requires WellFormed(v) && Indexed(v) && NewIfMissing(v, path, m)
    ensures var op := Op.Open(path, mode, m);
            && Moves(v, OpenFile(v, path, mode, m).after, {}, Unwritten(v, Cut(v, op)), GivenByCut(v, op))
            && GivenByCut(v, op) >= 0
  {
    hide Indexed, Moves, CreateFile;
    SumNothing(v.meta);
    if mode.Write? && SplitPath(path) in v.files {
      ResetMoves(v, v.files[SplitPath(path)]);
    } else {
      OpenMoves(v, path, mode, m);
    }
  }

  // Each destroyed object is one that was stored and is stored no more, and conversely.
  lemma DestroyedAreGone<M>(v: Volume<M>, op: Op<M>)
    requires WellFormed(v) && Indexed(v) && Safe(v, op)
    ensures Destroyed(v, op) == Live(v) - Live(Apply(v, op).after)
    ensures Cut(v, op) <= Live(v)
  {
    hide Apply, Destroyed, Indexed, HasRoom, Lost, Returned;
    StepMoves(v, op);
  }

  // ------------------------------------------------------------------ exact over the integers

  // A step keeps the ledger over the integers exactly when what it returns still fits free space.
  lemma StepIsExactIff<M>(v: Volume<M>, op: Op<M>)
    requires WellFormed(v) && Indexed(v) && Safe(v, op)
    ensures var w := Apply(v, op).after;
            w.free + Reserved(w) + Lost(v, op) == v.free + Reserved(v) <==> v.free + Returned(v, op) < TWO64
  {
    hide Apply, Indexed, WellFormed, Safe, Returned, Lost, Reserved, Destroyed;
    StepMoves(v, op);
  }

  // Free space, reservations and losses so far add up to the size in every state of the run.
  ghost predicate ExactThroughout<M>(v: Volume<M>, lost: int, ops: seq<Op<M>>)
    requires WellFormed(v) && Permitted(v, ops)
    decreases |ops|
  {
    && v.free + Reserved(v) + lost == v.size
    && (ops == [] || ExactThroughout(Apply(v, ops[0]).after, lost + Lost(v, ops[0]), ops[1..]))
  }

  ghost predicate ReturnsFit<M>(v: Volume<M>, ops: seq<Op<M>>)
    requires WellFormed(v) && Permitted(v, ops)
    decreases |ops|
  {
    ops == [] || (v.free + Returned(v, ops[0]) < TWO64 && ReturnsFit(Apply(v, ops[0]).after, ops[1..]))
  }

  lemma {:induction false} RunIsExactIff<M>(v: Volume<M>, lost: int, ops: seq<Op<M>>)
    requires WellFormed(v) && Indexed(v) && Permitted(v, ops) && v.free + Reserved(v) + lost == v.size
    ensures ExactThroughout(v, lost, ops) <==> ReturnsFit(v, ops)
    decreases |ops|
  {
    hide Apply, Indexed, WellFormed, Safe, Breaking, Returned, Lost, Reserved;
    if ops != [] {
      var w := Apply(v, ops[0]).after;
      StepIsExactIff(v, ops[0]);
      StepKeepsIndexUnlessBreaking(v, ops[0]);
      if v.free + Returned(v, ops[0]) < TWO64 {
        RunIsExactIff(w, lost + Lost(v, ops[0]), ops[1..]);
      }
    }
  }

  // The ledger is exact over the integers throughout a run if and only if no step returns more than
  // free space can still count.
  lemma LedgerIsExactIff<M>(scheme: Scheme, size: u64, ops: seq<Op<M>>)
    requires Permitted(Mounted<M>(scheme, size), ops)
    ensures ExactThroughout(Mounted<M>(scheme, size), 0, ops) <==> ReturnsFit(Mounted<M>(scheme, size), ops)
  {
    hide Permitted, ExactThroughout, ReturnsFit;
    MountedIsIndexed<M>(scheme, size);
    NothingReserved<M>(scheme, size);
    RunIsExactIff(Mounted<M>(scheme, size), 0, ops);
  }

  // ------------------------------------------------------------------ exact modulo 2^64

  ghost function TotalLost<M>(v: Volume<M>, ops: seq<Op<M>>): int
    requires WellFormed(v) && Permitted(v, ops)
    decreases |ops|
  {
    if ops == [] then 0 else Lost(v, ops[0]) + TotalLost(Apply(v, ops[0]).after, ops[1..])
  }

  // What leaves the reservations goes to free space, except for `lost`; modulo 2^64.
  ghost predicate Conserves<M>(v: Volume<M>, w: Volume<M>, lost: int) {
    w.free == Wrap64(v.free + Reserved(v) - Reserved(w) - lost)
  }

  lemma EmptyRunConserves<M>(v: Volume<M>)
    ensures Conserves(v, v, 0)
  {
  }

  lemma StepConserves<M>(v: Volume<M>, op: Op<M>)
    requires WellFormed(v) && Indexed(v) && Safe(v, op)
    ensures Conserves(v, Apply(v, op).after, Lost(v, op))
  {
    hide Apply, Indexed, WellFormed, Safe, Returned, Lost, Reserved, Destroyed;
    StepMoves(v, op);
  }

  lemma ChainConserves<M>(v: Volume<M>, w: Volume<M>, x: Volume<M>, first: int, second: int)
    requires Conserves(v, w, first) && Conserves(w, x, second)
    ensures Conserves(v, x, first + second)
  {
    WrapAdd(v.free + Reserved(v) - Reserved(w) - first, Reserved(w) - Reserved(x) - second);
  }

  lemma {:induction false} RunConserves<M>(v: Volume<M>, ops: seq<Op<M>>)
    requires WellFormed(v) && Indexed(v) && Permitted(v, ops)
    ensures Conserves(v, Run(v, ops), TotalLost(v, ops))
    decreases |ops|
  {
    hide Apply, Lost, Indexed, WellFormed, Breaking, Conserves, Safe, SameVolume;
    EmptyRunConserves(v);
    if ops != [] {
      var w := Apply(v, ops[0]).after;
      StepKeepsIndexUnlessBreaking(v, ops[0]);
      StepConserves(v, ops[0]);
      RunConserves(w, ops[1..]);
      ChainConserves(v, w, Run(v, ops), Lost(v, ops[0]), TotalLost(w, ops[1..]));
    }
  }

  // With no discipline assumed: free space, reservations and losses add up to the size of the
  // partition, modulo the 64 bits in which free space is kept.
  lemma LedgerIsExact<M>(scheme: Scheme, size: u64, ops: seq<Op<M>>)
    requires Permitted(Mounted<M>(scheme, size), ops)
    ensures var v := Mounted(scheme, size);
            var w := Run(v, ops);
            Wrap64(w.free + Reserved(w) + TotalLost(v, ops)) == size
  {
    hide *;
    MountedIsIndexed<M>(scheme, size);
    RunConserves(Mounted(scheme, size), ops);
    LedgerFromMount(scheme, size, Run(Mounted(scheme, size), ops), TotalLost(Mounted(scheme, size), ops));
  }

  lemma LedgerFromMount<M>(scheme: Scheme, size: u64, w: Volume<M>, lost: int)
    requires Conserves(Mounted(scheme, size), w, lost)
    ensures Wrap64(w.free + Reserved(w) + lost) == size
  {
    NothingReserved<M>(scheme, size);
    WrapAdd(size - Reserved(w) - lost, Reserved(w) + lost);
  }

  lemma NothingReserved<M>(scheme: Scheme, size: u64)
    ensures Reserved(Mounted<M>(scheme, size)) == 0
  {
    var v := Mounted<M>(scheme, size);
    assert Live(v) == {};
    SumNothing(v.meta);
  }
}
