// A partition is a plain map from directory and name to size, with a set of directories; a caching
// partition loses the files it evicts first.
module PlainMap {
  import opened Words
  import opened Sums
  import opened Volumes
  import opened Index
  import opened Eviction
  import opened Ledger

  datatype Plain = Plain(dirs: set<string>, sizes: map<Key, u64>)

  ghost function SizesOf<M>(files: map<Key, M>, meta: map<M, FileRec>): map<Key, u64> {
    map k | k in files && files[k] in meta :: meta[files[k]].current
  }

  ghost function View<M>(v: Volume<M>): Plain { Plain(v.dirs, SizesOf(v.files, v.meta)) }

  // The files an operation evicts to make room.
  ghost function Evicted<M>(v: Volume<M>, op: Op<M>): set<M>
    requires WellFormed(v) && Safe(v, op)
  {
    match op
    case Create(_, bytes, _) => Objects(v, RoomVictims(v, bytes))
    case BeginWrite(m, _, pos, bytes) => Objects(v, RoomVictims(v, AddedBytes(pos, bytes, v.meta[m].future)))
    case _ => {}
  }

  // The map without some of the files.
  ghost function ViewWithout<M>(v: Volume<M>, gone: set<M>): Plain {
    Plain(v.dirs, SizesOf(map k | k in v.files && v.files[k] !in gone :: v.files[k], v.meta))
  }

  lemma ViewWithoutNothing<M>(v: Volume<M>)
    ensures ViewWithout(v, {}) == View(v)
  {
    assert (map k | k in v.files && v.files[k] !in {} :: v.files[k]) == v.files;
  }

  // What each operation does to the map when it is not refused.
  ghost function Update(p: Plain, op: Op): Plain {
    match op
    case Create(path, bytes, _) =>
      var key := SplitPath(path);
      Plain(p.dirs + {key.dir}, p.sizes[key := bytes])
    case Delete(key) => p.(sizes := p.sizes - {key})
    case Move(src, dst) =>
      if src == dst || src !in p.sizes then p
      else Plain(p.dirs + {dst.dir}, (p.sizes - {src})[dst := p.sizes[src]])
    case MakeDirectory(dir) => p.(dirs := p.dirs + {dir})
    case RemoveDirectory(dir) => Plain(p.dirs - {dir}, map k | k in p.sizes && k.dir != dir :: p.sizes[k])
    case Truncate(key, bytes) =>
      if key !in p.sizes then p
      else p.(sizes := p.sizes[key := if bytes < p.sizes[key] then p.sizes[key] - bytes else 0])
    case Open(path, mode, _) =>
      var key := SplitPath(path);
      if key !in p.sizes then Plain(p.dirs + {key.dir}, p.sizes[key := 0])
      else if mode.Write? then p.(sizes := p.sizes[key := 0])
      else p
    case _ => p
  }

  // The bytes an operation that is not refused gives back; negative if it takes some.
  ghost function Freed(p: Plain, op: Op): int {
    match op
    case Create(_, bytes, _) => 0 - bytes as int
    case Delete(key) => if key in p.sizes then p.sizes[key] else 0
    case Move(src, dst) => if src in p.sizes && src != dst && dst in p.sizes then p.sizes[dst] else 0
    case RemoveDirectory(dir) => Sum(map k | k in p.sizes && k.dir == dir :: p.sizes[k])
    case Truncate(key, bytes) => if key in p.sizes then Min(bytes, p.sizes[key]) else 0
    case Open(path, mode, _) =>
      if mode.Write? && SplitPath(path) in p.sizes then p.sizes[SplitPath(path)] else 0
    case _ => 0
  }

  // ------------------------------------------------------------------ the map

  ghost predicate Known<M>(files: map<Key, M>, meta: map<M, FileRec>) {
    forall k :: k in files ==> files[k] in meta
  }

  lemma AllKnown<M>(v: Volume<M>)
    requires WellFormed(v)
    ensures Known(v.files, v.meta)
  {
  }

  lemma SizesPatched<M>(files: map<Key, M>, meta: map<M, FileRec>, after: map<M, FileRec>, key: Key)
    requires Known(files, meta) && Known(files, after) && key in files
    requires forall k :: k in files && k != key ==> after[files[k]].current == meta[files[k]].current
    ensures SizesOf(files, after) == SizesOf(files, meta)[key := after[files[key]].current]
  {
  }

  lemma SizesSame<M>(files: map<Key, M>, meta: map<M, FileRec>, after: map<M, FileRec>)
    requires Known(files, meta) && Known(files, after)
    requires forall k :: k in files ==> after[files[k]].current == meta[files[k]].current
    ensures SizesOf(files, after) == SizesOf(files, meta)
  {
  }

  lemma SizesAdded<M>(files: map<Key, M>, meta: map<M, FileRec>, after: map<M, FileRec>, key: Key, m: M)
    requires Known(files, meta) && m in after
    requires forall k :: k in files ==> files[k] in after && after[files[k]].current == meta[files[k]].current
    ensures SizesOf(files[key := m], after) == SizesOf(files, meta)[key := after[m].current]
  {
  }

  lemma SizesRemoved<M>(files: map<Key, M>, meta: map<M, FileRec>, keys: set<Key>)
    ensures SizesOf(files - keys, meta) == SizesOf(files, meta) - keys
  {
  }

  // Making room only removes files, and gives back their sizes.
  lemma RoomRefines<M>(v: Volume<M>, needed: u64)
    requires WellFormed(v) && Indexed(v) && MakeRoom(v, needed).outcome.Ok?
    ensures var w, gone := MakeRoom(v, needed).after, Objects(v, RoomVictims(v, needed));
            && WellFormed(w) && w.meta == v.meta && w.scheme == v.scheme
            && (forall k :: k in w.files ==> k in v.files)
            && View(w) == ViewWithout(v, gone)
            && w.free == Wrap64(v.free + SumCurrent(v.meta, gone))
  {
    hide MakeRoom, WellFormed, Indexed, RoomVictims, SumCurrent, Sizes, Wrap64, SizesOf, Objects;
    var victims, w := RoomVictims(v, needed), MakeRoom(v, needed).after;
    RoomLive(v, needed);
    RoomShape(v, needed);
    if v.scheme.NoCaching? {
      NoVictims(v, needed);
      WithoutNothing(v);
      SumNothing(v.meta);
      ViewWithoutNothing(v);
    } else {
      EvictedObjects(v, victims);
      VictimFiles(v, victims);
    }
  }

  lemma NoVictims<M>(v: Volume<M>, needed: u64)
    requires WellFormed(v) && (v.scheme.NoCaching? || needed == 0)
    ensures RoomVictims(v, needed) == [] && Objects(v, []) == {}
  {
  }

  lemma VictimFiles<M>(v: Volume<M>, victims: seq<nat>)
    requires WellFormed(v) && Indexed(v) && !v.scheme.NoCaching? && AllVictims(v, victims)
    ensures Without(v, victims).files == map k | k in v.files && v.files[k] !in Objects(v, victims) :: v.files[k]
  {
    IndexedIsBijection(v);
    forall k | k in v.files
      ensures v.meta[v.files[k]].rank in victims <==> v.files[k] in Objects(v, victims)
    {
      assert Ranked(v, v.files[k]);
    }
  }

  lemma CreateRefines<M>(v: Volume<M>, path: string, size: u64, m: M)
    requires WellFormed(v) && Indexed(v) && m !in v.meta && CreateFile(v, path, size, m).outcome.Ok?
    ensures var w, gone := CreateFile(v, path, size, m).after, Objects(v, RoomVictims(v, size));
            && View(w) == Update(ViewWithout(v, gone), Op.Create(path, size, m))
            && w.free == Wrap64(v.free + SumCurrent(v.meta, gone) - size)
  {
    hide MakeRoom, Install, Indexed, WellFormed, RoomVictims, SumCurrent, SplitPath, View, ViewWithout, Objects;
    var key, room := SplitPath(path), MakeRoom(v, size).after;
    RoomRefines(v, size);
    InstallRefines(room, key, size, m);
    WrapAdd(v.free + SumCurrent(v.meta, Objects(v, RoomVictims(v, size))), 0 - size as int);
  }

  lemma WriteRefines<M>(v: Volume<M>, m: M, id: int, pos: u64, n: u64)
    requires WellFormed(v) && Indexed(v) && m in v.meta && StartWrite(v, m, id, pos, n).outcome.Ok?
    ensures View(StartWrite(v, m, id, pos, n).after)
            == ViewWithout(v, Objects(v, RoomVictims(v, AddedBytes(pos, n, v.meta[m].future))))
  {
    hide MakeRoom, Indexed, WellFormed, RoomVictims, SumCurrent, ViewWithout, AddedBytes, Wrap64, SizesOf, Objects;
    var added := AddedBytes(pos, n, v.meta[m].future);
    RoomRefines(v, added);
    var room, w := MakeRoom(v, added).after, StartWrite(v, m, id, pos, n).after;
    AllKnown(room);
    AllKnown(w);
    SizesSame(room.files, room.meta, w.meta);
  }

  lemma InstallRefines<M>(v: Volume<M>, key: Key, size: u64, m: M)
    requires WellFormed(v) && m !in v.meta && key !in v.files
    ensures var w := Install(v, key, size, m);
            View(w) == Plain(View(v).dirs + {key.dir}, View(v).sizes[key := size]) && w.free == Wrap64(v.free - size)
  {
    var w := Install(v, key, size, m);
    InstallReserves(v, key, size, m);
    InstallShape(v, key, size, m);
    AllKnown(v);
    hide Install, WellFormed, Reserved;
    SizesAdded(v.files, v.meta, w.meta, key, m);
  }

  lemma InstallShape<M>(v: Volume<M>, key: Key, size: u64, m: M)
    requires WellFormed(v) && m !in v.meta
    ensures var w := Install(v, key, size, m);
            w.files == v.files[key := m] && w.dirs == v.dirs + {key.dir}
  {
    EnterOnlyRanks(v.(meta := v.meta[m := FileRec(key.dir, key.name, size, size, map[], 0, 0, true)]), m);
  }

  lemma MoveRefines<M>(v: Volume<M>, src: Key, dst: Key)
    requires WellFormed(v) && MoveFile(v, src, dst).outcome.Ok?
    ensures View(MoveFile(v, src, dst).after) == Update(View(v), Op<M>.Move(src, dst))
  {
    hide Wrap64, Enter, Relocate;
    var w := MoveFile(v, src, dst).after;
    AllKnown(v);
    if src != dst {
      if dst in v.files {
        StoredApart(v, src, dst);
      }
      MoveShape(v, src, dst);
      MoveDirs(v, src, dst);
      hide MoveFile, WellFormed;
      SizesRemoved(v.files, v.meta, {src});
      SizesAdded(v.files - {src}, v.meta, w.meta, dst, v.files[src]);
    }
  }

  lemma MoveDirs<M>(v: Volume<M>, src: Key, dst: Key)
    requires WellFormed(v) && MoveHappens(v, src, dst)
    ensures MoveFile(v, src, dst).after.dirs == v.dirs + {dst.dir}
  {
    EnterOnlyRanks(Relocate(v, src, dst), v.files[src]);
  }

  lemma DirectoryRefines<M>(v: Volume<M>, dir: string)
    requires WellFormed(v) && DeleteDirectory(v, dir).outcome.Ok?
    ensures View(DeleteDirectory(v, dir).after) == Update(View(v), Op<M>.RemoveDirectory(dir))
  {
    var w := DeleteDirectory(v, dir).after;
    SizesRemoved(v.files, v.meta, Within(v, dir));
    assert w.files == v.files - Within(v, dir) && w.meta == v.meta && w.dirs == v.dirs - {dir};
    hide WellFormed, DeleteDirectory;
    WithinIsDirectory(v, dir);
  }

  lemma WithinIsDirectory<M>(v: Volume<M>, dir: string)
    ensures var p := SizesOf(v.files, v.meta);
            p - Within(v, dir) == map k | k in p && k.dir != dir :: p[k]
  {
  }

  // Every operation that is not refused is the corresponding update of the map, once the files it
  // evicts are gone; only the end of a write changes a size otherwise.
  lemma OperationRefinesUpdate<M>(v: Volume<M>, op: Op<M>)
    requires WellFormed(v) && Indexed(v) && Safe(v, op) && Apply(v, op).outcome.Ok? && !op.FinishWrite?
    ensures View(Apply(v, op).after) == Update(ViewWithout(v, Evicted(v, op)), op)
  {
    AllKnown(v);
    ViewWithoutNothing(v);
    hide View, ViewWithout, Update, Objects, RoomVictims, Indexed, WellFormed;
    hide MoveFile, CreateFile, OpenFile, DeleteDirectory, DeleteFile, TruncateFile, StartWrite;
    match op
    case Create(path, bytes, m) => CreateRefines(v, path, bytes, m);
    case Delete(key) => DeleteRefines(v, key);
    case Move(src, dst) => MoveRefines(v, src, dst);
    case MakeDirectory(dir) => QuietRefines(v, op);
    case RemoveDirectory(dir) => DirectoryRefines(v, dir);
    case Truncate(key, bytes) => TruncateRefines(v, key, bytes);
    case SetEvictable(_, _) => QuietRefines(v, op);
    case Open(path, mode, m) => OpenRefines(v, path, mode, m);
    case Close(_) => QuietRefines(v, op);
    case Access(_) => QuietRefines(v, op);
    case BeginWrite(m, id, pos, bytes) => WriteRefines(v, m, id, pos, bytes); WriteUpdatesNothing(v, op);
  }

  lemma WriteUpdatesNothing<M>(v: Volume<M>, op: Op<M>)
    requires op.BeginWrite?
    ensures forall p :: Update(p, op) == p
  {
  }

  lemma QuietRefines<M>(v: Volume<M>, op: Op<M>)
    requires WellFormed(v) && Safe(v, op) && Apply(v, op).outcome.Ok?
    requires op.MakeDirectory? || op.SetEvictable? || op.Close? || op.Access?
    ensures View(Apply(v, op).after) == Update(View(v), op)
  {
    hide Wrap64, AddedBytes, SizesOf, WellFormed;
    AllKnown(v);
    AllKnown(Apply(v, op).after);
    SizesSame(v.files, v.meta, Apply(v, op).after.meta);
  }

  lemma DeleteRefines<M>(v: Volume<M>, key: Key)
    requires WellFormed(v) && DeleteFile(v, key).outcome.Ok?
    ensures View(DeleteFile(v, key).after) == Update(View(v), Op<M>.Delete(key))
  {
    SizesRemoved(v.files, v.meta, {key});
  }

  lemma TruncateRefines<M>(v: Volume<M>, key: Key, n: u64)
    requires WellFormed(v) && TruncateFile(v, key, n).outcome.Ok?
    ensures View(TruncateFile(v, key, n).after) == Update(View(v), Op<M>.Truncate(key, n))
  {
    hide Wrap64;
    AllKnown(v);
    OthersElsewhere(v, key);
    SizesPatched(v.files, v.meta, TruncateFile(v, key, n).after.meta, key);
  }

  lemma OthersElsewhere<M>(v: Volume<M>, key: Key)
    requires WellFormed(v) && key in v.files
    ensures forall k :: k in v.files && k != key ==> v.files[k] != v.files[key]
  {
    forall k | k in v.files && k != key
      ensures v.files[k] != v.files[key]
    {
      StoredApart(v, k, key);
    }
  }

  lemma OpenRefines<M>(v: Volume<M>, path: string, mode: Mode, m: M)
    requires WellFormed(v) && Indexed(v) && NewIfMissing(v, path, m) && OpenFile(v, path, mode, m).outcome.Ok?
    ensures var w := OpenFile(v, path, mode, m).after;
            && View(w) == Update(View(v), Op.Open(path, mode, m))
            && w.free == Wrap64(v.free + Freed(View(v), Op.Open(path, mode, m)))
  {
    hide CreateFile, Wrap64, WellFormed, SplitPath, View;
    if SplitPath(path) in v.files {
      OpenOldRefines(v, path, mode, m);
    } else {
      SameKeys(v, SplitPath(path));
      OpenNewRefines(v, path, mode, m);
    }
  }

  lemma SameKeys<M>(v: Volume<M>, key: Key)
    requires WellFormed(v)
    ensures key in View(v).sizes <==> key in v.files
  {
  }

  lemma OpenOldRefines<M>(v: Volume<M>, path: string, mode: Mode, m: M)
    requires WellFormed(v) && NewIfMissing(v, path, m) && SplitPath(path) in v.files
    ensures var w := OpenFile(v, path, mode, m).after;
            && View(w) == Update(View(v), Op.Open(path, mode, m))
            && w.free == Wrap64(v.free + Freed(View(v), Op.Open(path, mode, m)))
  {
    var key, w := SplitPath(path), OpenFile(v, path, mode, m).after;
    var f := v.meta[v.files[key]];
    assert w.files == v.files && w.dirs == v.dirs;
    assert w.meta[v.files[key]].current == if mode.Write? then 0 else f.current;
    assert w.free == if mode.Write? then Wrap64(v.free + f.current) else v.free;
    assert forall n :: n in v.meta && n != v.files[key] ==> n in w.meta && w.meta[n].current == v.meta[n].current;
    hide OpenFile, CreateFile, SplitPath;
    PatchRefines(v, w, key);
  }

  lemma PatchRefines<M>(v: Volume<M>, w: Volume<M>, key: Key)
    requires WellFormed(v) && key in v.files && w.files == v.files && w.dirs == v.dirs
    requires v.files[key] in w.meta
    requires forall n :: n in v.meta && n != v.files[key] ==> n in w.meta && w.meta[n].current == v.meta[n].current
    ensures View(w) == View(v).(sizes := View(v).sizes[key := w.meta[v.files[key]].current])
    ensures View(v).sizes[key := v.meta[v.files[key]].current] == View(v).sizes
    ensures key in View(v).sizes && View(v).sizes[key] == v.meta[v.files[key]].current
  {
    AllKnown(v);
    OthersElsewhere(v, key);
    SizesPatched(v.files, v.meta, w.meta, key);
  }

  lemma OpenNewRefines<M>(v: Volume<M>, path: string, mode: Mode, m: M)
    requires WellFormed(v) && Indexed(v) && m !in v.meta && SplitPath(path) !in v.files
    requires OpenFile(v, path, mode, m).outcome.Ok?
    ensures var w := OpenFile(v, path, mode, m).after;
            && View(w) == Plain(View(v).dirs + {SplitPath(path).dir}, View(v).sizes[SplitPath(path) := 0])
            && w.free == v.free
  {
    var w, x := OpenFile(v, path, mode, m).after, CreateFile(v, path, 0, m).after;
    assert CreateFile(v, path, 0, m).outcome.Ok?;
    CreateRefines(v, path, 0, m);
    NoVictims(v, 0);
    SumNothing(v.meta);
    ViewWithoutNothing(v);
    AllKnown(x);
    RetainRefines(x, m);
    hide CreateFile, View, WellFormed, SplitPath, Retain;
    assert w == Retain(x, m);
  }

  lemma RetainRefines<M>(v: Volume<M>, m: M)
    requires Known(v.files, v.meta) && m in v.meta
    ensures View(Retain(v, m)) == View(v) && Retain(v, m).free == v.free
  {
    SizesSame(v.files, v.meta, Retain(v, m).meta);
  }

  // The end of a pending write makes the file as long as its target.
  lemma FinishSetsSize<M>(v: Volume<M>, key: Key, id: int)
    requires WellFormed(v) && key in v.files
    ensures var f := v.meta[v.files[key]];
            View(EndWrite(v, v.files[key], id))
            == View(v).(sizes := View(v).sizes[key := if id in f.ongoing then f.ongoing[id] else f.current])
  {
    AllKnown(v);
    OthersElsewhere(v, key);
    SizesPatched(v.files, v.meta, EndWrite(v, v.files[key], id).meta, key);
  }

  // ------------------------------------------------------------------ the free space

  // A sum over objects is a sum over the keys they are stored under.
  lemma {:induction false} SumByKey<M>(v: Volume<M>, keys: set<Key>)
    requires WellFormed(v) && forall k :: k in keys ==> k in v.files
    ensures SumCurrent(v.meta, set k | k in keys :: v.files[k]) == Sum(SizesAt(v, keys))
    decreases |keys|
  {
    var objects := set k | k in keys :: v.files[k];
    if keys == {} {
      assert SizesAt(v, keys) == map[];
      assert objects == {};
      SumNothing(v.meta);
    } else {
      hide WellFormed, Sum, SumCurrent, SizesAt;
      var k :| k in keys;
      SumByKey(v, keys - {k});
      OneMoreObject(v, keys, k);
      OneMoreSize(v, keys, k);
    }
  }

  lemma OneMoreObject<M>(v: Volume<M>, keys: set<Key>, k: Key)
    requires WellFormed(v) && k in keys && forall j :: j in keys ==> j in v.files
    ensures SumCurrent(v.meta, set j | j in keys :: v.files[j])
            == SumCurrent(v.meta, set j | j in keys - {k} :: v.files[j]) + v.meta[v.files[k]].current
  {
    hide SumCurrent;
    var rest := set j | j in keys - {k} :: v.files[j];
    NotAmong(v, k, keys - {k});
    SumOneMore(v.meta, rest, v.files[k]);
    assert (set j | j in keys :: v.files[j]) == {v.files[k]} + rest;
  }

  lemma OneMoreSize<M>(v: Volume<M>, keys: set<Key>, k: Key)
    requires WellFormed(v) && k in keys && forall j :: j in keys ==> j in v.files
    ensures Sum(SizesAt(v, keys)) == Sum(SizesAt(v, keys - {k})) + v.meta[v.files[k]].current
  {
    hide Sum;
    AllKnown(v);
    SumRemove(SizesAt(v, keys), k);
    assert SizesAt(v, keys) - {k} == SizesAt(v, keys - {k});
  }

  ghost function SizesAt<M>(v: Volume<M>, keys: set<Key>): map<Key, int> {
    map k | k in View(v).sizes && k in keys :: View(v).sizes[k]
  }

  lemma NotAmong<M>(v: Volume<M>, k: Key, rest: set<Key>)
    requires WellFormed(v) && k in v.files && k !in rest && forall j :: j in rest ==> j in v.files
    ensures v.files[k] !in set j | j in rest :: v.files[j]
  {
    OthersElsewhere(v, k);
  }

  // An operation gives back exactly what the map says, besides the sizes of what it evicts: an
  // overwriting move the size of the old destination, a removed directory the sizes of its files.
  lemma OperationFreesExactly<M>(v: Volume<M>, op: Op<M>)
    requires WellFormed(v) && Indexed(v) && Safe(v, op) && Apply(v, op).outcome.Ok? && !op.BeginWrite?
    ensures Apply(v, op).after.free == Wrap64(v.free + SumCurrent(v.meta, Evicted(v, op)) + Freed(View(v), op))
  {
    SumNothing(v.meta);
    hide MoveFile, CreateFile, DeleteDirectory, OpenFile, View, ViewWithout, Objects, RoomVictims, SumCurrent, Indexed;
    match op
    case Create(path, bytes, m) => CreateRefines(v, path, bytes, m);
    case Delete(_) => QuietFrees(v, op);
    case Move(src, dst) => MoveFrees(v, src, dst);
    case MakeDirectory(_) => QuietFrees(v, op);
    case RemoveDirectory(dir) => DirectoryFrees(v, dir);
    case Truncate(_, _) => QuietFrees(v, op);
    case SetEvictable(_, _) => QuietFrees(v, op);
    case Open(path, mode, m) => OpenRefines(v, path, mode, m);
    case Close(_) => QuietFrees(v, op);
    case Access(_) => QuietFrees(v, op);
    case FinishWrite(_, _) => QuietFrees(v, op);
  }

  lemma QuietFrees<M>(v: Volume<M>, op: Op<M>)
    requires WellFormed(v) && Safe(v, op) && Apply(v, op).outcome.Ok?
    requires !op.Create? && !op.Move? && !op.RemoveDirectory? && !op.Open? && !op.BeginWrite?
    ensures Apply(v, op).after.free == Wrap64(v.free + Freed(View(v), op))
  {
    AllKnown(v);
  }

  lemma MoveFrees<M>(v: Volume<M>, src: Key, dst: Key)
    requires WellFormed(v) && MoveFile(v, src, dst).outcome.Ok?
    ensures MoveFile(v, src, dst).after.free == Wrap64(v.free + Freed(View(v), Op<M>.Move(src, dst)))
  {
    AllKnown(v);
    if src != dst {
      if dst in v.files {
        StoredApart(v, src, dst);
      }
      MoveShape(v, src, dst);
    }
  }

  lemma DirectoryFrees<M>(v: Volume<M>, dir: string)
    requires WellFormed(v) && DeleteDirectory(v, dir).outcome.Ok?
    ensures DeleteDirectory(v, dir).after.free == Wrap64(v.free + Freed(View(v), Op<M>.RemoveDirectory(dir)))
  {
    hide SumCurrent, Sum, WellFormed, DeleteDirectory, SizesOf, Inside, SizesAt, View;
    SumByKey(v, Within(v, dir));
    InsideIsWithin(v, dir);
    DirectoryGivesBack(v, dir);
    WithinSizes(v, dir);
  }

  lemma DirectoryGivesBack<M>(v: Volume<M>, dir: string)
    requires WellFormed(v) && DeleteDirectory(v, dir).outcome.Ok?
    ensures DeleteDirectory(v, dir).after.free == Wrap64(v.free + SumCurrent(v.meta, Inside(v, dir)))
  {
  }

  lemma InsideIsWithin<M>(v: Volume<M>, dir: string)
    ensures Inside(v, dir) == set k | k in Within(v, dir) :: v.files[k]
  {
  }

  lemma WithinSizes<M>(v: Volume<M>, dir: string)
    ensures var p := View(v).sizes;
            SizesAt(v, Within(v, dir)) == map k | k in p && k.dir == dir :: p[k]
  {
  }
}
