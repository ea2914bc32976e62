// The state of one partition as a value, and every operation on it as a function.
//
// `M` stands for the identity of a metadata object: `files` (content_) and
// `priority` (priority_list_) both hold such identities, and `meta` gives the
// fields of each object. An object that has been dropped from `files` keeps its
// entry in `meta`; an entry of `priority` that points to it dangles.
module Volumes {
  import opened Words
  import opened Sums

  datatype Scheme = NoCaching | FIFO | LRU

  datatype Mode = Read | Write | Append | ReadWrite

  datatype Outcome =
    | Ok
    | FileAlreadyExists
    | FileNotFound
    | FileIsOpen
    | NotEnoughSpace
    | InvalidPath
    | InvalidMove
    | InvalidMode
    | InvalidTruncate
    | InvalidMount
    | InvalidSeek
    | TooManyOpenFiles
    | DirectoryExists
    | DirectoryMissing
    | NullPointer

  datatype Key = Key(dir: string, name: string)

  // The fields of one FileMetadata object.
  datatype FileRec = FileRec(
    dir: string,
    name: string,
    current: u64,
    future: u64,
    ongoing: map<int, u64>,
    refs: u32,
    rank: nat,
    evictable: bool)
  {
    // The place the object believes it is stored at.
    function Place(): Key { Key(dir, name) }

    predicate IsVictim() { refs == 0 && evictable }

    // notify_write_start
    function WriteStarted(id: int, target: u64): FileRec {
      this.(ongoing := ongoing[id := target], future := Max(target, future))
    }

    // notify_write_end
    function WriteEnded(id: int): FileRec {
      if id in ongoing then this.(current := ongoing[id], ongoing := ongoing - {id})
      else this
    }
  }

  datatype Volume<M> = Volume(
    scheme: Scheme,
    size: u64,
    free: u64,
    dirs: set<string>,
    files: map<Key, M>,
    priority: map<nat, M>,
    counter: nat,
    meta: map<M, FileRec>)

  datatype Reply<M> = Reply(outcome: Outcome, after: Volume<M>)

  ghost function Mounted<M>(scheme: Scheme, size: u64): Volume<M> {
    Volume(scheme, size, size, {}, map[], map[], 0, map[])
  }

  ghost function Live<M>(v: Volume<M>): set<M> { v.files.Values }

  ghost function SumCurrent<M>(meta: map<M, FileRec>, objects: set<M>): int {
    Sum(map m | m in meta && m in objects :: meta[m].current)
  }

  ghost function SumFuture<M>(meta: map<M, FileRec>, objects: set<M>): int {
    Sum(map m | m in meta && m in objects :: meta[m].future)
  }

  ghost predicate SameVolume<M>(v: Volume<M>, w: Volume<M>) {
    w.scheme == v.scheme && w.size == v.size
  }

  // A key under which an object is stored.
  ghost function KeyOf<M>(files: map<Key, M>, m: M): Key {
    if exists k :: k in files && files[k] == m then
      var k :| k in files && files[k] == m; k
    else Key("", "")
  }

  // Well-formed memory: every pointer leads to an object, content_ owns each object once,
  // and priorities come from the counter.
  ghost predicate WellFormed<M>(v: Volume<M>) {
    && (forall k :: k in v.files ==>
          v.files[k] in v.meta && k.dir in v.dirs && KeyOf(v.files, v.files[k]) == k)
    && (forall r :: r in v.priority ==> r < v.counter && v.priority[r] in v.meta)
    && (v.scheme.NoCaching? ==> v.priority == map[])
  }

  lemma AddingObjectKeepsWellFormed<M>(v: Volume<M>, m: M, f: FileRec)
    requires WellFormed(v)
    ensures WellFormed(v.(meta := v.meta[m := f]))
  {
  }

  // ------------------------------------------------------------------ paths inside a volume

  function LastSlash(path: string): (i: int)
    ensures -1 <= i < |path|
    ensures i >= 0 ==> path[i] == '/'
    ensures forall j :: i < j < |path| ==> path[j] != '/'
  {
    if path == "" then -1
    else if path[|path| - 1] == '/' then |path| - 1
    else LastSlash(path[..|path| - 1])
  }

  // split_path: everything before the last slash, and everything after it.
  function SplitPath(path: string): Key {
    var i := LastSlash(path);
    if i < 0 then Key("", path)
    else Key(if i == 0 then "/" else path[..i], path[i + 1..])
  }

  // ------------------------------------------------------------------ events

  ghost function CreationEvent<M>(v: Volume<M>, m: M): (w: Volume<M>)
    requires m in v.meta
    ensures SameVolume(v, w) && (WellFormed(v) ==> WellFormed(w))
  {
    if v.scheme.NoCaching? then v
    else v.(meta := v.meta[m := v.meta[m].(rank := v.counter)],
            priority := v.priority[v.counter := m],
            counter := v.counter + 1)
  }

  ghost function AccessEvent<M>(v: Volume<M>, m: M): (w: Volume<M>)
    requires m in v.meta
    ensures SameVolume(v, w) && (WellFormed(v) ==> WellFormed(w))
  {
    if v.scheme.LRU? then
      v.(meta := v.meta[m := v.meta[m].(rank := v.counter)],
         priority := (v.priority - {v.meta[m].rank})[v.counter := m],
         counter := v.counter + 1)
    else v
  }

  // A new or moved object fires a creation event, then an access event.
  ghost function Enter<M>(v: Volume<M>, m: M): (w: Volume<M>)
    requires WellFormed(v) && m in v.meta
    ensures WellFormed(w) && SameVolume(v, w) && w.files == v.files
  {
    AccessEvent(CreationEvent(v, m), m)
  }

  ghost function DeletionEvent<M>(v: Volume<M>, m: M): (w: Volume<M>)
    requires m in v.meta
    ensures SameVolume(v, w) && (WellFormed(v) ==> WellFormed(w))
  {
    if v.scheme.NoCaching? then v
    else v.(priority := v.priority - {v.meta[m].rank})
  }

  // ------------------------------------------------------------------ files

  ghost function DeleteFile<M>(v: Volume<M>, key: Key): (r: Reply<M>)
    requires WellFormed(v)
    ensures WellFormed(r.after) && r.after.meta == v.meta && SameVolume(v, r.after)
  {
    if key !in v.files then Reply(FileNotFound, v)
    else if v.meta[v.files[key]].refs > 0 then Reply(FileIsOpen, v)
    else
      var m := v.files[key];
      var w := DeletionEvent(v, m);
      Reply(Ok, w.(free := Wrap64(w.free + w.meta[m].current), files := w.files - {key}))
  }

  // The keys of an ordered map whose keys lie below `bound`, in ascending order.
  function Ascending<M>(priority: map<nat, M>, bound: nat): (ranks: seq<nat>)
    ensures forall r :: r in ranks <==> r in priority && r < bound
  {
    if bound == 0 then []
    else if bound - 1 in priority then Ascending(priority, bound - 1) + [bound - 1]
    else Ascending(priority, bound - 1)
  }

  lemma {:induction false} AscendingIsSorted<M>(priority: map<nat, M>, bound: nat)
    ensures forall i, j :: 0 <= i < j < |Ascending(priority, bound)| ==>
              Ascending(priority, bound)[i] < Ascending(priority, bound)[j]
  {
    if bound > 0 {
      AscendingIsSorted(priority, bound - 1);
      var below := Ascending(priority, bound - 1);
      assert forall i :: 0 <= i < |below| ==> below[i] in below;
    }
  }

  ghost function Ranks<M>(v: Volume<M>): seq<nat> { Ascending(v.priority, v.counter) }

  // Phase one of create_space: the victims picked by walking `ranks`, and the space they
  // give, starting from `acc`.
  ghost function Select<M>(v: Volume<M>, ranks: seq<nat>, acc: u64, n: u64): (seq<nat>, u64)
    requires WellFormed(v)
    requires forall r :: r in ranks ==> r in v.priority
  {
    if ranks == [] then ([], acc)
    else
      var f := v.meta[v.priority[ranks[0]]];
      if !f.IsVictim() then Select(v, ranks[1..], acc, n)
      else
        var total := Wrap64(acc + f.current);
        if total >= n then ([ranks[0]], total)
        else
          var (rest, sum) := Select(v, ranks[1..], total, n);
          ([ranks[0]] + rest, sum)
  }

  ghost function Victims<M>(v: Volume<M>, n: u64): (seq<nat>, u64)
    requires WellFormed(v)
  {
    Select(v, Ranks(v), 0, n)
  }

  // Phase two of create_space: delete, one by one, the file each victim says it is.
  ghost function DeleteVictims<M>(v: Volume<M>, victims: seq<nat>): (r: Reply<M>)
    requires WellFormed(v)
    ensures WellFormed(r.after) && r.after.meta == v.meta && SameVolume(v, r.after)
    decreases |victims|
  {
    if victims == [] then Reply(Ok, v)
    else if victims[0] !in v.priority then Reply(NullPointer, v)
    else
      var r := DeleteFile(v, v.meta[v.priority[victims[0]]].Place());
      if r.outcome.Ok? then DeleteVictims(r.after, victims[1..]) else r
  }

  ghost function CreateSpace<M>(v: Volume<M>, n: u64): (r: Reply<M>)
    requires WellFormed(v)
    ensures WellFormed(r.after) && r.after.meta == v.meta && SameVolume(v, r.after)
  {
    if v.scheme.NoCaching? || Victims(v, n).1 < n then Reply(NotEnoughSpace, v)
    else DeleteVictims(v, Victims(v, n).0)
  }

  // `content_[dir][name] = make_unique<FileMetadata>(...)`, with the two events its
  // constructor fires.
  ghost function Install<M>(v: Volume<M>, key: Key, size: u64, m: M): (w: Volume<M>)
    requires WellFormed(v) && m !in v.meta
    ensures WellFormed(w) && SameVolume(v, w) && key in w.files && w.files[key] == m
  {
    var w := Enter(v.(meta := v.meta[m := FileRec(key.dir, key.name, size, size, map[], 0, 0, true)]), m);
    w.(dirs := w.dirs + {key.dir}, files := w.files[key := m], free := Wrap64(w.free - size))
  }

  ghost function MakeRoom<M>(v: Volume<M>, needed: u64): (r: Reply<M>)
    requires WellFormed(v)
  {
    if v.free < needed then CreateSpace(v, needed - v.free) else Reply(Ok, v)
  }

  ghost function CreateNewFile<M>(v: Volume<M>, key: Key, size: u64, m: M): (r: Reply<M>)
    requires WellFormed(v) && m !in v.meta
    ensures WellFormed(r.after) && SameVolume(v, r.after)
    ensures r.outcome.Ok? ==> m in r.after.meta
  {
    if key in v.files then Reply(FileAlreadyExists, v)
    else
      var r := MakeRoom(v, size);
      if !r.outcome.Ok? then r else Reply(Ok, Install(r.after, key, size, m))
  }

  // FileSystem::create_file, once the path has been resolved inside the volume.
  ghost function CreateFile<M>(v: Volume<M>, path: string, size: u64, m: M): (r: Reply<M>)
    requires WellFormed(v) && m !in v.meta
    ensures WellFormed(r.after) && SameVolume(v, r.after)
    ensures r.outcome.Ok? ==> m in r.after.meta
  {
    if path in v.dirs then Reply(InvalidPath, v)
    else CreateNewFile(v, SplitPath(path), size, m)
  }

  ghost function MoveFile<M>(v: Volume<M>, src: Key, dst: Key): (r: Reply<M>)
    requires WellFormed(v)
    ensures WellFormed(r.after) && SameVolume(v, r.after)
  {
    if src !in v.files then Reply(FileNotFound, v)
    else if dst in v.files && v.files[src] == v.files[dst] then Reply(Ok, v)
    else if v.meta[v.files[src]].refs > 0 then Reply(FileIsOpen, v)
    else if dst in v.files && v.meta[v.files[dst]].refs != 0 then Reply(FileIsOpen, v)
    else
      var m := v.files[src];
      Reply(Ok, Enter(Relocate(v, src, dst), m))
  }

  // The old destination, if any, is destroyed without a deletion event, and the object keeps
  // the directory it was created in.
  ghost function Relocate<M>(v: Volume<M>, src: Key, dst: Key): (w: Volume<M>)
    requires WellFormed(v) && src in v.files
    ensures WellFormed(w) && SameVolume(v, w) && w.meta.Keys == v.meta.Keys
  {
    var m := v.files[src];
    var free := if dst in v.files then Wrap64(v.free + v.meta[v.files[dst]].current) else v.free;
    var priority := DeletionEvent(v, m).priority;
    v.(free := free,
       priority := priority,
       meta := v.meta[m := v.meta[m].(name := dst.name)],
       dirs := v.dirs + {dst.dir},
       files := (v.files - {src})[dst := m])
  }

  // Two keys never hold the same object.
  lemma StoredApart<M>(v: Volume<M>, j: Key, k: Key)
    requires WellFormed(v) && j in v.files && k in v.files
    ensures v.files[j] == v.files[k] <==> j == k
  {
    assert KeyOf(v.files, v.files[j]) == j && KeyOf(v.files, v.files[k]) == k;
  }

  // The change a move makes when it is neither refused nor a no-op.
  ghost predicate MoveHappens<M>(v: Volume<M>, src: Key, dst: Key)
    requires WellFormed(v)
  {
    && src in v.files && src != dst
    && v.meta[v.files[src]].refs == 0
    && (dst in v.files ==> v.meta[v.files[dst]].refs == 0)
  }

  lemma MoveIsRelocateThenEnter<M>(v: Volume<M>, src: Key, dst: Key)
    requires WellFormed(v) && MoveHappens(v, src, dst)
    ensures MoveFile(v, src, dst) == Reply(Ok, Enter(Relocate(v, src, dst), v.files[src]))
  {
    if dst in v.files {
      StoredApart(v, src, dst);
    }
  }

  lemma EnterIs<M>(v: Volume<M>, m: M)
    requires WellFormed(v) && m in v.meta
    ensures Enter(v, m) == AccessEvent(CreationEvent(v, m), m)
  {
  }

  ghost function TruncateFile<M>(v: Volume<M>, key: Key, n: u64): (r: Reply<M>)
    requires WellFormed(v)
    ensures WellFormed(r.after) && SameVolume(v, r.after)
  {
    if key !in v.files then Reply(NullPointer, v)
    else
      var m := v.files[key];
      var f := v.meta[m];
      if f.refs > 0 then Reply(InvalidTruncate, v)
      else
        var cut := Min(n, f.current);
        Reply(Ok, v.(meta := v.meta[m := f.(current := f.current - cut, future := f.current - cut)],
                     free := Wrap64(v.free + cut)))
  }

  ghost function MakeEvictable<M>(v: Volume<M>, key: Key, evictable: bool): (r: Reply<M>)
    requires WellFormed(v)
    ensures WellFormed(r.after) && SameVolume(v, r.after)
  {
    if key !in v.files then Reply(FileNotFound, v)
    else
      var m := v.files[key];
      Reply(Ok, v.(meta := v.meta[m := v.meta[m].(evictable := evictable)]))
  }

  // ------------------------------------------------------------------ directories

  ghost function CreateDirectory<M>(v: Volume<M>, dir: string): (r: Reply<M>)
    ensures SameVolume(v, r.after) && (WellFormed(v) ==> WellFormed(r.after))
  {
    if dir in v.dirs then Reply(DirectoryExists, v) else Reply(Ok, v.(dirs := v.dirs + {dir}))
  }

  ghost function Within<M>(v: Volume<M>, dir: string): set<Key> {
    set k | k in v.files && k.dir == dir
  }

  ghost function Inside<M>(v: Volume<M>, dir: string): set<M> {
    set k | k in v.files && k.dir == dir :: v.files[k]
  }

  ghost predicate AnyOpen<M>(v: Volume<M>, dir: string)
    requires WellFormed(v)
  {
    exists k :: k in v.files && k.dir == dir && v.meta[v.files[k]].refs != 0
  }

  // Note that no deletion event is fired.
  ghost function DeleteDirectory<M>(v: Volume<M>, dir: string): (r: Reply<M>)
    requires WellFormed(v)
    ensures WellFormed(r.after) && SameVolume(v, r.after)
  {
    if dir !in v.dirs then Reply(DirectoryMissing, v)
    else if AnyOpen(v, dir) then Reply(FileIsOpen, v)
    else
      Reply(Ok, v.(dirs := v.dirs - {dir},
                   files := v.files - Within(v, dir),
                   free := Wrap64(v.free + SumCurrent(v.meta, Inside(v, dir)))))
  }

  // ------------------------------------------------------------------ handles

  // Opening makes an object only for a file that is missing.
  ghost predicate NewIfMissing<M>(v: Volume<M>, path: string, m: M) {
    SplitPath(path) !in v.files ==> m !in v.meta
  }

  // FileSystem::open below the check on the number of open files.
  ghost function OpenFile<M>(v: Volume<M>, path: string, mode: Mode, m: M): (r: Reply<M>)
    requires WellFormed(v) && NewIfMissing(v, path, m)
    ensures WellFormed(r.after) && SameVolume(v, r.after)
  {
    var key := SplitPath(path);
    if key in v.files then
      var w := if mode.Write? then ResetFile(v, v.files[key]) else v;
      Reply(Ok, Retain(w, v.files[key]))
    else if mode.Read? || mode.ReadWrite? then Reply(FileNotFound, v)
    else
      var r := CreateFile(v, path, 0, m);
      if r.outcome.Ok? then Reply(Ok, Retain(r.after, m)) else r
  }

  // Opening in "w" mode: current size is given back, both sizes become 0.
  ghost function ResetFile<M>(v: Volume<M>, m: M): (w: Volume<M>)
    requires m in v.meta
    ensures SameVolume(v, w) && (WellFormed(v) ==> WellFormed(w))
  {
    v.(meta := v.meta[m := v.meta[m].(current := 0, future := 0)],
       free := Wrap64(v.free + v.meta[m].current))
  }

  ghost function Retain<M>(v: Volume<M>, m: M): (w: Volume<M>)
    requires m in v.meta
    ensures SameVolume(v, w) && (WellFormed(v) ==> WellFormed(w))
  {
    v.(meta := v.meta[m := v.meta[m].(refs := Wrap32(v.meta[m].refs + 1))])
  }

  ghost function Release<M>(v: Volume<M>, m: M): (w: Volume<M>)
    requires m in v.meta
    ensures SameVolume(v, w) && (WellFormed(v) ==> WellFormed(w))
  {
    v.(meta := v.meta[m := v.meta[m].(refs := Wrap32(v.meta[m].refs - 1))])
  }

  // Where a write of mode `mode` starts, for a handle standing at `pos`.
  function WritePosition(mode: Mode, pos: u64, future: u64): u64 {
    if mode.Append? && pos < future then future else pos
  }

  // The bytes a write of `n` bytes at `pos` adds to a file that is to be `future` bytes long.
  function AddedBytes(pos: u64, n: u64, future: u64): u64 {
    if Wrap64(pos + n) > future then Wrap64(pos + n) - future else 0
  }

  // write_init_checks for an already adjusted position: make room, reserve it, register the
  // target size under `id`.
  ghost function StartWrite<M>(v: Volume<M>, m: M, id: int, pos: u64, n: u64): (r: Reply<M>)
    requires WellFormed(v) && m in v.meta
    ensures WellFormed(r.after) && SameVolume(v, r.after)
  {
    var added := AddedBytes(pos, n, v.meta[m].future);
    var r := MakeRoom(v, added);
    if !r.outcome.Ok? then r
    else
      var w := r.after;
      Reply(Ok, w.(free := Wrap64(w.free - added),
                   meta := w.meta[m := w.meta[m].WriteStarted(id, w.meta[m].future + added)]))
  }

  // What happens when a write completes.
  ghost function EndWrite<M>(v: Volume<M>, m: M, id: int): (w: Volume<M>)
    requires m in v.meta
    ensures SameVolume(v, w) && (WellFormed(v) ==> WellFormed(w))
  {
    var w := AccessEvent(v, m);
    w.(meta := w.meta[m := w.meta[m].WriteEnded(id)])
  }

  // ------------------------------------------------------------------ steps and runs

  datatype Op<M> =
    | Create(path: string, bytes: u64, m: M)
    | Delete(key: Key)
    | Move(src: Key, dst: Key)
    | MakeDirectory(dir: string)
    | RemoveDirectory(dir: string)
    | Truncate(key: Key, bytes: u64)
    | SetEvictable(key: Key, evictable: bool)
    | Open(path: string, mode: Mode, m: M)
    | Close(m: M)
    | Access(m: M)
    | BeginWrite(m: M, id: int, pos: u64, bytes: u64)
    | FinishWrite(m: M, id: int)

  // What the caller of a step owes: new objects are new, a handle that is used is open,
  // write ids come from one increasing counter, and a write that completes still has its file.
  ghost predicate Safe<M>(v: Volume<M>, op: Op<M>) {
    match op
    case Create(_, _, m) => m !in v.meta
    case Open(path, _, m) => NewIfMissing(v, path, m)
    case Close(m) => InUse(v, m)
    case Access(m) => InUse(v, m)
    case BeginWrite(m, id, _, _) => InUse(v, m) && FreshId(v, id)
    case FinishWrite(m, _) => m in Live(v) && m in v.meta
    case _ => true
  }

  ghost predicate InUse<M>(v: Volume<M>, m: M) {
    m in Live(v) && m in v.meta && v.meta[m].refs > 0
  }

  ghost predicate FreshId<M>(v: Volume<M>, id: int) {
    forall m, w :: m in v.meta && w in v.meta[m].ongoing ==> w < id
  }

  ghost function Apply<M>(v: Volume<M>, op: Op<M>): (r: Reply<M>)
    requires WellFormed(v) && Safe(v, op)
    ensures WellFormed(r.after) && SameVolume(v, r.after)
  {
    match op
    case Create(path, bytes, m) => CreateFile(v, path, bytes, m)
    case Delete(key) => DeleteFile(v, key)
    case Move(src, dst) => MoveFile(v, src, dst)
    case MakeDirectory(dir) => CreateDirectory(v, dir)
    case RemoveDirectory(dir) => DeleteDirectory(v, dir)
    case Truncate(key, bytes) => TruncateFile(v, key, bytes)
    case SetEvictable(key, evictable) => MakeEvictable(v, key, evictable)
    case Open(path, mode, m) => OpenFile(v, path, mode, m)
    case Close(m) => Reply(Ok, Release(v, m))
    case Access(m) => Reply(Ok, AccessEvent(v, m))
    case BeginWrite(m, id, pos, bytes) => StartWrite(v, m, id, pos, bytes)
    case FinishWrite(m, id) => Reply(Ok, EndWrite(v, m, id))
  }
}
