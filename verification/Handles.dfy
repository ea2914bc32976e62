// A file system seen from its handles: many partitions, many open files, one counter of open
// files and one counter of write ids.
module Handles {
  import opened Words
  import opened Volumes
  import opened Index
  import opened Eviction
  import opened Ledger

  datatype Handle<M> = Handle(mount: string, key: Key, m: M, mode: Mode, pos: u64, open: bool)

  datatype System<M> = System(
    volumes: map<string, Volume<M>>,
    handles: seq<Handle<M>>,
    numOpen: int,
    maxOpen: int,
    nextId: int)

  datatype Step<M> =
    | OnVolume(mount: string, op: Op<M>)
    | OpenHandle(mount: string, path: string, mode: Mode, m: M)
    | CloseHandle(h: nat)
    | ReadHandle(h: nat, bytes: u64, asynchronous: bool)
    | SeekHandle(h: nat, pos: u64)
    | WriteHandle(h: nat, bytes: u64)

  ghost predicate Usable<M>(s: System<M>, h: nat) {
    && h < |s.handles| && s.handles[h].open
    && s.handles[h].mount in s.volumes
    && WellFormed(s.volumes[s.handles[h].mount])
    && s.handles[h].m in s.volumes[s.handles[h].mount].meta
  }

  // What the callers owe: objects are new, a handle is used and closed while it is open, a
  // completing write has its file, and a caching partition is spared the index-breaking steps.
  ghost predicate Allowed<M>(s: System<M>, step: Step<M>) {
    match step
    case OnVolume(p, op) =>
      && p in s.volumes && WellFormed(s.volumes[p]) && Safe(s.volumes[p], op) && !Breaking(s.volumes[p], op)
      && !op.Open? && !op.Close? && !op.Access? && !op.BeginWrite?
    case OpenHandle(p, path, _, m) =>
      p in s.volumes && WellFormed(s.volumes[p]) && NewIfMissing(s.volumes[p], path, m)
    case CloseHandle(h) => Usable(s, h)
    case ReadHandle(h, _, _) => Usable(s, h)
    case SeekHandle(h, _) => Usable(s, h)
    case WriteHandle(h, _) => Usable(s, h)
  }

  datatype Result<M> = Result(outcome: Outcome, after: System<M>)

  ghost function SetVolume<M>(s: System<M>, p: string, v: Volume<M>): System<M> {
    s.(volumes := s.volumes[p := v])
  }

  // FileSystem::open
  ghost function Opened<M>(s: System<M>, p: string, path: string, mode: Mode, m: M): Result<M>
    requires p in s.volumes && WellFormed(s.volumes[p]) && NewIfMissing(s.volumes[p], path, m)
  {
    if s.numOpen >= s.maxOpen then Result(TooManyOpenFiles, s)
    else
      var key := SplitPath(path);
      var r := OpenFile(s.volumes[p], path, mode, m);
      if !r.outcome.Ok? || key !in r.after.files then Result(r.outcome, SetVolume(s, p, r.after))
      else
        var target := r.after.files[key];
        var pos := if mode.Append? then r.after.meta[target].current else 0;
        Result(Ok, SetVolume(s, p, r.after).(
          handles := s.handles + [Handle(p, key, target, mode, pos, true)],
          numOpen := s.numOpen + 1))
  }

  // File::close
  ghost function Closed<M>(s: System<M>, h: nat): Result<M>
    requires Usable(s, h)
  {
    var f := s.handles[h];
    Result(Ok, SetVolume(s, f.mount, Release(s.volumes[f.mount], f.m)).(
      handles := s.handles[h := f.(open := false)],
      numOpen := s.numOpen - 1))
  }

  // File::read and File::read_async; only the former returns early on an empty request.
  ghost function ReadFrom<M>(s: System<M>, h: nat, bytes: u64, asynchronous: bool): Result<M>
    requires Usable(s, h)
  {
    var f := s.handles[h];
    var v := s.volumes[f.mount];
    if !f.mode.Read? then Result(InvalidMode, s)
    else if bytes == 0 && !asynchronous then Result(Ok, s)
    else
      var count := Min(bytes, Wrap64(v.meta[f.m].current - f.pos));
      Result(Ok, SetVolume(s, f.mount, AccessEvent(v, f.m)).(
        handles := s.handles[h := f.(pos := Wrap64(f.pos + count))]))
  }

  // write_init_checks: an append may move its position even when it is refused.
  ghost function WriteTo<M>(s: System<M>, h: nat, bytes: u64): Result<M>
    requires Usable(s, h)
  {
    var f := s.handles[h];
    var v := s.volumes[f.mount];
    if f.mode.Read? then Result(InvalidMode, s)
    else
      var pos := WritePosition(f.mode, f.pos, v.meta[f.m].future);
      var r := StartWrite(v, f.m, s.nextId, pos, bytes);
      Result(r.outcome, SetVolume(s, f.mount, r.after).(
        handles := s.handles[h := f.(pos := pos)],
        nextId := if r.outcome.Ok? then s.nextId + 1 else s.nextId))
  }

  ghost function OnPartition<M>(s: System<M>, p: string, op: Op<M>): Result<M>
    requires p in s.volumes && WellFormed(s.volumes[p]) && Safe(s.volumes[p], op)
  {
    var r := Apply(s.volumes[p], op);
    Result(r.outcome, SetVolume(s, p, r.after))
  }

  ghost function Next<M>(s: System<M>, step: Step<M>): Result<M>
    requires Allowed(s, step)
  {
    match step
    case OnVolume(p, op) => OnPartition(s, p, op)
    case OpenHandle(p, path, mode, m) => Opened(s, p, path, mode, m)
    case CloseHandle(h) => Closed(s, h)
    case ReadHandle(h, bytes, asynchronous) => ReadFrom(s, h, bytes, asynchronous)
    case SeekHandle(h, pos) => Result(Ok, s.(handles := s.handles[h := s.handles[h].(pos := pos)]))
    case WriteHandle(h, bytes) => WriteTo(s, h, bytes)
  }

  // ------------------------------------------------------------------ what a step does to open files

  // Open files stay where they are, reference counts of stored files do not change, and a file
  // that appears is closed.
  ghost predicate Stays<M>(v: Volume<M>, w: Volume<M>) {
    && (forall m :: m in v.meta ==> m in w.meta)
    && (forall k :: k in v.files && v.files[k] in v.meta && v.meta[v.files[k]].refs > 0 ==>
          k in w.files && w.files[k] == v.files[k])
    && (forall k :: k in w.files && w.files[k] in v.meta ==> w.files[k] in Live(v))
    && (forall k :: k in w.files && w.files[k] in w.meta ==>
          w.meta[w.files[k]].refs == if w.files[k] in v.meta then v.meta[w.files[k]].refs else 0)
  }

  lemma SameStays<M>(v: Volume<M>, w: Volume<M>)
    requires w.files == v.files
    requires forall m :: m in v.meta ==> m in w.meta && w.meta[m].refs == v.meta[m].refs
    requires WellFormed(v)
    ensures Stays(v, w)
  {
    assert forall k :: k in v.files ==> v.files[k] in Live(v);
  }

  lemma RoomStays<M>(v: Volume<M>, needed: u64)
    requires WellFormed(v) && Indexed(v)
    ensures Stays(v, MakeRoom(v, needed).after)
  {
    RoomShape(v, needed);
    var victims, r := RoomVictims(v, needed), MakeRoom(v, needed);
    hide CreateSpace, MakeRoom;
    SameStays(v, v);
    if r.outcome.Ok? {
      WithoutStays(v, victims);
    }
  }

  lemma WithoutStays<M>(v: Volume<M>, victims: seq<nat>)
    requires WellFormed(v) && Indexed(v) && AllVictims(v, victims)
    ensures Stays(v, Without(v, victims))
  {
    var w := Without(v, victims);
    forall k | k in v.files && v.meta[v.files[k]].refs > 0
      ensures k in w.files
    {
      if !v.scheme.NoCaching? {
        assert Ranked(v, v.files[k]);
      } else {
        assert forall r :: r !in v.priority;
      }
    }
    assert forall k :: k in w.files ==> w.files[k] in Live(v);
  }

  lemma InstallStays<M>(v: Volume<M>, room: Volume<M>, key: Key, size: u64, m: M)
    requires WellFormed(v) && WellFormed(room) && Stays(v, room) && m !in v.meta && room.meta == v.meta
    requires key !in v.files && key !in room.files
    ensures Stays(v, Install(room, key, size, m))
    ensures Install(room, key, size, m).meta[m].refs == 0
  {
    hide WellFormed, Enter;
    var f := FileRec(key.dir, key.name, size, size, map[], 0, 0, true);
    var x := room.(meta := room.meta[m := f]);
    AddingObjectKeepsWellFormed(room, m, f);
    EnterOnlyRanks(x, m);
    var w := Install(room, key, size, m);
    assert w.files == room.files[key := m];
    assert w.meta == Enter(x, m).meta;
  }

  lemma CreateStays<M>(v: Volume<M>, path: string, size: u64, m: M)
    requires WellFormed(v) && Indexed(v) && m !in v.meta
    ensures Stays(v, CreateFile(v, path, size, m).after)
    ensures var r := CreateFile(v, path, size, m);
            r.outcome.Ok? ==> SplitPath(path) in r.after.files && r.after.files[SplitPath(path)] == m
                              && m in r.after.meta && r.after.meta[m].refs == 0
  {
    hide Indexed, CreateSpace, Stays;
    LiveHasMeta(v);
    SameStays(v, v);
    if path !in v.dirs && SplitPath(path) !in v.files {
      RoomStays(v, size);
      RoomOnlyRemoves(v, size);
      RoomLive(v, size);
      if MakeRoom(v, size).outcome.Ok? {
        InstallStays(v, MakeRoom(v, size).after, SplitPath(path), size, m);
      }
    }
  }

  lemma ShapeStays<M>(v: Volume<M>, w: Volume<M>, src: Key, dst: Key)
    requires WellFormed(v) && MoveHappens(v, src, dst)
    requires w.files == (v.files - {src})[dst := v.files[src]]
    requires w.meta.Keys == v.meta.Keys && forall m :: m in v.meta ==> w.meta[m].refs == v.meta[m].refs
    ensures Stays(v, w)
  {
    assert forall k :: k in w.files ==> w.files[k] in Live(v);
  }

  lemma MoveStays<M>(v: Volume<M>, src: Key, dst: Key)
    requires WellFormed(v)
    ensures Stays(v, MoveFile(v, src, dst).after)
  {
    hide Stays;
    var w := MoveFile(v, src, dst).after;
    if MoveHappens(v, src, dst) {
      MoveShape(v, src, dst);
      ShapeStays(v, w, src, dst);
    } else {
      LiveHasMeta(v);
      SameStays(v, w);
    }
  }

  lemma RemovalStays<M>(v: Volume<M>, w: Volume<M>)
    requires WellFormed(v) && w.meta == v.meta
    requires forall k :: k in w.files ==> k in v.files && w.files[k] == v.files[k]
    requires forall k :: k in v.files && v.meta[v.files[k]].refs > 0 ==> k in w.files
    ensures Stays(v, w)
  {
    assert forall k :: k in v.files ==> v.files[k] in Live(v);
  }

  lemma WriteStays<M>(v: Volume<M>, m: M, id: int, pos: u64, n: u64)
    requires WellFormed(v) && Indexed(v) && m in v.meta
    ensures Stays(v, StartWrite(v, m, id, pos, n).after)
  {
    hide Indexed, CreateSpace, AddedBytes;
    var added := AddedBytes(pos, n, v.meta[m].future);
    RoomStays(v, added);
    RoomLive(v, added);
  }

  lemma QuietStays<M>(v: Volume<M>, op: Op<M>)
    requires WellFormed(v) && Safe(v, op)
    requires op.Truncate? || op.SetEvictable? || op.Access? || op.FinishWrite?
    ensures Stays(v, Apply(v, op).after)
  {
    hide Stays, Wrap64, WellFormed;
    SameStays(v, Apply(v, op).after);
  }

  lemma GoneStays<M>(v: Volume<M>, op: Op<M>)
    requires WellFormed(v) && (op.Delete? || op.MakeDirectory? || op.RemoveDirectory?)
    ensures Stays(v, Apply(v, op).after)
  {
    hide Stays;
    RemovalStays(v, Apply(v, op).after);
  }

  lemma StepStays<M>(v: Volume<M>, op: Op<M>)
    requires WellFormed(v) && Indexed(v) && Safe(v, op) && !op.Open? && !op.Close?
    ensures Stays(v, Apply(v, op).after)
  {
    hide Indexed, Stays;
    match op
    case Create(path, bytes, m) => CreateStays(v, path, bytes, m);
    case Delete(key) => GoneStays(v, op);
    case Move(src, dst) => MoveStays(v, src, dst);
    case MakeDirectory(_) => GoneStays(v, op);
    case RemoveDirectory(_) => GoneStays(v, op);
    case Truncate(_, _) => QuietStays(v, op);
    case SetEvictable(_, _) => QuietStays(v, op);
    case Access(_) => QuietStays(v, op);
    case BeginWrite(m, id, pos, bytes) => WriteStays(v, m, id, pos, bytes);
    case FinishWrite(_, _) => QuietStays(v, op);
  }

  // ------------------------------------------------------------------ the invariant

  ghost function OpenOn<M>(handles: seq<Handle<M>>, p: string, m: M): nat {
    if handles == [] then 0
    else
      var f := handles[|handles| - 1];
      OpenOn(handles[..|handles| - 1], p, m) + (if f.open && f.mount == p && f.m == m then 1 else 0)
  }

  ghost function OpenCount<M>(handles: seq<Handle<M>>): nat {
    if handles == [] then 0
    else OpenCount(handles[..|handles| - 1]) + (if handles[|handles| - 1].open then 1 else 0)
  }

  ghost predicate Sound<M>(v: Volume<M>) {
    WellFormed(v) && Indexed(v)
  }

  // An open handle finds its object where it opened it, and reference counts count handles.
  ghost predicate HandlesAgree<M>(s: System<M>) {
    && (forall p :: p in s.volumes ==> Sound(s.volumes[p]))
    && (forall h :: 0 <= h < |s.handles| ==> Placed(s, s.handles[h]))
    && (forall p, m :: p in s.volumes && m in Live(s.volumes[p]) && m in s.volumes[p].meta ==>
          s.volumes[p].meta[m].refs == OpenOn(s.handles, p, m))
    && s.numOpen == OpenCount(s.handles)
    && s.numOpen <= Max(0, s.maxOpen) < TWO32 / 2
  }

  ghost predicate Placed<M>(s: System<M>, f: Handle<M>) {
    && f.mount in s.volumes
    && f.m in s.volumes[f.mount].meta
    && (f.open ==> f.key in s.volumes[f.mount].files && s.volumes[f.mount].files[f.key] == f.m)
  }

  // ------------------------------------------------------------------ counting handles

  ghost predicate Matches<M>(f: Handle<M>, p: string, m: M) {
    f.open && f.mount == p && f.m == m
  }

  lemma {:induction false} CountUpdate<M>(handles: seq<Handle<M>>, h: nat, g: Handle<M>, p: string, m: M)
    requires h < |handles|
    ensures OpenOn(handles[h := g], p, m)
            == OpenOn(handles, p, m) - (if Matches(handles[h], p, m) then 1 else 0)
               + (if Matches(g, p, m) then 1 else 0)
    ensures OpenCount(handles[h := g])
            == OpenCount(handles) - (if handles[h].open then 1 else 0) + (if g.open then 1 else 0)
  {
    var n := |handles| - 1;
    var updated := handles[h := g];
    if h == n {
      assert updated[..n] == handles[..n];
    } else {
      assert updated[..n] == handles[..n][h := g];
      CountUpdate(handles[..n], h, g, p, m);
    }
  }

  lemma CountAppend<M>(handles: seq<Handle<M>>, g: Handle<M>, p: string, m: M)
    ensures OpenOn(handles + [g], p, m) == OpenOn(handles, p, m) + (if Matches(g, p, m) then 1 else 0)
    ensures OpenCount(handles + [g]) == OpenCount(handles) + (if g.open then 1 else 0)
  {
    assert (handles + [g])[..|handles|] == handles;
  }

  lemma {:induction false} CountBounds<M>(handles: seq<Handle<M>>, p: string, m: M)
    ensures OpenOn(handles, p, m) <= OpenCount(handles)
    ensures (forall h :: 0 <= h < |handles| ==> !Matches(handles[h], p, m)) ==> OpenOn(handles, p, m) == 0
    ensures (exists h :: 0 <= h < |handles| && Matches(handles[h], p, m)) ==> OpenOn(handles, p, m) > 0
  {
    if handles != [] {
      var init := handles[..|handles| - 1];
      CountBounds(init, p, m);
      assert forall h :: 0 <= h < |init| ==> init[h] == handles[h];
    }
  }

  lemma UsableIsInUse<M>(s: System<M>, h: nat)
    requires HandlesAgree(s) && Usable(s, h)
    ensures InUse(s.volumes[s.handles[h].mount], s.handles[h].m)
  {
    var f := s.handles[h];
    assert Placed(s, f);
    assert Matches(f, f.mount, f.m);
    CountBounds(s.handles, f.mount, f.m);
  }

  // ------------------------------------------------------------------ the invariant is kept

  // A step that keeps one volume's open files, and only moves positions of handles.
  lemma AgreeAfterStays<M>(s: System<M>, t: System<M>, p: string, w: Volume<M>)
    requires HandlesAgree(s) && p in s.volumes && Stays(s.volumes[p], w) && Sound(w)
    requires t.volumes == s.volumes[p := w] && |t.handles| == |s.handles|
    requires forall h :: 0 <= h < |s.handles| ==> t.handles[h] == s.handles[h].(pos := t.handles[h].pos)
    requires t.numOpen == s.numOpen && t.maxOpen == s.maxOpen
    ensures HandlesAgree(t)
  {
    PositionsDoNotCount(s.handles, t.handles);
    forall h | 0 <= h < |t.handles|
      ensures Placed(t, t.handles[h])
    {
      PlacedAfterStays(s, t, p, w, h);
    }
    forall q, m | q in t.volumes && m in Live(t.volumes[q]) && m in t.volumes[q].meta
      ensures t.volumes[q].meta[m].refs == OpenOn(t.handles, q, m)
    {
      if q == p {
        RefsAfterStays(s, p, w, m);
      }
    }
  }

  lemma {:induction false} PositionsDoNotCount<M>(a: seq<Handle<M>>, b: seq<Handle<M>>)
    requires |a| == |b| && forall h :: 0 <= h < |a| ==> b[h] == a[h].(pos := b[h].pos)
    ensures OpenCount(a) == OpenCount(b)
    ensures forall p, m :: OpenOn(a, p, m) == OpenOn(b, p, m)
  {
    if a != [] {
      PositionsDoNotCount(a[..|a| - 1], b[..|b| - 1]);
    }
  }

  lemma PlacedAfterStays<M>(s: System<M>, t: System<M>, p: string, w: Volume<M>, h: nat)
    requires HandlesAgree(s) && p in s.volumes && Stays(s.volumes[p], w)
    requires t.volumes == s.volumes[p := w] && |t.handles| == |s.handles| && h < |s.handles|
    requires t.handles[h] == s.handles[h].(pos := t.handles[h].pos)
    ensures Placed(t, t.handles[h])
  {
    var f := s.handles[h];
    assert Placed(s, f);
    if f.open && f.mount == p {
      assert Matches(f, p, f.m);
      CountBounds(s.handles, p, f.m);
      assert f.m in Live(s.volumes[p]);
    }
  }

  lemma RefsAfterStays<M>(s: System<M>, p: string, w: Volume<M>, m: M)
    requires HandlesAgree(s) && p in s.volumes && Stays(s.volumes[p], w)
    requires m in Live(w) && m in w.meta
    ensures w.meta[m].refs == OpenOn(s.handles, p, m)
  {
    var v := s.volumes[p];
    var k :| k in w.files && w.files[k] == m;
    if m in v.meta {
      assert m in Live(v);
    } else {
      NewObjectHasNoHandle(s, p, m);
    }
  }

  lemma NewObjectHasNoHandle<M>(s: System<M>, p: string, m: M)
    requires HandlesAgree(s) && p in s.volumes && m !in s.volumes[p].meta
    ensures OpenOn(s.handles, p, m) == 0
  {
    forall h | 0 <= h < |s.handles|
      ensures !Matches(s.handles[h], p, m)
    {
      assert Placed(s, s.handles[h]);
    }
    CountBounds(s.handles, p, m);
  }

  lemma RetainKeepsSound<M>(v: Volume<M>, m: M)
    requires Sound(v) && m in v.meta
    ensures Sound(Retain(v, m)) && Sound(Release(v, m))
  {
    PatchKeepsIndex(v, Retain(v, m), m);
    PatchKeepsIndex(v, Release(v, m), m);
  }

  // A new handle, counted by its object.
  lemma AgreeAfterRetain<M>(s: System<M>, t: System<M>, f: Handle<M>)
    requires HandlesAgree(s) && Placed(s, f) && f.open && s.numOpen < s.maxOpen
    requires t == s.(volumes := s.volumes[f.mount := Retain(s.volumes[f.mount], f.m)],
                     handles := s.handles + [f], numOpen := s.numOpen + 1)
    ensures HandlesAgree(t)
  {
    hide WellFormed, Indexed;
    RetainKeepsSound(s.volumes[f.mount], f.m);
    forall h | 0 <= h < |t.handles|
      ensures Placed(t, t.handles[h])
    {
      assert h < |s.handles| ==> Placed(s, s.handles[h]);
    }
    forall q, m | q in t.volumes && m in Live(t.volumes[q]) && m in t.volumes[q].meta
      ensures t.volumes[q].meta[m].refs == OpenOn(t.handles, q, m)
    {
      RefsAfterRetain(s, t, f, q, m);
    }
    CountAppend(s.handles, f, f.mount, f.m);
  }

  lemma RefsAfterRetain<M>(s: System<M>, t: System<M>, f: Handle<M>, q: string, m: M)
    requires HandlesAgree(s) && Placed(s, f) && f.open && s.numOpen < s.maxOpen
    requires t == s.(volumes := s.volumes[f.mount := Retain(s.volumes[f.mount], f.m)],
                     handles := s.handles + [f], numOpen := s.numOpen + 1)
    requires q in t.volumes && m in Live(t.volumes[q]) && m in t.volumes[q].meta
    ensures t.volumes[q].meta[m].refs == OpenOn(t.handles, q, m)
  {
    hide WellFormed, Indexed;
    CountAppend(s.handles, f, q, m);
    CountBounds(s.handles, q, m);
    assert m in Live(s.volumes[q]);
  }

  lemma AgreeAfterRelease<M>(s: System<M>, h: nat)
    requires HandlesAgree(s) && Usable(s, h)
    ensures HandlesAgree(Closed(s, h).after)
  {
    var f, t := s.handles[h], Closed(s, h).after;
    var g := f.(open := false);
    RetainKeepsSound(s.volumes[f.mount], f.m);
    forall i | 0 <= i < |t.handles|
      ensures Placed(t, t.handles[i])
    {
      assert Placed(s, s.handles[i]);
    }
    UsableIsInUse(s, h);
    forall q, m | q in t.volumes && m in Live(t.volumes[q]) && m in t.volumes[q].meta
      ensures t.volumes[q].meta[m].refs == OpenOn(t.handles, q, m)
    {
      CountUpdate(s.handles, h, g, q, m);
      assert m in Live(s.volumes[q]);
    }
    CountUpdate(s.handles, h, g, f.mount, f.m);
  }

  // The volume between finding or creating the file and counting the new handle.
  ghost function BeforeRetain<M>(v: Volume<M>, path: string, mode: Mode, m: M): Volume<M>
    requires WellFormed(v) && NewIfMissing(v, path, m)
  {
    var key := SplitPath(path);
    if key !in v.files then CreateFile(v, path, 0, m).after
    else if mode.Write? then ResetFile(v, v.files[key])
    else v
  }

  lemma OpenIsRetain<M>(v: Volume<M>, path: string, mode: Mode, m: M)
    requires Sound(v) && NewIfMissing(v, path, m)
    ensures var r, x, key := OpenFile(v, path, mode, m), BeforeRetain(v, path, mode, m), SplitPath(path);
            && Sound(x) && Stays(v, x)
            && (r.outcome.Ok? ==> key in x.files && x.files[key] in x.meta && r.after == Retain(x, x.files[key]))
            && (!r.outcome.Ok? ==> r.after == x || r.after == v)
  {
    var key, x := SplitPath(path), BeforeRetain(v, path, mode, m);
    hide Indexed, Stays, WellFormed, CreateFile;
    LiveHasMetaAt(v, key);
    if key !in v.files {
      CreateKeepsIndex(v, path, 0, m);
      CreateStays(v, path, 0, m);
    } else {
      SameStays(v, x);
      if mode.Write? {
        PatchKeepsIndex(v, x, v.files[key]);
      }
    }
  }

  lemma LiveHasMetaAt<M>(v: Volume<M>, key: Key)
    requires WellFormed(v)
    ensures key in v.files ==> v.files[key] in v.meta
  {
  }

  lemma AgreeAfterOpen<M>(s: System<M>, p: string, path: string, mode: Mode, m: M)
    requires HandlesAgree(s) && Allowed(s, OpenHandle(p, path, mode, m))
    ensures HandlesAgree(Opened(s, p, path, mode, m).after)
  {
    if s.numOpen < s.maxOpen {
      var v := s.volumes[p];
      var r, x := OpenFile(v, path, mode, m), BeforeRetain(v, path, mode, m);
      VolumeIsSound(s, p);
      OpenIsRetain(v, path, mode, m);
      hide Sound, Stays, WellFormed, OpenFile, BeforeRetain, HandlesAgree, CreateFile, Indexed;
      StaysSelf(v);
      if r.outcome.Ok? {
        AgreeAfterStays(s, SetVolume(s, p, x), p, x);
        AgreeAfterOpenOk(s, p, path, mode, m, x);
      } else {
        AgreeAfterStays(s, SetVolume(s, p, r.after), p, r.after);
      }
    }
  }

  lemma AgreeAfterOpenOk<M>(s: System<M>, p: string, path: string, mode: Mode, m: M, x: Volume<M>)
    requires Allowed(s, OpenHandle(p, path, mode, m)) && s.numOpen < s.maxOpen
    requires HandlesAgree(SetVolume(s, p, x))
    requires SplitPath(path) in x.files && x.files[SplitPath(path)] in x.meta
    requires OpenFile(s.volumes[p], path, mode, m) == Reply(Ok, Retain(x, x.files[SplitPath(path)]))
    ensures HandlesAgree(Opened(s, p, path, mode, m).after)
  {
    hide WellFormed, OpenFile, HandlesAgree, Retain, SplitPath;
    var w, t := SetVolume(s, p, x), Opened(s, p, path, mode, m).after;
    RetainKeepsFiles(x, x.files[SplitPath(path)]);
    var f := t.handles[|s.handles|];
    assert Placed(w, f);
    assert t.volumes == w.volumes[p := Retain(x, f.m)];
    AgreeAfterRetain(w, t, f);
  }

  lemma RetainKeepsFiles<M>(v: Volume<M>, m: M)
    requires m in v.meta
    ensures Retain(v, m).files == v.files && Retain(v, m).meta.Keys == v.meta.Keys
  {
  }

  lemma StaysSelf<M>(v: Volume<M>)
    requires WellFormed(v)
    ensures Stays(v, v)
  {
    SameStays(v, v);
  }

  lemma VolumeIsSound<M>(s: System<M>, p: string)
    requires HandlesAgree(s) && p in s.volumes
    ensures Sound(s.volumes[p])
  {
  }

  lemma AgreeAfterRead<M>(s: System<M>, h: nat, bytes: u64, asynchronous: bool)
    requires HandlesAgree(s) && Usable(s, h)
    ensures HandlesAgree(ReadFrom(s, h, bytes, asynchronous).after)
  {
    hide HandlesAgree, Stays, AccessEvent, Indexed, WellFormed;
    var f, t := s.handles[h], ReadFrom(s, h, bytes, asynchronous).after;
    if t != s {
      var v := s.volumes[f.mount];
      UsableIsInUse(s, h);
      VolumeIsSound(s, f.mount);
      AccessKeepsIndex(v, f.m);
      QuietStays(v, Op.Access(f.m));
      AgreeAfterStays(s, t, f.mount, AccessEvent(v, f.m));
    }
  }

  lemma AgreeAfterWrite<M>(s: System<M>, h: nat, bytes: u64)
    requires HandlesAgree(s) && Usable(s, h)
    ensures HandlesAgree(WriteTo(s, h, bytes).after)
  {
    var f, t := s.handles[h], WriteTo(s, h, bytes).after;
    var v := s.volumes[f.mount];
    if !f.mode.Read? {
      VolumeIsSound(s, f.mount);
      var pos := WritePosition(f.mode, f.pos, v.meta[f.m].future);
      StartWriteKeepsIndex(v, f.m, s.nextId, pos, bytes);
      WriteStays(v, f.m, s.nextId, pos, bytes);
      hide HandlesAgree, Stays, StartWrite, Indexed, WritePosition;
      AgreeAfterStays(s, t, f.mount, StartWrite(v, f.m, s.nextId, pos, bytes).after);
    }
  }

  lemma AgreeAfterOp<M>(s: System<M>, p: string, op: Op<M>)
    requires HandlesAgree(s) && Allowed(s, OnVolume(p, op))
    ensures HandlesAgree(Next(s, OnVolume(p, op)).after)
  {
    hide HandlesAgree, Stays, Apply, Indexed, Breaking, WellFormed, Safe;
    var v := s.volumes[p];
    VolumeIsSound(s, p);
    StepStays(v, op);
    StepKeepsIndexUnlessBreaking(v, op);
    AgreeAfterStays(s, Next(s, OnVolume(p, op)).after, p, Apply(v, op).after);
  }

  lemma AgreeAfterSeek<M>(s: System<M>, h: nat, pos: u64)
    requires HandlesAgree(s) && Usable(s, h)
    ensures HandlesAgree(Next(s, SeekHandle(h, pos)).after)
  {
    hide HandlesAgree, Stays, Sound;
    var f, t := s.handles[h], Next(s, SeekHandle(h, pos)).after;
    VolumeIsSound(s, f.mount);
    StaysSelf(s.volumes[f.mount]);
    assert s.volumes[f.mount := s.volumes[f.mount]] == s.volumes;
    AgreeAfterStays(s, t, f.mount, s.volumes[f.mount]);
  }

  // Every step keeps open files in place and reference counts equal to handle counts.
  lemma StepKeepsHandles<M>(s: System<M>, step: Step<M>)
    requires HandlesAgree(s) && Allowed(s, step)
    ensures HandlesAgree(Next(s, step).after)
  {
    hide HandlesAgree, Usable, Opened, Closed, ReadFrom, WriteTo;
    match step
    case OnVolume(p, op) => AgreeAfterOp(s, p, op);
    case OpenHandle(p, path, mode, m) => AgreeAfterOpen(s, p, path, mode, m);
    case CloseHandle(h) => AgreeAfterRelease(s, h);
    case ReadHandle(h, bytes, asynchronous) => AgreeAfterRead(s, h, bytes, asynchronous);
    case SeekHandle(h, pos) => AgreeAfterSeek(s, h, pos);
    case WriteHandle(h, bytes) => AgreeAfterWrite(s, h, bytes);
  }

  // A read that starts at or before the end of the file stops there; one that starts past the end
  // is not cut, because the bytes that are left are computed without a sign.
  lemma ReadStopsAtEndIff<M>(s: System<M>, h: nat, bytes: u64, asynchronous: bool)
    requires Usable(s, h) && s.handles[h].mode.Read? && bytes > 0
    ensures var f, t := s.handles[h], ReadFrom(s, h, bytes, asynchronous).after;
            var size, pos := s.volumes[f.mount].meta[f.m].current, t.handles[h].pos;
            && (f.pos <= size ==> pos == Min(f.pos + bytes, size))
            && (f.pos > size ==> pos == Wrap64(f.pos + Min(bytes, TWO64 + size - f.pos)))
            && (f.pos <= pos <= size <==> f.pos <= size)
  {
    var f := s.handles[h];
    var size := s.volumes[f.mount].meta[f.m].current;
    WrapTurn(size - f.pos);
  }
}
