// Whole runs of a file system: open-handle safety, and each partition seen as a run of its own.
module Systems {
  import opened Words
  import opened Sums
  import opened Volumes
  import opened Index
  import opened Ledger
  import Eviction
  import opened Handles

  ghost predicate Runs<M>(s: System<M>, steps: seq<Step<M>>)
    decreases |steps|
  {
    steps == [] || (Allowed(s, steps[0]) && Runs(Next(s, steps[0]).after, steps[1..]))
  }

  ghost function Final<M>(s: System<M>, steps: seq<Step<M>>): System<M>
    requires Runs(s, steps)
    decreases |steps|
  {
    if steps == [] then s else Final(Next(s, steps[0]).after, steps[1..])
  }

  // Freshly mounted partitions and no handle.
  ghost predicate Fresh<M>(s: System<M>) {
    && (forall p :: p in s.volumes ==> s.volumes[p] == Mounted(s.volumes[p].scheme, s.volumes[p].size))
    && s.handles == [] && s.numOpen == 0 && s.maxOpen < TWO32 / 2
  }

  lemma FreshAgrees<M>(s: System<M>)
    requires Fresh(s)
    ensures HandlesAgree(s)
  {
    forall p | p in s.volumes
      ensures Sound(s.volumes[p]) && Live(s.volumes[p]) == {}
    {
      MountedIsIndexed<M>(s.volumes[p].scheme, s.volumes[p].size);
    }
  }

  lemma FreshIdsBelow<M>(s: System<M>)
    requires Fresh(s)
    ensures IdsBelow(s)
  {
    assert forall p :: p in s.volumes ==> s.volumes[p].meta == map[];
  }

  // Mounting another partition disturbs no handle.
  lemma MountKeepsHandles<M>(s: System<M>, mp: string, scheme: Scheme, size: u64)
    requires HandlesAgree(s) && mp !in s.volumes
    ensures HandlesAgree(s.(volumes := s.volumes[mp := Mounted(scheme, size)]))
  {
    var t := s.(volumes := s.volumes[mp := Mounted(scheme, size)]);
    MountedIsIndexed<M>(scheme, size);
    forall h | 0 <= h < |t.handles|
      ensures Placed(t, t.handles[h])
    {
      assert Placed(s, s.handles[h]);
    }
    assert Live(t.volumes[mp]) == {};
  }

  lemma {:induction false} RunKeepsHandles<M>(s: System<M>, steps: seq<Step<M>>)
    requires HandlesAgree(s) && Runs(s, steps)
    ensures HandlesAgree(Final(s, steps))
    decreases |steps|
  {
    hide HandlesAgree, Next, Allowed;
    if steps != [] {
      StepKeepsHandles(s, steps[0]);
      RunKeepsHandles(Next(s, steps[0]).after, steps[1..]);
    }
  }

  // ------------------------------------------------------------------ the sum of reference counts

  // Every stored object, with the partition that stores it.
  ghost function Stored<M>(s: System<M>): set<(string, M)> {
    set p, k | p in s.volumes && k in s.volumes[p].files :: (p, s.volumes[p].files[k])
  }

  ghost function RefOf<M>(s: System<M>, x: (string, M)): int {
    if x.0 in s.volumes && x.1 in s.volumes[x.0].meta then s.volumes[x.0].meta[x.1].refs else 0
  }

  ghost function TotalRefs<M>(s: System<M>): int {
    Sum(map x | x in Stored(s) :: RefOf(s, x))
  }

  ghost function Counts<M>(objects: set<(string, M)>, handles: seq<Handle<M>>): map<(string, M), int> {
    map x | x in objects :: OpenOn(handles, x.0, x.1)
  }

  // Handles counted object by object, or all at once.
  lemma {:induction false} CountsAddUp<M>(objects: set<(string, M)>, handles: seq<Handle<M>>)
    requires forall h :: 0 <= h < |handles| && handles[h].open ==> (handles[h].mount, handles[h].m) in objects
    ensures Sum(Counts(objects, handles)) == OpenCount(handles)
  {
    if handles == [] {
      AllZero(Counts(objects, handles));
    } else {
      var init, f := handles[..|handles| - 1], handles[|handles| - 1];
      CountsAddUp(objects, init);
      var x := (f.mount, f.m);
      if f.open {
        var c := Counts(objects, init);
        SumSet(c, x, c[x] + 1);
        assert Counts(objects, handles) == c[x := c[x] + 1];
      } else {
        assert Counts(objects, handles) == Counts(objects, init);
      }
    }
  }

  lemma {:induction false} AllZero<K>(m: map<K, int>)
    requires forall k :: k in m ==> m[k] == 0
    ensures Sum(m) == 0
    decreases |m|
  {
    if m != map[] {
      var k :| k in m;
      SumRemove(m, k);
      AllZero(m - {k});
    }
  }

  lemma OpenHandlesAreStored<M>(s: System<M>)
    requires HandlesAgree(s)
    ensures forall h :: 0 <= h < |s.handles| && s.handles[h].open ==>
              (s.handles[h].mount, s.handles[h].m) in Stored(s)
  {
    forall h | 0 <= h < |s.handles| && s.handles[h].open
      ensures (s.handles[h].mount, s.handles[h].m) in Stored(s)
    {
      assert Placed(s, s.handles[h]);
    }
  }

  lemma RefsAreCounts<M>(s: System<M>)
    requires HandlesAgree(s)
    ensures (map x | x in Stored(s) :: RefOf(s, x)) == Counts(Stored(s), s.handles)
  {
    forall x | x in Stored(s)
      ensures RefOf(s, x) == OpenOn(s.handles, x.0, x.1)
    {
      var p, k :| p in s.volumes && k in s.volumes[p].files && x == (p, s.volumes[p].files[k]);
      assert x.1 in Live(s.volumes[p]);
    }
  }

  lemma AgreeingCountsAddUp<M>(s: System<M>)
    requires HandlesAgree(s)
    ensures TotalRefs(s) == s.numOpen == OpenCount(s.handles)
  {
    OpenHandlesAreStored(s);
    RefsAreCounts(s);
    CountsAddUp(Stored(s), s.handles);
    hide Stored, RefOf, Sound, OpenOn, Counts;
  }

  // Over every run: an open handle still finds its object under the directory and name it was
  // opened with, the open-file counter is the sum of all reference counts, and it never exceeds
  // the maximum.
  lemma OpenHandlesAreSafe<M>(s: System<M>, steps: seq<Step<M>>)
    requires Fresh(s) && Runs(s, steps)
    ensures var t := Final(s, steps);
            && (forall h :: 0 <= h < |t.handles| && t.handles[h].open ==>
                  var f := t.handles[h];
                  && f.mount in t.volumes
                  && f.key in t.volumes[f.mount].files && t.volumes[f.mount].files[f.key] == f.m)
            && t.numOpen == OpenCount(t.handles) == TotalRefs(t)
            && t.numOpen <= Max(0, t.maxOpen)
  {
    hide Runs, Final, Fresh, TotalRefs;
    FreshAgrees(s);
    RunKeepsHandles(s, steps);
    var t := Final(s, steps);
    AgreeingCountsAddUp(t);
    forall h | 0 <= h < |t.handles| && t.handles[h].open
      ensures var f := t.handles[h];
              f.mount in t.volumes && f.key in t.volumes[f.mount].files && t.volumes[f.mount].files[f.key] == f.m
    {
      assert Placed(t, t.handles[h]);
    }
  }

  // ------------------------------------------------------------------ one partition at a time

  // What a step does to partition `p`: nothing, or one operation.
  ghost function Effect<M>(s: System<M>, step: Step<M>, p: string): seq<Op<M>>
    requires Allowed(s, step)
  {
    match step
    case OnVolume(q, op) => if q == p then [op] else []
    case OpenHandle(q, path, mode, m) => if q == p && s.numOpen < s.maxOpen then [Op.Open(path, mode, m)] else []
    case CloseHandle(h) => if s.handles[h].mount == p then [Op.Close(s.handles[h].m)] else []
    case ReadHandle(h, bytes, asynchronous) =>
      if s.handles[h].mount == p && s.handles[h].mode.Read? && (bytes > 0 || asynchronous)
      then [Op.Access(s.handles[h].m)] else []
    case SeekHandle(_, _) => []
    case WriteHandle(h, bytes) =>
      var f := s.handles[h];
      if f.mount == p && !f.mode.Read? then
        [Op.BeginWrite(f.m, s.nextId, WritePosition(f.mode, f.pos, s.volumes[p].meta[f.m].future), bytes)]
      else []
  }

  // Write ids come from one counter shared by all files.
  ghost predicate IdsBelow<M>(s: System<M>) {
    forall p :: p in s.volumes ==> FreshId(s.volumes[p], s.nextId)
  }

  lemma EffectIsSafe<M>(s: System<M>, step: Step<M>, p: string)
    requires HandlesAgree(s) && IdsBelow(s) && Allowed(s, step) && p in s.volumes
    ensures WellFormed(s.volumes[p])
    ensures forall op :: op in Effect(s, step, p) ==> Safe(s.volumes[p], op) && !Breaking(s.volumes[p], op)
  {
    hide HandlesAgree, WellFormed, Indexed, InUse, FreshId, WritePosition;
    VolumeIsSound(s, p);
    match step
    case CloseHandle(h) => UsableIsInUse(s, h);
    case ReadHandle(h, bytes, asynchronous) => UsableIsInUse(s, h);
    case WriteHandle(h, bytes) => UsableIsInUse(s, h);
    case _ =>
  }

  lemma VolumeAfter<M>(s: System<M>, step: Step<M>, p: string)
    requires Allowed(s, step) && p in s.volumes
    requires WellFormed(s.volumes[p])
    requires forall op :: op in Effect(s, step, p) ==> Safe(s.volumes[p], op)
    ensures p in Next(s, step).after.volumes
    ensures var e := Effect(s, step, p);
            Next(s, step).after.volumes[p] == if e == [] then s.volumes[p] else Apply(s.volumes[p], e[0]).after
  {
    hide WellFormed, Safe, Breaking, OpenFile, StartWrite, AccessEvent, Release, WritePosition;
    match step
    case OnVolume(q, op) => hide Apply;
    case OpenHandle(q, path, mode, m) =>
    case CloseHandle(h) =>
    case ReadHandle(h, bytes, asynchronous) =>
    case SeekHandle(_, _) =>
    case WriteHandle(h, bytes) =>
  }

  lemma OneStepRun<M>(v: Volume<M>, e: seq<Op<M>>)
    requires WellFormed(v) && |e| <= 1
    requires forall op :: op in e ==> Safe(v, op) && !Breaking(v, op)
    ensures Permitted(v, e) && Run(v, e) == if e == [] then v else Apply(v, e[0]).after
  {
    hide Apply, Safe, Breaking;
    if e != [] {
      assert e[0] in e && e[1..] == [];
    }
  }

  lemma AtMostOneEffect<M>(s: System<M>, step: Step<M>, p: string)
    requires Allowed(s, step)
    ensures |Effect(s, step, p)| <= 1
  {
  }

  // A step of the system is a step of at most one partition.
  lemma StepProjects<M>(s: System<M>, step: Step<M>, p: string)
    requires HandlesAgree(s) && IdsBelow(s) && Allowed(s, step) && p in s.volumes
    ensures p in Next(s, step).after.volumes
    ensures WellFormed(s.volumes[p]) && Permitted(s.volumes[p], Effect(s, step, p))
    ensures Next(s, step).after.volumes[p] == Run(s.volumes[p], Effect(s, step, p))
  {
    hide *;
    EffectIsSafe(s, step, p);
    VolumeAfter(s, step, p);
    AtMostOneEffect(s, step, p);
    OneStepRun(s.volumes[p], Effect(s, step, p));
  }

  // ------------------------------------------------------------------ write ids stay fresh

  lemma SameIds<M>(v: Volume<M>, w: Volume<M>, id: int)
    requires FreshId(v, id)
    requires forall m :: m in w.meta ==>
               if m in v.meta then forall i :: i in w.meta[m].ongoing ==> i in v.meta[m].ongoing || i < id
               else w.meta[m].ongoing == map[]
    ensures FreshId(w, id)
  {
  }

  lemma StepKeepsIds<M>(v: Volume<M>, op: Op<M>, id: int)
    requires WellFormed(v) && Indexed(v) && Safe(v, op) && FreshId(v, id)
    requires op.BeginWrite? ==> op.id < id
    ensures FreshId(Apply(v, op).after, id)
  {
    hide FreshId, Indexed;
    match op
    case Create(path, bytes, m) => CreateKeepsIds(v, path, bytes, m, id);
    case Open(path, mode, m) => OpenKeepsIds(v, path, mode, m, id);
    case Move(src, dst) => MoveKeepsIds(v, src, dst, id);
    case BeginWrite(m, i, pos, bytes) => BeginKeepsIds(v, m, i, pos, bytes, id);
    case Delete(_) => RemovalKeepsIds(v, op, id);
    case MakeDirectory(_) => RemovalKeepsIds(v, op, id);
    case RemoveDirectory(_) => RemovalKeepsIds(v, op, id);
    case Truncate(_, _) => PatchKeepsIds(v, op, id);
    case SetEvictable(_, _) => PatchKeepsIds(v, op, id);
    case Close(_) => PatchKeepsIds(v, op, id);
    case Access(_) => PatchKeepsIds(v, op, id);
    case FinishWrite(_, _) => PatchKeepsIds(v, op, id);
  }

  lemma MoveKeepsIds<M>(v: Volume<M>, src: Key, dst: Key, id: int)
    requires WellFormed(v) && FreshId(v, id)
    ensures FreshId(MoveFile(v, src, dst).after, id)
  {
    hide FreshId;
    if MoveHappens(v, src, dst) {
      MoveShape(v, src, dst);
    }
    SameIds(v, MoveFile(v, src, dst).after, id);
  }

  lemma RemovalKeepsIds<M>(v: Volume<M>, op: Op<M>, id: int)
    requires WellFormed(v) && FreshId(v, id)
    requires op.Delete? || op.MakeDirectory? || op.RemoveDirectory?
    ensures FreshId(Apply(v, op).after, id)
  {
    hide FreshId;
    SameIds(v, Apply(v, op).after, id);
  }

  lemma PatchKeepsIds<M>(v: Volume<M>, op: Op<M>, id: int)
    requires WellFormed(v) && Safe(v, op) && FreshId(v, id)
    requires op.Truncate? || op.SetEvictable? || op.Close? || op.Access? || op.FinishWrite?
    ensures FreshId(Apply(v, op).after, id)
  {
    hide FreshId;
    SameIds(v, Apply(v, op).after, id);
  }

  lemma CreateKeepsIds<M>(v: Volume<M>, path: string, size: u64, m: M, id: int)
    requires WellFormed(v) && Indexed(v) && m !in v.meta && FreshId(v, id)
    ensures FreshId(CreateFile(v, path, size, m).after, id)
  {
    hide FreshId, Indexed, CreateSpace;
    var w := CreateFile(v, path, size, m).after;
    RoomLive(v, size);
    Eviction.RoomShape(v, size);
    var room := MakeRoom(v, size);
    if path !in v.dirs && SplitPath(path) !in v.files && room.outcome.Ok? {
      RoomOnlyRemoves(v, size);
      InstallReserves(room.after, SplitPath(path), size, m);
      InstallMeta(room.after, SplitPath(path), size, m);
    }
    SameIds(v, w, id);
  }

  lemma InstallMeta<M>(v: Volume<M>, key: Key, size: u64, m: M)
    requires WellFormed(v) && m !in v.meta
    ensures Install(v, key, size, m).meta.Keys == v.meta.Keys + {m}
  {
    EnterOnlyRanks(v.(meta := v.meta[m := FileRec(key.dir, key.name, size, size, map[], 0, 0, true)]), m);
  }

  lemma OpenKeepsIds<M>(v: Volume<M>, path: string, mode: Mode, m: M, id: int)
    requires WellFormed(v) && Indexed(v) && NewIfMissing(v, path, m) && FreshId(v, id)
    ensures FreshId(OpenFile(v, path, mode, m).after, id)
  {
    hide FreshId, Indexed, CreateFile;
    var w := OpenFile(v, path, mode, m).after;
    if SplitPath(path) in v.files {
      SameIds(v, w, id);
    } else {
      CreateKeepsIds(v, path, 0, m, id);
      if w != v {
        SameIds(CreateFile(v, path, 0, m).after, w, id);
      }
    }
  }

  lemma BeginKeepsIds<M>(v: Volume<M>, m: M, i: int, pos: u64, n: u64, id: int)
    requires WellFormed(v) && Indexed(v) && InUse(v, m) && FreshId(v, id) && i < id
    ensures FreshId(StartWrite(v, m, i, pos, n).after, id)
  {
    hide FreshId, Indexed, CreateSpace, AddedBytes;
    RoomLive(v, AddedBytes(pos, n, v.meta[m].future));
    SameIds(v, StartWrite(v, m, i, pos, n).after, id);
  }

  lemma SystemKeepsIds<M>(s: System<M>, step: Step<M>)
    requires HandlesAgree(s) && IdsBelow(s) && Allowed(s, step)
    ensures IdsBelow(Next(s, step).after)
  {
    var t := Next(s, step).after;
    SameVolumes(s, step);
    forall p | p in t.volumes
      ensures FreshId(t.volumes[p], t.nextId)
    {
      VolumeIdsBelow(s, step, p);
    }
  }

  lemma SameVolumes<M>(s: System<M>, step: Step<M>)
    requires Allowed(s, step)
    ensures Next(s, step).after.volumes.Keys == s.volumes.Keys
    ensures Next(s, step).after.nextId >= s.nextId
  {
  }

  lemma VolumeIdsBelow<M>(s: System<M>, step: Step<M>, p: string)
    requires HandlesAgree(s) && IdsBelow(s) && Allowed(s, step) && p in s.volumes
    ensures p in Next(s, step).after.volumes
    ensures FreshId(Next(s, step).after.volumes[p], Next(s, step).after.nextId)
  {
    var e, t := Effect(s, step, p), Next(s, step).after;
    VolumeIsSound(s, p);
    EffectIsSafe(s, step, p);
    VolumeAfter(s, step, p);
    SameVolumes(s, step);
    AtMostOneEffect(s, step, p);
    IdsGrow(s, step, p);
    hide HandlesAgree, Next, Effect, Apply, Allowed, WellFormed, Indexed, Breaking;
    if e != [] {
      assert e[0] in e;
      if t.volumes[p] != s.volumes[p] {
        StepKeepsIds(s.volumes[p], e[0], t.nextId);
      }
    }
  }

  // A write that changes its partition takes the next id and moves the counter.
  lemma IdsGrow<M>(s: System<M>, step: Step<M>, p: string)
    requires HandlesAgree(s) && Allowed(s, step) && p in s.volumes
    ensures var t, e := Next(s, step).after, Effect(s, step, p);
            p in t.volumes && (e != [] && e[0].BeginWrite? && t.volumes[p] != s.volumes[p] ==> e[0].id < t.nextId)
  {
    hide StartWrite, HandlesAgree, WellFormed, Indexed, InUse, FreshId, WritePosition;
    if step.WriteHandle? {
      var f := s.handles[step.h];
      VolumeIsSound(s, f.mount);
      RefusedWriteChangesNothing(s.volumes[f.mount], f.m, s.nextId,
        WritePosition(f.mode, f.pos, s.volumes[f.mount].meta[f.m].future), step.bytes);
    }
  }

  lemma RefusedWriteChangesNothing<M>(v: Volume<M>, m: M, id: int, pos: u64, n: u64)
    requires WellFormed(v) && Indexed(v) && m in v.meta
    ensures var r := StartWrite(v, m, id, pos, n);
            r.outcome.Ok? || r == Reply(NotEnoughSpace, v)
  {
    Eviction.RoomShape(v, AddedBytes(pos, n, v.meta[m].future));
  }

  // ------------------------------------------------------------------ a run seen from one partition

  ghost function Projection<M>(s: System<M>, steps: seq<Step<M>>, p: string): seq<Op<M>>
    requires Runs(s, steps)
    decreases |steps|
  {
    if steps == [] then []
    else Effect(s, steps[0], p) + Projection(Next(s, steps[0]).after, steps[1..], p)
  }

  lemma {:induction false} RunAppend<M>(v: Volume<M>, a: seq<Op<M>>, b: seq<Op<M>>)
    requires WellFormed(v) && Permitted(v, a) && Permitted(Run(v, a), b)
    ensures Permitted(v, a + b) && Run(v, a + b) == Run(Run(v, a), b)
    decreases |a|
  {
    hide Apply, Safe, Breaking, WellFormed;
    if a == [] {
      assert a + b == b;
    } else {
      assert a + b == [a[0]] + (a[1..] + b);
      assert (a + b)[1..] == a[1..] + b;
      RunAppend(Apply(v, a[0]).after, a[1..], b);
    }
  }

  // Whatever happens elsewhere, each partition goes through a permitted run of its own
  // operations, so what is proved of runs of one partition holds of every partition.
  lemma {:induction false} RunProjects<M>(s: System<M>, steps: seq<Step<M>>, p: string)
    requires HandlesAgree(s) && IdsBelow(s) && Runs(s, steps) && p in s.volumes
    ensures p in Final(s, steps).volumes
    ensures WellFormed(s.volumes[p]) && Permitted(s.volumes[p], Projection(s, steps, p))
    ensures Final(s, steps).volumes[p] == Run(s.volumes[p], Projection(s, steps, p))
    decreases |steps|
  {
    hide HandlesAgree, IdsBelow, Next, Allowed, Effect, Apply, WellFormed, Safe, Breaking;
    if steps == [] {
      VolumeIsSound(s, p);
      SoundIsWellFormed(s.volumes[p]);
    } else {
      var t := Next(s, steps[0]).after;
      StepProjects(s, steps[0], p);
      StepKeepsHandles(s, steps[0]);
      SystemKeepsIds(s, steps[0]);
      RunProjects(t, steps[1..], p);
      RunAppend(s.volumes[p], Effect(s, steps[0], p), Projection(t, steps[1..], p));
    }
  }

  lemma SoundIsWellFormed<M>(v: Volume<M>)
    requires Sound(v)
    ensures WellFormed(v)
  {
  }
}
