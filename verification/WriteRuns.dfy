// What is proved of the writes on one file holds of every run: between resets, the sizes of a file
// are those that its own starts and ends of writes leave, whatever else happens in the file system.
module WriteRuns {
  import opened Words
  import opened Volumes
  import opened Index
  import opened Ledger
  import opened Writes
  import opened Reservations
  import opened Handles
  import opened Systems

  // The start or end of a write on object `m` that a step amounts to.
  ghost function StepEvents<M>(v: Volume<M>, op: Op<M>, m: M): seq<WriteEvent>
    requires WellFormed(v) && Safe(v, op)
  {
    match op
    case BeginWrite(n, id, pos, bytes) =>
      if n == m && Apply(v, op).outcome.Ok? then [Begin(id, AddedBytes(pos, bytes, v.meta[m].future))] else []
    case FinishWrite(n, id) => if n == m then [End(id)] else []
    case _ => []
  }

  ghost function Events<M>(v: Volume<M>, ops: seq<Op<M>>, m: M): seq<WriteEvent>
    requires WellFormed(v) && Permitted(v, ops)
    decreases |ops|
  {
    if ops == [] then [] else StepEvents(v, ops[0], m) + Events(Apply(v, ops[0]).after, ops[1..], m)
  }

  ghost predicate Uncut<M>(v: Volume<M>, ops: seq<Op<M>>, m: M)
    requires WellFormed(v) && Permitted(v, ops)
    decreases |ops|
  {
    m in v.meta && (ops == [] || (m !in Cut(v, ops[0]) && Uncut(Apply(v, ops[0]).after, ops[1..], m)))
  }

  // Write ids come from a counter that stands at `next`; a refused write uses none up.
  ghost predicate IdsRise<M>(v: Volume<M>, ops: seq<Op<M>>, next: int)
    requires WellFormed(v) && Permitted(v, ops)
    decreases |ops|
  {
    ops == [] ||
    (&& (ops[0].BeginWrite? ==> ops[0].id >= next)
     && IdsRise(Apply(v, ops[0]).after, ops[1..], NextId(v, ops[0], next)))
  }

  ghost function NextId<M>(v: Volume<M>, op: Op<M>, next: int): int
    requires WellFormed(v) && Safe(v, op)
  {
    if op.BeginWrite? && Apply(v, op).outcome.Ok? then op.id + 1 else next
  }

  // ------------------------------------------------------------------ one step

  ghost function Acts(f: FileRec, events: seq<WriteEvent>): FileRec
    requires |events| <= 1 && forall e :: e in events ==> e.Begin? ==> f.future + e.added < TWO64
  {
    if events == [] then f else Act(f, events[0])
  }

  // A step does to the sizes of the file what its own event does.
  ghost predicate Follows<M>(v: Volume<M>, op: Op<M>, m: M)
    requires WellFormed(v) && Safe(v, op) && m in v.meta
  {
    var e, w := StepEvents(v, op, m), Apply(v, op).after;
    && |e| <= 1 && (forall x :: x in e ==> x.Begin? ==> v.meta[m].future + x.added < TWO64)
    && m in w.meta && SameWrites(Acts(v.meta[m], e), w.meta[m])
  }

  lemma StepFollows<M>(v: Volume<M>, op: Op<M>, m: M)
    requires WellFormed(v) && Indexed(v) && Safe(v, op) && m in v.meta && m !in Cut(v, op)
    ensures Follows(v, op, m)
  {
    hide Apply, WellFormed, Indexed, Follows, Safe;
    if op.BeginWrite? {
      BeginFollows(v, op, m);
    } else if op.FinishWrite? {
      FinishFollows(v, op, m);
    } else {
      OthersKeepWrites(v, op, m);
      SameFollows(v, op, m);
    }
  }

  lemma BeginFollows<M>(v: Volume<M>, op: Op<M>, m: M)
    requires WellFormed(v) && Indexed(v) && Safe(v, op) && m in v.meta && op.BeginWrite?
    ensures Follows(v, op, m)
  {
    hide Indexed, StartWrite;
    BeginActs(v, op.m, op.id, op.pos, op.bytes, m);
  }

  lemma FinishFollows<M>(v: Volume<M>, op: Op<M>, m: M)
    requires WellFormed(v) && Safe(v, op) && m in v.meta && op.FinishWrite?
    ensures Follows(v, op, m)
  {
  }

  lemma SameFollows<M>(v: Volume<M>, op: Op<M>, m: M)
    requires WellFormed(v) && Safe(v, op) && m in v.meta && !op.BeginWrite? && !op.FinishWrite?
    requires m in Apply(v, op).after.meta && SameWrites(v.meta[m], Apply(v, op).after.meta[m])
    ensures Follows(v, op, m)
  {
    hide Apply, WellFormed, Safe;
  }

  lemma OthersKeepWrites<M>(v: Volume<M>, op: Op<M>, m: M)
    requires WellFormed(v) && Indexed(v) && Safe(v, op) && m in v.meta && m !in Cut(v, op)
    requires !op.BeginWrite? && !op.FinishWrite?
    ensures m in Apply(v, op).after.meta && SameWrites(v.meta[m], Apply(v, op).after.meta[m])
  {
    hide Indexed, CreateFile, MoveFile, OpenFile;
    match op
    case Create(path, bytes, n) => CreateKeepsWrites(v, path, bytes, n, m);
    case Open(path, mode, n) => OpenKeepsWrites(v, path, mode, n, m);
    case Move(src, dst) => MoveKeepsWrites(v, src, dst, m);
    case Delete(key) => RemovalKeepsWrites(v, op, m);
    case MakeDirectory(dir) => RemovalKeepsWrites(v, op, m);
    case RemoveDirectory(dir) => RemovalKeepsWrites(v, op, m);
    case _ =>
  }

  lemma RemovalKeepsWrites<M>(v: Volume<M>, op: Op<M>, m: M)
    requires WellFormed(v) && m in v.meta && (op.Delete? || op.MakeDirectory? || op.RemoveDirectory?)
    ensures Safe(v, op) && Apply(v, op).after.meta == v.meta
  {
    hide Indexed, CreateSpace, CreateFile, MoveFile, OpenFile, StartWrite;
  }

  lemma CreateKeepsWrites<M>(v: Volume<M>, path: string, size: u64, n: M, m: M)
    requires WellFormed(v) && Indexed(v) && n !in v.meta && m in v.meta
    ensures var w := CreateFile(v, path, size, n).after;
            m in w.meta && SameWrites(v.meta[m], w.meta[m])
  {
    hide Indexed, MakeRoom, Install;
    if path !in v.dirs && SplitPath(path) !in v.files {
      var room := MakeRoom(v, size);
      RoomLive(v, size);
      RoomOnlyRemoves(v, size);
      if room.outcome.Ok? {
        InstallReserves(room.after, SplitPath(path), size, n);
      }
    }
  }

  lemma OpenKeepsWrites<M>(v: Volume<M>, path: string, mode: Mode, n: M, m: M)
    requires WellFormed(v) && Indexed(v) && NewIfMissing(v, path, n) && m in v.meta
    requires mode.Write? && SplitPath(path) in v.files ==> m != v.files[SplitPath(path)]
    ensures var w := OpenFile(v, path, mode, n).after;
            m in w.meta && SameWrites(v.meta[m], w.meta[m])
  {
    hide Indexed, CreateFile;
    if SplitPath(path) !in v.files {
      CreateKeepsWrites(v, path, 0, n, m);
    }
  }

  lemma MoveKeepsWrites<M>(v: Volume<M>, src: Key, dst: Key, m: M)
    requires WellFormed(v) && m in v.meta
    ensures var w := MoveFile(v, src, dst).after;
            m in w.meta && SameWrites(v.meta[m], w.meta[m])
  {
    if MoveHappens(v, src, dst) {
      MoveShape(v, src, dst);
      hide MoveFile;
    }
  }

  lemma BeginActs<M>(v: Volume<M>, n: M, id: int, pos: u64, bytes: u64, m: M)
    requires WellFormed(v) && Indexed(v) && n in v.meta && m in v.meta
    ensures var added, r := AddedBytes(pos, bytes, v.meta[n].future), StartWrite(v, n, id, pos, bytes);
            && v.meta[n].future + added < TWO64 && m in r.after.meta
            && r.after.meta[m]
               == if r.outcome.Ok? && m == n then v.meta[m].WriteStarted(id, v.meta[m].future + added) else v.meta[m]
  {
    hide Indexed, MakeRoom;
    RoomLive(v, AddedBytes(pos, bytes, v.meta[n].future));
  }

  // ------------------------------------------------------------------ whole runs

  // Only the sizes and pending writes of the file matter.
  lemma ActOfSame(f: FileRec, g: FileRec, e: WriteEvent)
    requires SameWrites(f, g) && (e.Begin? ==> f.future + e.added < TWO64)
    ensures SameWrites(Act(f, e), Act(g, e))
  {
  }

  // What has been played so far, and the events of one more step.
  lemma PlayOneMore(f: FileRec, log: seq<WriteEvent>, g: FileRec, more: seq<WriteEvent>, next: int)
    requires Legal(f, log) && SameWrites(Play(f, log), g) && |more| <= 1
    requires forall e :: e in more ==> e.Begin? ==> g.future + e.added < TWO64 && e.id >= next
    requires forall i :: i in Targets(f, log) ==> i < next
    ensures Legal(f, log + more) && SameWrites(Play(f, log + more), Acts(g, more))
    ensures forall i :: i in Targets(f, log + more) ==>
              i < if more != [] && more[0].Begin? then more[0].id + 1 else next
  {
    if more == [] {
      assert log + more == log;
    } else {
      var e, all := more[0], log + more;
      assert all[..|all| - 1] == log && all[|all| - 1] == e;
      ActOfSame(Play(f, log), g, e);
    }
  }

  lemma {:induction false} RunPlays<M>(v: Volume<M>, ops: seq<Op<M>>, m: M, f: FileRec, log: seq<WriteEvent>, next: int)
    requires WellFormed(v) && Indexed(v) && Permitted(v, ops) && Uncut(v, ops, m) && IdsRise(v, ops, next)
    requires Legal(f, log) && SameWrites(Play(f, log), v.meta[m])
    requires forall i :: i in Targets(f, log) ==> i < next
    ensures Legal(f, log + Events(v, ops, m))
    ensures m in Run(v, ops).meta && SameWrites(Play(f, log + Events(v, ops, m)), Run(v, ops).meta[m])
    decreases |ops|
  {
    hide Apply, Indexed, WellFormed, Safe, Breaking, Cut, Play, Legal, Targets, Act;
    if ops == [] {
      assert log + [] == log;
    } else {
      var op, w := ops[0], Apply(v, ops[0]).after;
      var e := StepEvents(v, op, m);
      StepKeepsIndexUnlessBreaking(v, op);
      StepFollows(v, op, m);
      PlayOneMore(f, log, v.meta[m], e, next);
      RunPlays(w, ops[1..], m, f, log + e, NextId(v, op, next));
      assert (log + e) + Events(w, ops[1..], m) == log + Events(v, ops, m);
    }
  }

  // The sizes and pending writes a run leaves in a file are those its own events leave.
  lemma SizesOfRun<M>(v: Volume<M>, ops: seq<Op<M>>, m: M, next: int)
    requires WellFormed(v) && Indexed(v) && Permitted(v, ops) && Uncut(v, ops, m) && IdsRise(v, ops, next)
    requires forall i :: i in v.meta[m].ongoing ==> i < next
    ensures var f, e := v.meta[m], Events(v, ops, m);
            Legal(f, e) && m in Run(v, ops).meta && SameWrites(Play(f, e), Run(v, ops).meta[m])
  {
    hide Apply, Indexed, WellFormed, Permitted, IdsRise, Events, Run;
    RunPlays(v, ops, m, v.meta[m], [], next);
    assert [] + Events(v, ops, m) == Events(v, ops, m);
  }

  // ------------------------------------------------------------------ runs of the whole file system

  lemma {:induction false} IdsRiseFrom<M>(v: Volume<M>, ops: seq<Op<M>>, low: int, next: int)
    requires WellFormed(v) && Permitted(v, ops) && IdsRise(v, ops, next) && low <= next
    ensures IdsRise(v, ops, low)
    decreases |ops|
  {
    hide Apply, WellFormed, Safe, Breaking;
    if ops != [] {
      IdsRiseFrom(Apply(v, ops[0]).after, ops[1..], NextId(v, ops[0], low), NextId(v, ops[0], next));
    }
  }

  // The operation a step makes on a partition takes its id from the counter, if it takes one.
  lemma EffectTakesNextId<M>(s: System<M>, step: Step<M>, p: string)
    requires HandlesAgree(s) && IdsBelow(s) && Allowed(s, step) && p in s.volumes
    ensures Next(s, step).after.nextId >= s.nextId && WellFormed(s.volumes[p])
    ensures forall op :: op in Effect(s, step, p) ==>
              && Safe(s.volumes[p], op) && (op.BeginWrite? ==> op.id == s.nextId)
              && NextId(s.volumes[p], op, s.nextId) <= Next(s, step).after.nextId
  {
    hide HandlesAgree, IdsBelow, WellFormed, Safe, Breaking, StartWrite, OpenFile, WritePosition, AccessEvent;
    EffectIsSafe(s, step, p);
  }

  // The ids in the operations of one partition rise, since all come from one counter.
  lemma {:induction false} ProjectionIdsRise<M>(s: System<M>, steps: seq<Step<M>>, p: string)
    requires HandlesAgree(s) && IdsBelow(s) && Runs(s, steps) && p in s.volumes
    ensures WellFormed(s.volumes[p]) && Permitted(s.volumes[p], Projection(s, steps, p))
    ensures IdsRise(s.volumes[p], Projection(s, steps, p), s.nextId)
    decreases |steps|
  {
    hide HandlesAgree, IdsBelow, Next, Allowed, Effect, Apply, WellFormed, Safe, Breaking, NextId, IdsRise;
    RunProjects(s, steps, p);
    if steps == [] {
      NoIds(s.volumes[p], s.nextId);
    } else {
      var t, e := Next(s, steps[0]).after, Effect(s, steps[0], p);
      StepProjects(s, steps[0], p);
      StepKeepsHandles(s, steps[0]);
      SystemKeepsIds(s, steps[0]);
      ProjectionIdsRise(t, steps[1..], p);
      EffectTakesNextId(s, steps[0], p);
      AtMostOneEffect(s, steps[0], p);
      OneMoreId(s.volumes[p], e, Projection(t, steps[1..], p), s.nextId, t.nextId);
    }
  }

  lemma NoIds<M>(v: Volume<M>, next: int)
    requires WellFormed(v)
    ensures Permitted(v, []) && IdsRise(v, [], next)
  {
  }

  lemma OneMoreId<M>(v: Volume<M>, e: seq<Op<M>>, ops: seq<Op<M>>, low: int, next: int)
    requires WellFormed(v) && |e| <= 1 && Permitted(v, e) && Permitted(v, e + ops)
    requires Permitted(Run(v, e), ops) && IdsRise(Run(v, e), ops, next) && low <= next
    requires forall op :: op in e ==>
               Safe(v, op) && (op.BeginWrite? ==> op.id == low) && NextId(v, op, low) <= next
    ensures IdsRise(v, e + ops, low)
  {
    hide Apply, WellFormed, Safe, Breaking, NextId;
    if e == [] {
      assert e + ops == ops;
      IdsRiseFrom(v, ops, low, next);
    } else {
      assert e[0] in e && e[1..] == [] && (e + ops)[1..] == ops;
      IdsRiseFrom(Apply(v, e[0]).after, ops, NextId(v, e[0], low), next);
    }
  }

  // Through every run of the file system that never cuts it, and from whatever state it starts in: the
  // current size of a file is the target of its write that ended last, and its future size that of its
  // write begun last. If it starts out settled, targets grow in issue order, and the two sizes agree
  // exactly when the write that ended last had the largest target of all.
  lemma FileSizesOverRuns<M>(s: System<M>, steps: seq<Step<M>>, p: string, m: M)
    requires HandlesAgree(s) && IdsBelow(s) && Runs(s, steps) && p in s.volumes
    requires WellFormed(s.volumes[p]) && Permitted(s.volumes[p], Projection(s, steps, p))
    requires Uncut(s.volumes[p], Projection(s, steps, p), m)
    ensures var f, e := s.volumes[p].meta[m], Events(s.volumes[p], Projection(s, steps, p), m);
            var t := Final(s, steps);
            && Legal(f, e) && p in t.volumes && m in t.volumes[p].meta
            && SameWrites(Play(f, e), t.volumes[p].meta[m])
            && var g, targets, ended, begun := t.volumes[p].meta[m], Targets(f, e), Ended(f, e), Begun(e);
            && HaveTargets(ended, targets) && HaveTargets(begun, targets)
            && g.current == LastTarget(targets, ended, f.current)
            && g.future == LastTarget(targets, begun, f.future)
            && (Settled(f) ==>
                  && Monotone(g, targets)
                  && (ended != [] ==>
                        (g.current == g.future <==> forall i :: i in targets ==> targets[i] <= g.current)))
  {
    hide HandlesAgree, Runs, Final, WellFormed, Permitted, Projection, Events, Run, IdsRise;
    hide Settled, Legal, Play, Targets, Ended, Begun;
    var v, ops := s.volumes[p], Projection(s, steps, p);
    var f, e := v.meta[m], Events(v, ops, m);
    ProjectionIdsRise(s, steps, p);
    RunProjects(s, steps, p);
    VolumeIsSound(s, p);
    SizesOfRun(v, ops, m, s.nextId);
    SizesAreLastTargets(f, e);
    if Settled(f) {
      TargetsAreMonotone(f, e);
      if Ended(f, e) != [] {
        SizesAgreeIffLargestEndsLast(f, e);
      }
    }
  }
}
