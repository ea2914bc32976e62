// Where handles stand: what moves them, and what the writes they make reach.
module Positions {
  import opened Words
  import opened Volumes
  import opened Handles
  import opened Systems
  import opened Appends

  // ------------------------------------------------------------------ one step

  // The position a step leaves to a handle that exists: a seek sets it; a write moves it in mode "a"
  // only, to the end the file is to have if it stood before; a read in mode "r" moves it by what is
  // read, up to the end of the file; nothing else does.
  ghost function Moved<M>(s: System<M>, step: Step<M>, h: nat): int
    requires Allowed(s, step) && h < |s.handles|
  {
    var f := s.handles[h];
    match step
    case SeekHandle(j, pos) => if j == h then pos else f.pos
    case WriteHandle(j, _) =>
      if j == h && f.mode.Append? then Max(f.pos, s.volumes[f.mount].meta[f.m].future) else f.pos
    case ReadHandle(j, bytes, _) =>
      if j == h && f.mode.Read? then
        var size := s.volumes[f.mount].meta[f.m].current;
        if f.pos <= size then Min(f.pos + bytes, size) else Wrap64(f.pos + Min(bytes, TWO64 + size - f.pos))
      else f.pos
    case _ => f.pos
  }

  lemma StepMovesHandle<M>(s: System<M>, step: Step<M>, h: nat)
    requires Allowed(s, step) && h < |s.handles|
    ensures var t, f := Next(s, step).after, s.handles[h];
            && h < |t.handles|
            && t.handles[h] == Handle(f.mount, f.key, f.m, f.mode, t.handles[h].pos, f.open && step != CloseHandle(h))
            && t.handles[h].pos == Moved(s, step, h)
  {
    hide StartWrite, OpenFile, Release, AccessEvent, WellFormed, Safe, Apply;
    match step
    case ReadHandle(j, bytes, asynchronous) =>
      var f := s.handles[j];
      WrapTurn(s.volumes[f.mount].meta[f.m].current - f.pos);
    case CloseHandle(j) =>
    case _ =>
  }

  // A new handle stands at the start of its file or, in mode "a", at the end of what it holds.
  lemma NewHandleStands<M>(s: System<M>, p: string, path: string, mode: Mode, m: M)
    requires Allowed(s, OpenHandle(p, path, mode, m)) && Next(s, OpenHandle(p, path, mode, m)).outcome.Ok?
    ensures var v, key, t := s.volumes[p], SplitPath(path), Next(s, OpenHandle(p, path, mode, m)).after;
            && (key in v.files ==> v.files[key] in v.meta)
            && var target := if key in v.files then v.files[key] else m;
               var pos := if mode.Append? && key in v.files then v.meta[target].current else 0;
               t.handles == s.handles + [Handle(p, key, target, mode, pos, true)]
  {
    hide SplitPath, MakeRoom, Wrap64, Enter;
    var v, key := s.volumes[p], SplitPath(path);
    if key !in v.files {
      assert CreateFile(v, path, 0, m) == Reply(Ok, Install(v, key, 0, m)) by { NothingNeeded(v); }
      NewFileIsEmpty(v, key, m);
    }
    hide WellFormed, CreateFile, Install;
  }

  lemma NothingNeeded<M>(v: Volume<M>)
    requires WellFormed(v)
    ensures MakeRoom(v, 0) == Reply(Ok, v)
  {
  }

  lemma NewFileIsEmpty<M>(v: Volume<M>, key: Key, m: M)
    requires WellFormed(v) && m !in v.meta
    ensures var w := Install(v, key, 0, m);
            m in w.meta && w.meta[m].current == 0 && w.files == v.files[key := m]
  {
  }

  // ------------------------------------------------------------------ over runs

  // The position the run last sought with the handle, or `pos` if it sought none.
  function LastSeek<M>(steps: seq<Step<M>>, h: nat, pos: int): int {
    if steps == [] then pos
    else LastSeek(steps[1..], h, if steps[0].SeekHandle? && steps[0].h == h then steps[0].pos else pos)
  }

  // A handle in mode "w" or "r+" is moved by its own seeks only, whatever it writes.
  lemma {:induction false} WritersMoveBySeeks<M>(s: System<M>, steps: seq<Step<M>>, h: nat)
    requires Runs(s, steps) && h < |s.handles|
    requires s.handles[h].mode.Write? || s.handles[h].mode.ReadWrite?
    ensures h < |Final(s, steps).handles|
    ensures Final(s, steps).handles[h].pos == LastSeek(steps, h, s.handles[h].pos)
    decreases |steps|
  {
    hide Next, Allowed;
    if steps != [] {
      StepMovesHandle(s, steps[0], h);
      WritersMoveBySeeks(Next(s, steps[0]).after, steps[1..], h);
    }
  }

  // Where the write of a step ends, in 64 bits: it starts where its handle stands or, in mode "a", at
  // the end the file is to have if the handle stands before it.
  ghost function EndOf<M>(s: System<M>, step: Step<M>): int
    requires Allowed(s, step) && step.WriteHandle?
  {
    var f := s.handles[step.h];
    var start := if f.mode.Append? then Max(f.pos, s.volumes[f.mount].meta[f.m].future) else f.pos;
    Wrap64(start + step.bytes)
  }

  // The farthest of `low` and the ends of the writes that were accepted on the file.
  ghost function Farthest<M>(s: System<M>, steps: seq<Step<M>>, p: string, m: M, low: int): int
    requires Runs(s, steps)
    decreases |steps|
  {
    if steps == [] then low
    else
      var ok := WritesTo(s, steps[0], p, m) && Next(s, steps[0]).outcome.Ok?;
      Farthest(Next(s, steps[0]).after, steps[1..], p, m, if ok then Max(low, EndOf(s, steps[0])) else low)
  }

  lemma WriteReaches<M>(s: System<M>, step: Step<M>, p: string, m: M)
    requires HandlesAgree(s) && Allowed(s, step) && WritesTo(s, step, p, m)
    ensures FutureOf(Next(s, step).after, p, m)
            == if Next(s, step).outcome.Ok? then Max(FutureOf(s, p, m), EndOf(s, step)) else FutureOf(s, p, m)
  {
    hide StartWrite, WellFormed;
    if Next(s, step).outcome.Ok? {
      var f, v := s.handles[step.h], s.volumes[p];
      VolumeIsSound(s, p);
      var pos := WritePosition(f.mode, f.pos, v.meta[m].future);
      WriteReachesItsEnd(v, m, s.nextId, pos, step.bytes);
      hide HandlesAgree, StartWrite;
    } else {
      RefusedWriteKeepsFuture(s, step, p, m);
    }
  }

  // Over every run that does not reset the file, whoever writes to it and in whatever mode: the end it
  // is to have is the farthest that it was to have at first or that an accepted write reaches.
  lemma {:induction false} FutureIsFarthestEnd<M>(s: System<M>, steps: seq<Step<M>>, p: string, m: M)
    requires HandlesAgree(s) && IdsBelow(s) && Runs(s, steps) && SparedThroughout(s, steps, p, m)
    ensures FutureOf(Final(s, steps), p, m) == Farthest(s, steps, p, m, FutureOf(s, p, m))
    decreases |steps|
  {
    hide HandlesAgree, IdsBelow, Next, Allowed, Spared, FutureOf, WritesTo, EndOf;
    if steps != [] {
      StepKeepsHandles(s, steps[0]);
      SystemKeepsIds(s, steps[0]);
      StepMovesFuture(s, steps[0], p, m);
      if WritesTo(s, steps[0], p, m) {
        WriteReaches(s, steps[0], p, m);
      }
      FutureIsFarthestEnd(Next(s, steps[0]).after, steps[1..], p, m);
    }
  }

  // So a second write of the same handle, in mode "w" or "r+", goes over the first.
  lemma SecondWriteGoesOver<M>(s: System<M>, h: nat, bytes: u64)
    requires HandlesAgree(s) && IdsBelow(s) && Allowed(s, WriteHandle(h, bytes))
    requires s.handles[h].mode.Write? || s.handles[h].mode.ReadWrite?
    ensures var write := Step<M>.WriteHandle(h, bytes);
            var t := Next(s, write).after;
            && Allowed(t, write)
            && (Next(s, write).outcome.Ok? && Next(t, write).outcome.Ok? ==>
                  var f := s.handles[h];
                  FutureOf(Next(t, write).after, f.mount, f.m)
                  == Max(FutureOf(s, f.mount, f.m), Wrap64(f.pos + bytes)))
  {
    hide HandlesAgree, IdsBelow, Next, FutureOf;
    var write, f := Step<M>.WriteHandle(h, bytes), s.handles[h];
    var t := Next(s, write).after;
    StepMovesHandle(s, write, h);
    StepKeepsHandles(s, write);
    WriterStaysUsable(s, h, bytes);
    WriteReaches(s, write, f.mount, f.m);
    WriteReaches(t, write, f.mount, f.m);
  }

  lemma WriterStaysUsable<M>(s: System<M>, h: nat, bytes: u64)
    requires HandlesAgree(s) && Allowed(s, WriteHandle(h, bytes))
    ensures Usable(Next(s, WriteHandle(h, bytes)).after, h)
  {
    hide StartWrite, WellFormed;
    var t, f := Next(s, WriteHandle(h, bytes)).after, s.handles[h];
    StepKeepsHandles(s, WriteHandle(h, bytes));
    StepMovesHandle(s, WriteHandle(h, bytes), h);
    assert Placed(t, t.handles[h]);
    VolumeIsSound(t, f.mount);
  }
}
