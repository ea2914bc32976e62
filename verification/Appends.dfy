// Appends to one file never overlap, however many handles append to it.
module Appends {
  import opened Words
  import opened Volumes
  import opened Index
  import opened Ledger
  import opened Handles
  import opened Systems
  import WriteRuns

  // ------------------------------------------------------------------ who may change a future size

  lemma OtherStepsKeepFutures<M>(v: Volume<M>, op: Op<M>, m: M)
    requires WellFormed(v) && Indexed(v) && Safe(v, op) && !op.BeginWrite?
    requires m in v.meta && m !in Cut(v, op)
    ensures m in Apply(v, op).after.meta && Apply(v, op).after.meta[m].future == v.meta[m].future
  {
    hide Apply, Indexed, WellFormed, Cut;
    WriteRuns.StepFollows(v, op, m);
  }

  lemma WritesRaiseFutures<M>(v: Volume<M>, n: M, id: int, pos: u64, bytes: u64, m: M)
    requires WellFormed(v) && Indexed(v) && n in v.meta && m in v.meta
    ensures var r := StartWrite(v, n, id, pos, bytes);
            && m in r.after.meta
            && r.after.meta[m].future
               == v.meta[m].future + if m == n && r.outcome.Ok? then AddedBytes(pos, bytes, v.meta[m].future) else 0
  {
    hide Indexed, WellFormed, StartWrite, AddedBytes;
    WriteRuns.BeginActs(v, n, id, pos, bytes, m);
  }

  // A write that starts makes the file just long enough for it, and keeps it as long as it was, if and
  // only if its end fits 64 bits; beyond that the end wraps.
  lemma WriteReachesItsEnd<M>(v: Volume<M>, m: M, id: int, pos: u64, bytes: u64)
    requires WellFormed(v) && Indexed(v) && m in v.meta
    requires StartWrite(v, m, id, pos, bytes).outcome.Ok?
    ensures var w := StartWrite(v, m, id, pos, bytes).after;
            && m in w.meta && w.meta[m].future == Max(v.meta[m].future, Wrap64(pos + bytes))
            && (w.meta[m].future == Max(v.meta[m].future, pos + bytes) <==> pos + bytes < TWO64)
  {
    hide StartWrite, Indexed, WellFormed;
    WritesRaiseFutures(v, m, id, pos, bytes, m);
  }

  // ------------------------------------------------------------------ one step of the system

  ghost function FutureOf<M>(s: System<M>, p: string, m: M): int {
    if p in s.volumes && m in s.volumes[p].meta then s.volumes[p].meta[m].future else 0
  }

  // Some handle writes to the file in this step.
  ghost predicate WritesTo<M>(s: System<M>, step: Step<M>, p: string, m: M)
    requires Allowed(s, step)
  {
    step.WriteHandle? && s.handles[step.h].mount == p && s.handles[step.h].m == m && !s.handles[step.h].mode.Read?
  }

  ghost predicate AppendsTo<M>(s: System<M>, step: Step<M>, p: string, m: M)
    requires Allowed(s, step)
  {
    WritesTo(s, step, p, m) && s.handles[step.h].mode.Append? && Next(s, step).outcome.Ok?
  }

  // The bytes an append reserves: from where it starts, up to but excluding where it ends.
  datatype Range = Range(start: int, end: int)

  ghost function AppendRange<M>(s: System<M>, step: Step<M>, p: string, m: M): Range
    requires Allowed(s, step) && AppendsTo(s, step, p, m)
  {
    var start := WritePosition(Append, s.handles[step.h].pos, s.volumes[p].meta[m].future);
    Range(start, start + step.bytes)
  }

  // The file is neither destroyed nor cut in this step.
  ghost predicate Spared<M>(s: System<M>, step: Step<M>, p: string, m: M)
    requires Allowed(s, step)
  {
    && p in s.volumes && m in s.volumes[p].meta
    && forall op :: op in Effect(s, step, p) && WellFormed(s.volumes[p]) && Safe(s.volumes[p], op) ==>
         m !in Cut(s.volumes[p], op)
  }

  lemma StepMovesFuture<M>(s: System<M>, step: Step<M>, p: string, m: M)
    requires HandlesAgree(s) && IdsBelow(s) && Allowed(s, step) && Spared(s, step, p, m)
    ensures var t := Next(s, step).after;
            && p in t.volumes && m in t.volumes[p].meta
            && FutureOf(t, p, m) >= FutureOf(s, p, m)
            && (!WritesTo(s, step, p, m) ==> FutureOf(t, p, m) == FutureOf(s, p, m))
  {
    var v, e := s.volumes[p], Effect(s, step, p);
    VolumeIsSound(s, p);
    EffectIsSafe(s, step, p);
    VolumeAfter(s, step, p);
    AtMostOneEffect(s, step, p);
    EffectOfWrite(s, step, p, m);
    hide HandlesAgree, Next, Effect, Apply, IdsBelow, WritesTo, Cut, Indexed, WellFormed, Breaking, Safe, Allowed;
    if e != [] {
      assert e[0] in e;
      if e[0].BeginWrite? {
        var op := e[0];
        WritesRaiseFutures(v, op.m, op.id, op.pos, op.bytes, m);
        ApplyBegin(v, op);
      } else {
        OtherStepsKeepFutures(v, e[0], m);
      }
    }
  }

  lemma ApplyBegin<M>(v: Volume<M>, op: Op<M>)
    requires WellFormed(v) && Safe(v, op) && op.BeginWrite?
    ensures op.m in v.meta && Apply(v, op) == StartWrite(v, op.m, op.id, op.pos, op.bytes)
  {
    hide StartWrite;
  }

  lemma EffectOfWrite<M>(s: System<M>, step: Step<M>, p: string, m: M)
    requires Allowed(s, step)
    ensures forall op :: op in Effect(s, step, p) && op.BeginWrite? && op.m == m ==> WritesTo(s, step, p, m)
  {
  }

  // An append that is accepted starts at or after the end the file is to have, and its own end becomes
  // that end if and only if it fits 64 bits.
  lemma AppendTakesTheEnd<M>(s: System<M>, step: Step<M>, p: string, m: M)
    requires HandlesAgree(s) && Allowed(s, step) && AppendsTo(s, step, p, m)
    ensures var r, t := AppendRange(s, step, p, m), Next(s, step).after;
            && FutureOf(s, p, m) <= r.start <= r.end
            && FutureOf(t, p, m) <= r.end
            && (r.end == FutureOf(t, p, m) <==> r.end < TWO64)
            && (s.handles[step.h].pos <= FutureOf(s, p, m) ==> r.start == FutureOf(s, p, m))
  {
    var f := s.handles[step.h];
    var v := s.volumes[p];
    VolumeIsSound(s, p);
    var pos := WritePosition(f.mode, f.pos, v.meta[m].future);
    WritesRaiseFutures(v, m, s.nextId, pos, step.bytes, m);
    hide HandlesAgree, StartWrite;
  }

  // ------------------------------------------------------------------ any interleaving

  ghost function AppendRanges<M>(s: System<M>, steps: seq<Step<M>>, p: string, m: M): seq<Range>
    requires Runs(s, steps)
    decreases |steps|
  {
    if steps == [] then []
    else
      (if AppendsTo(s, steps[0], p, m) then [AppendRange(s, steps[0], p, m)] else [])
      + AppendRanges(Next(s, steps[0]).after, steps[1..], p, m)
  }

  ghost predicate SparedThroughout<M>(s: System<M>, steps: seq<Step<M>>, p: string, m: M)
    requires Runs(s, steps)
    decreases |steps|
  {
    steps == [] ||
    (Spared(s, steps[0], p, m) && SparedThroughout(Next(s, steps[0]).after, steps[1..], p, m))
  }

  ghost predicate Within64Bits(ranges: seq<Range>) {
    forall r :: r in ranges ==> r.end < TWO64
  }

  // One after the other, between `low` and `high`.
  ghost predicate InSequence(ranges: seq<Range>, low: int, high: int) {
    && low <= high
    && (forall i :: 0 <= i < |ranges| ==> low <= ranges[i].start <= ranges[i].end <= high)
    && (forall i, j :: 0 <= i < j < |ranges| ==> ranges[i].end <= ranges[j].start)
  }

  lemma PrependRange(r: Range, rest: seq<Range>, low: int, high: int)
    requires low <= r.start <= r.end && InSequence(rest, r.end, high)
    ensures InSequence([r] + rest, low, high)
  {
  }

  // Whatever else happens, and whoever else writes: the ranges appends reserve on a file come in
  // order, without overlapping, up to the end the file is to have, exactly if they all fit 64 bits.
  lemma AppendsNeverOverlap<M>(s: System<M>, steps: seq<Step<M>>, p: string, m: M)
    requires HandlesAgree(s) && IdsBelow(s) && Runs(s, steps)
    requires SparedThroughout(s, steps, p, m)
    ensures InSequence(AppendRanges(s, steps, p, m), FutureOf(s, p, m), FutureOf(Final(s, steps), p, m))
            <==> Within64Bits(AppendRanges(s, steps, p, m))
  {
    if Within64Bits(AppendRanges(s, steps, p, m)) {
      AppendsComeInOrder(s, steps, p, m);
    }
  }

  lemma {:induction false} AppendsComeInOrder<M>(s: System<M>, steps: seq<Step<M>>, p: string, m: M)
    requires HandlesAgree(s) && IdsBelow(s) && Runs(s, steps)
    requires SparedThroughout(s, steps, p, m)
    requires Within64Bits(AppendRanges(s, steps, p, m))
    ensures InSequence(AppendRanges(s, steps, p, m), FutureOf(s, p, m), FutureOf(Final(s, steps), p, m))
    decreases |steps|
  {
    hide HandlesAgree, IdsBelow, Next, Allowed, Spared, FutureOf, AppendsTo, AppendRange;
    if steps != [] {
      var step, t := steps[0], Next(s, steps[0]).after;
      var rest := AppendRanges(t, steps[1..], p, m);
      StepKeepsHandles(s, step);
      SystemKeepsIds(s, step);
      StepMovesFuture(s, step, p, m);
      if AppendsTo(s, step, p, m) {
        OneRangeMore(AppendRange(s, step, p, m), rest);
      } else {
        assert AppendRanges(s, steps, p, m) == rest;
      }
      hide InSequence, Within64Bits;
      AppendsComeInOrder(t, steps[1..], p, m);
      if AppendsTo(s, step, p, m) {
        AppendTakesTheEnd(s, step, p, m);
        PrependRange(AppendRange(s, step, p, m), rest, FutureOf(s, p, m), FutureOf(Final(s, steps), p, m));
      }
    }
  }

  // ------------------------------------------------------------------ appends only

  // Every write to the file is an append of a handle that has not been moved past the end.
  ghost predicate OnlyAppends<M>(s: System<M>, steps: seq<Step<M>>, p: string, m: M)
    requires Runs(s, steps)
    decreases |steps|
  {
    steps == [] ||
    (&& (WritesTo(s, steps[0], p, m) ==>
           s.handles[steps[0].h].mode.Append? && s.handles[steps[0].h].pos <= FutureOf(s, p, m))
     && OnlyAppends(Next(s, steps[0]).after, steps[1..], p, m))
  }

  // Each range starts where the one before it ends.
  ghost predicate Abut(ranges: seq<Range>, low: int, high: int)
    decreases |ranges|
  {
    if ranges == [] then low == high
    else ranges[0].start == low && ranges[0].start <= ranges[0].end && Abut(ranges[1..], ranges[0].end, high)
  }

  ghost function TotalLength(ranges: seq<Range>): int {
    if ranges == [] then 0 else ranges[0].end - ranges[0].start + TotalLength(ranges[1..])
  }

  lemma {:induction false} AbuttingAddUp(ranges: seq<Range>, low: int, high: int)
    requires Abut(ranges, low, high)
    ensures high == low + TotalLength(ranges)
    decreases |ranges|
  {
    if ranges != [] {
      AbuttingAddUp(ranges[1..], ranges[0].end, high);
    }
  }

  lemma RefusedWriteKeepsFuture<M>(s: System<M>, step: Step<M>, p: string, m: M)
    requires HandlesAgree(s) && Allowed(s, step) && WritesTo(s, step, p, m) && !Next(s, step).outcome.Ok?
    ensures FutureOf(Next(s, step).after, p, m) == FutureOf(s, p, m)
  {
    var f := s.handles[step.h];
    var v := s.volumes[p];
    VolumeIsSound(s, p);
    RefusedWriteChangesNothing(v, m, s.nextId, WritePosition(f.mode, f.pos, v.meta[m].future), step.bytes);
    hide HandlesAgree, StartWrite;
  }

  // With appends only, and no seek past the end, the ranges abut up to the end the file is to have, and
  // that end is where it was plus everything that was appended, exactly if they all fit 64 bits.
  lemma AppendsAbut<M>(s: System<M>, steps: seq<Step<M>>, p: string, m: M)
    requires HandlesAgree(s) && IdsBelow(s) && Runs(s, steps)
    requires SparedThroughout(s, steps, p, m) && OnlyAppends(s, steps, p, m)
    ensures var ranges, low, high := AppendRanges(s, steps, p, m), FutureOf(s, p, m), FutureOf(Final(s, steps), p, m);
            && (Abut(ranges, low, high) <==> Within64Bits(ranges))
            && (high == low + TotalLength(ranges) <==> Within64Bits(ranges))
  {
    hide HandlesAgree, IdsBelow, Runs, SparedThroughout, OnlyAppends, AppendRanges, Final;
    AppendsAddUp(s, steps, p, m);
    if Abut(AppendRanges(s, steps, p, m), FutureOf(s, p, m), FutureOf(Final(s, steps), p, m)) {
      AbuttingAddUp(AppendRanges(s, steps, p, m), FutureOf(s, p, m), FutureOf(Final(s, steps), p, m));
    }
  }

  lemma {:induction false} AppendsAddUp<M>(s: System<M>, steps: seq<Step<M>>, p: string, m: M)
    requires HandlesAgree(s) && IdsBelow(s) && Runs(s, steps)
    requires SparedThroughout(s, steps, p, m) && OnlyAppends(s, steps, p, m)
    ensures var ranges, low, high := AppendRanges(s, steps, p, m), FutureOf(s, p, m), FutureOf(Final(s, steps), p, m);
            && high <= low + TotalLength(ranges)
            && (high == low + TotalLength(ranges) <==> Within64Bits(ranges))
            && (Within64Bits(ranges) ==> Abut(ranges, low, high))
    decreases |steps|
  {
    hide HandlesAgree, IdsBelow, Next, Allowed, Spared, FutureOf, AppendRange, WritesTo;
    if steps != [] {
      var step, t := steps[0], Next(s, steps[0]).after;
      var rest := AppendRanges(t, steps[1..], p, m);
      StepKeepsHandles(s, step);
      SystemKeepsIds(s, step);
      StepMovesFuture(s, step, p, m);
      AppendsAddUp(t, steps[1..], p, m);
      if AppendsTo(s, step, p, m) {
        AppendTakesTheEnd(s, step, p, m);
        OneRangeMore(AppendRange(s, step, p, m), rest);
      } else {
        if WritesTo(s, step, p, m) {
          RefusedWriteKeepsFuture(s, step, p, m);
        }
        assert AppendRanges(s, steps, p, m) == rest;
      }
    }
  }

  lemma OneRangeMore(r: Range, rest: seq<Range>)
    ensures Within64Bits([r] + rest) <==> r.end < TWO64 && Within64Bits(rest)
    ensures TotalLength([r] + rest) == r.end - r.start + TotalLength(rest)
    ensures ([r] + rest)[1..] == rest
  {
    assert ([r] + rest)[1..] == rest;
    assert r in [r] + rest && forall x :: x in rest ==> x in [r] + rest;
  }
}
