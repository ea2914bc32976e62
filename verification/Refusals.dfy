// A refused operation changes nothing.
module Refusals {
  import opened Words
  import opened Volumes
  import opened Index
  import opened Guards
  import opened Handles
  import opened Systems

  // On the file system: a refused append may have moved its own handle to the end of the file,
  // and nothing else has changed.
  lemma RefusedStepChangesNothing<M>(s: System<M>, step: Step<M>)
    requires HandlesAgree(s) && Allowed(s, step) && !Next(s, step).outcome.Ok?
    ensures var t := Next(s, step).after;
            && t.volumes == s.volumes && t.numOpen == s.numOpen && t.nextId == s.nextId
            && |t.handles| == |s.handles|
            && (forall h :: 0 <= h < |s.handles| && t.handles[h] != s.handles[h] ==>
                  var f := s.handles[h];
                  && step == WriteHandle(h, step.bytes) && f.mode.Append?
                  && f.pos < t.handles[h].pos == s.volumes[f.mount].meta[f.m].future
                  && t.handles[h] == f.(pos := t.handles[h].pos))
  {
    hide HandlesAgree, Opened, WriteTo, OnPartition, Safe, WellFormed;
    match step
    case OnVolume(p, op) =>
      RefusedOnVolume(s, p, op);
    case OpenHandle(p, path, mode, m) => RefusedOpen(s, p, path, mode, m);
    case WriteHandle(h, bytes) => RefusedWrite(s, h, bytes);
    case _ =>
  }

  lemma RefusedOnVolume<M>(s: System<M>, p: string, op: Op<M>)
    requires HandlesAgree(s) && Allowed(s, OnVolume(p, op)) && !OnPartition(s, p, op).outcome.Ok?
    ensures OnPartition(s, p, op).after == s
  {
    hide Apply, HandlesAgree, Safe, WellFormed, Indexed;
    VolumeIsSound(s, p);
    RefusedOperationChangesNothing(s.volumes[p], op);
    assert s.volumes[p := s.volumes[p]] == s.volumes;
  }

  lemma RefusedOpen<M>(s: System<M>, p: string, path: string, mode: Mode, m: M)
    requires HandlesAgree(s) && Allowed(s, OpenHandle(p, path, mode, m))
    requires !Opened(s, p, path, mode, m).outcome.Ok?
    ensures var t := Opened(s, p, path, mode, m).after;
            t.volumes == s.volumes && t.numOpen == s.numOpen && t.nextId == s.nextId && t.handles == s.handles
  {
    hide OpenFile, HandlesAgree, Stays, BeforeRetain, WellFormed, Indexed;
    VolumeIsSound(s, p);
    OpenIsRetain(s.volumes[p], path, mode, m);
    RefusedOperationChangesNothing(s.volumes[p], Op.Open(path, mode, m));
    assert s.volumes[p := s.volumes[p]] == s.volumes;
  }

  lemma RefusedWrite<M>(s: System<M>, h: nat, bytes: u64)
    requires HandlesAgree(s) && Usable(s, h) && !WriteTo(s, h, bytes).outcome.Ok?
    ensures var t, f := WriteTo(s, h, bytes).after, s.handles[h];
            && t.volumes == s.volumes && t.numOpen == s.numOpen && t.nextId == s.nextId
            && (f.mode.Read? ==> t == s)
            && (!f.mode.Read? ==>
                  var pos := WritePosition(f.mode, f.pos, s.volumes[f.mount].meta[f.m].future);
                  t.handles == s.handles[h := f.(pos := pos)])
  {
    var f := s.handles[h];
    var v := s.volumes[f.mount];
    VolumeIsSound(s, f.mount);
    var pos := WritePosition(f.mode, f.pos, v.meta[f.m].future);
    RefusedRoom(v, AddedBytes(pos, bytes, v.meta[f.m].future));
    hide HandlesAgree, CreateSpace, AddedBytes;
  }

  // Which refusal it is: the modes decide on reads and writes, the number of open files on opening,
  // and everything else is answered by the partition.
  lemma StepRefusedAs<M>(s: System<M>, step: Step<M>)
    requires HandlesAgree(s) && Allowed(s, step)
    ensures var o := Next(s, step).outcome;
            && (o.InvalidMode? <==>
                  || (step.ReadHandle? && !s.handles[step.h].mode.Read?)
                  || (step.WriteHandle? && s.handles[step.h].mode.Read?))
            && (o.TooManyOpenFiles? <==> step.OpenHandle? && s.numOpen >= s.maxOpen)
            && (step.CloseHandle? || step.SeekHandle? ==> o.Ok?)
            && (step.ReadHandle? && s.handles[step.h].mode.Read? ==> o.Ok?)
            && (step.OnVolume? ==> o == Apply(s.volumes[step.mount], step.op).outcome)
            && (step.OpenHandle? && s.numOpen < s.maxOpen ==>
                  o == Apply(s.volumes[step.mount], Op.Open(step.path, step.mode, step.m)).outcome)
            && (step.WriteHandle? && !s.handles[step.h].mode.Read? ==>
                  var f := s.handles[step.h];
                  var v := s.volumes[f.mount];
                  var pos := WritePosition(f.mode, f.pos, v.meta[f.m].future);
                  o == StartWrite(v, f.m, s.nextId, pos, step.bytes).outcome)
  {
    hide HandlesAgree, Stays, WellFormed, Indexed, Safe;
    hide AccessEvent, Release, WritePosition, AddedBytes, Apply, StartWrite;
    match step
    case OnVolume(p, op) =>
      VolumeIsSound(s, p);
      CreationRefusedAs(s.volumes[p], op);
    case OpenHandle(p, path, mode, m) =>
      VolumeIsSound(s, p);
      if s.numOpen < s.maxOpen {
        OpeningAnswers(s, p, path, mode, m);
      }
    case WriteHandle(h, bytes) =>
      var f := s.handles[h];
      VolumeIsSound(s, f.mount);
      WriteAnswers(s.volumes[f.mount], f.m, s.nextId,
        WritePosition(f.mode, f.pos, s.volumes[f.mount].meta[f.m].future), bytes);
    case _ =>
  }

  lemma OpeningAnswers<M>(s: System<M>, p: string, path: string, mode: Mode, m: M)
    requires Allowed(s, OpenHandle(p, path, mode, m)) && Indexed(s.volumes[p]) && s.numOpen < s.maxOpen
    ensures var o := Apply(s.volumes[p], Op.Open(path, mode, m)).outcome;
            Opened(s, p, path, mode, m).outcome == o && !o.InvalidMode? && !o.TooManyOpenFiles?
  {
    hide Indexed, WellFormed, MakeRoom, SplitPath, Install;
    CreationRefusedAs(s.volumes[p], Op.Open(path, mode, m));
  }

  lemma WriteAnswers<M>(v: Volume<M>, m: M, id: int, pos: u64, n: u64)
    requires WellFormed(v) && Indexed(v) && m in v.meta
    ensures var o := StartWrite(v, m, id, pos, n).outcome;
            o.Ok? || o.NotEnoughSpace?
  {
    hide WellFormed, Indexed, MakeRoom, AddedBytes;
    RefusedRoom(v, AddedBytes(pos, n, v.meta[m].future));
  }
}
