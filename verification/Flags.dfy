// The flag that makes a file evictable: who sets it, and what it is worth.
module Flags {
  import opened Words
  import opened Volumes
  import opened Index
  import opened Eviction
  import opened Ledger

  // A closed file is among those that may be evicted exactly when its flag was set to true.
  lemma FlagDecides<M>(v: Volume<M>, key: Key, evictable: bool)
    requires WellFormed(v) && Indexed(v) && !v.scheme.NoCaching?
    requires key in v.files && v.meta[v.files[key]].refs == 0
    ensures v.meta[v.files[key]].rank in Candidates(MakeEvictable(v, key, evictable).after) <==> evictable
  {
    assert Ranked(v, v.files[key]);
    hide Indexed;
  }

  // What a step leaves of the flag of a file that exists.
  ghost function FlagAfter<M>(v: Volume<M>, op: Op<M>, m: M, flag: bool): bool {
    if op.SetEvictable? && op.key in v.files && v.files[op.key] == m then op.evictable else flag
  }

  ghost predicate KeepsFlags<M>(v: Volume<M>, op: Op<M>, w: Volume<M>)
    requires WellFormed(v)
  {
    && (forall m :: m in v.meta ==> m in w.meta && w.meta[m].evictable == FlagAfter(v, op, m, v.meta[m].evictable))
    && (forall m :: m in w.meta && m !in v.meta ==> w.meta[m].evictable)
  }

  // No other step changes the flag of a file, and a new file may be evicted.
  lemma StepKeepsFlags<M>(v: Volume<M>, op: Op<M>)
    requires WellFormed(v) && Indexed(v) && Safe(v, op)
    ensures KeepsFlags(v, op, Apply(v, op).after)
  {
    hide Indexed, CreateFile, MoveFile, OpenFile, StartWrite, WellFormed, Wrap64, KeepsFlags;
    match op
    case Create(path, bytes, m) => CreateKeepsFlags(v, op, path, bytes, m);
    case Open(path, mode, m) => OpenKeepsFlags(v, path, mode, m);
    case Move(src, dst) => MoveKeepsFlags(v, src, dst);
    case BeginWrite(m, id, pos, bytes) => WriteKeepsFlags(v, op);
    case Delete(_) => RemovalKeepsFlags(v, op);
    case MakeDirectory(_) => RemovalKeepsFlags(v, op);
    case RemoveDirectory(_) => RemovalKeepsFlags(v, op);
    case Truncate(_, _) => PatchKeepsFlags(v, op);
    case SetEvictable(_, _) => PatchKeepsFlags(v, op);
    case _ => UseKeepsFlags(v, op);
  }

  lemma RemovalKeepsFlags<M>(v: Volume<M>, op: Op<M>)
    requires WellFormed(v) && (op.Delete? || op.MakeDirectory? || op.RemoveDirectory?)
    ensures Safe(v, op) && KeepsFlags(v, op, Apply(v, op).after)
  {
    hide Wrap64, WellFormed, DeletionEvent;
    assert Apply(v, op).after.meta == v.meta;
  }

  lemma PatchKeepsFlags<M>(v: Volume<M>, op: Op<M>)
    requires WellFormed(v) && (op.Truncate? || op.SetEvictable?)
    ensures Safe(v, op) && KeepsFlags(v, op, Apply(v, op).after)
  {
    hide Wrap64;
  }

  lemma UseKeepsFlags<M>(v: Volume<M>, op: Op<M>)
    requires WellFormed(v) && Safe(v, op) && (op.Close? || op.Access? || op.FinishWrite?)
    ensures KeepsFlags(v, op, Apply(v, op).after)
  {
    hide Wrap32, WellFormed;
  }

  lemma CreateKeepsFlags<M>(v: Volume<M>, op: Op<M>, path: string, size: u64, m: M)
    requires WellFormed(v) && Indexed(v) && m !in v.meta && !op.SetEvictable?
    ensures KeepsFlags(v, op, CreateFile(v, path, size, m).after)
  {
    hide Indexed, MakeRoom, WellFormed, Wrap64, Install, SplitPath;
    RoomLive(v, size);
    var room := MakeRoom(v, size);
    if path !in v.dirs && SplitPath(path) !in v.files && room.outcome.Ok? {
      NewFileIsEvictable(room.after, SplitPath(path), size, m);
    }
  }

  lemma NewFileIsEvictable<M>(v: Volume<M>, key: Key, size: u64, m: M)
    requires WellFormed(v) && m !in v.meta
    ensures var w := Install(v, key, size, m);
            m in w.meta && w.meta == v.meta[m := w.meta[m]] && w.meta[m].evictable
  {
    hide Wrap64, Enter;
    EnterOnlyRanks(v.(meta := v.meta[m := FileRec(key.dir, key.name, size, size, map[], 0, 0, true)]), m);
  }

  lemma OpenKeepsFlags<M>(v: Volume<M>, path: string, mode: Mode, m: M)
    requires WellFormed(v) && Indexed(v) && NewIfMissing(v, path, m)
    ensures KeepsFlags(v, Op.Open(path, mode, m), OpenFile(v, path, mode, m).after)
  {
    hide Indexed, CreateFile, Wrap64;
    if SplitPath(path) !in v.files {
      CreateKeepsFlags(v, Op.Open(path, mode, m), path, 0, m);
    }
  }

  lemma MoveKeepsFlags<M>(v: Volume<M>, src: Key, dst: Key)
    requires WellFormed(v)
    ensures KeepsFlags(v, Op.Move(src, dst), MoveFile(v, src, dst).after)
  {
    if MoveHappens(v, src, dst) {
      hide MoveFile, Wrap64;
      MoveShape(v, src, dst);
    } else {
      hide Enter, Relocate;
      if src in v.files && dst in v.files {
        StoredApart(v, src, dst);
      }
    }
  }

  lemma WriteKeepsFlags<M>(v: Volume<M>, op: Op<M>)
    requires WellFormed(v) && Indexed(v) && Safe(v, op) && op.BeginWrite?
    ensures KeepsFlags(v, op, Apply(v, op).after)
  {
    hide Indexed, MakeRoom, Wrap64, AddedBytes;
    RoomLive(v, AddedBytes(op.pos, op.bytes, v.meta[op.m].future));
  }

  // ------------------------------------------------------------------ over runs

  // The flag the run last set on the object while it stored it, or `flag` if it set none.
  ghost function LastFlag<M>(v: Volume<M>, ops: seq<Op<M>>, m: M, flag: bool): bool
    requires WellFormed(v) && Permitted(v, ops)
    decreases |ops|
  {
    if ops == [] then flag
    else LastFlag(Apply(v, ops[0]).after, ops[1..], m, FlagAfter(v, ops[0], m, flag))
  }

  // Whatever is created, moved, opened, written, truncated or removed in between, the flag of a file
  // is the one that was set last, or true if none was since the file was made.
  lemma {:induction false} FlagIsLastSet<M>(v: Volume<M>, ops: seq<Op<M>>, m: M)
    requires WellFormed(v) && Indexed(v) && Permitted(v, ops)
    ensures var w := Run(v, ops);
            m in w.meta ==>
              w.meta[m].evictable == LastFlag(v, ops, m, if m in v.meta then v.meta[m].evictable else true)
    decreases |ops|
  {
    hide Apply, Indexed, WellFormed, Safe, Breaking;
    if ops != [] {
      StepKeepsFlags(v, ops[0]);
      StepKeepsIndexUnlessBreaking(v, ops[0]);
      OnlyStored(v, ops[0], m);
      FlagIsLastSet(Apply(v, ops[0]).after, ops[1..], m);
    }
  }

  // An object that does not exist is stored nowhere, so that no flag is set on it.
  lemma OnlyStored<M>(v: Volume<M>, op: Op<M>, m: M)
    requires WellFormed(v)
    ensures m !in v.meta ==> FlagAfter(v, op, m, true)
  {
  }

  lemma FlagIsLastSetFromMounting<M>(scheme: Scheme, size: u64, ops: seq<Op<M>>, m: M)
    requires Permitted(Mounted<M>(scheme, size), ops)
    ensures var v := Mounted(scheme, size);
            m in Run(v, ops).meta ==> Run(v, ops).meta[m].evictable == LastFlag(v, ops, m, true)
  {
    MountedIsIndexed<M>(scheme, size);
    FlagIsLastSet(Mounted<M>(scheme, size), ops, m);
  }
}
