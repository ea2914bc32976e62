// When an operation succeeds, read off the state before it, and that it changes nothing otherwise.
module Guards {
  import opened Words
  import opened Volumes
  import opened Index
  import opened Eviction

  ghost predicate IsClosed<M>(v: Volume<M>, key: Key)
    requires WellFormed(v)
  {
    key in v.files && v.meta[v.files[key]].refs == 0
  }

  // Free space suffices, or on a caching partition the sizes of closed evictable files, as the
  // 64-bit counter of the selection loop adds them up, reach what is missing.
  ghost predicate HasRoom<M>(v: Volume<M>, needed: u64)
    requires WellFormed(v)
  {
    needed <= v.free || (!v.scheme.NoCaching? && Reaches(v, needed - v.free))
  }

  lemma RoomIff<M>(v: Volume<M>, needed: u64)
    requires WellFormed(v) && Indexed(v)
    ensures MakeRoom(v, needed).outcome.Ok? <==> HasRoom(v, needed)
  {
    hide WellFormed, Indexed, Candidates, ReachesFirst, Victims, DeleteVictims;
    if v.free < needed {
      assert MakeRoom(v, needed) == CreateSpace(v, needed - v.free);
      if !v.scheme.NoCaching? {
        hide CreateSpace, MakeRoom;
        EvictionFollowsCounter(v, needed - v.free);
      }
    }
  }

  // When the shortest run that suffices fits 64 bits, that is a comparison of plain sums: free space,
  // and the sizes of all closed evictable files.
  lemma RoomIsPlain<M>(v: Volume<M>, needed: u64)
    requires WellFormed(v) && !v.scheme.NoCaching?
    requires v.free < needed ==>
               forall j: nat :: IsShortest(v, needed - v.free, j) ==> Sizes(v, Candidates(v)[..j]) < TWO64
    ensures HasRoom(v, needed) <==> needed <= v.free + SpaceBefore(v, v.counter)
  {
    hide Sizes, Candidates, SpaceBefore;
    var c := Candidates(v);
    CandidatesBefore(v, |c|);
    assert c[..|c|] == c;
    if v.free < needed {
      var n := needed - v.free;
      if Sizes(v, c) >= n {
        var j := ShortestExists(v, n, |c|);
        ShortestIsReached(v, n, j);
      } else {
        forall j: nat | ReachesFirst(v, n, j)
          ensures false
        {
          SizesPrefix(v, c, j, |c|);
        }
      }
    }
  }

  // What each operation asks of the partition, in terms of what is stored and open.
  ghost predicate Accepted<M>(v: Volume<M>, op: Op<M>)
    requires WellFormed(v) && Safe(v, op)
  {
    match op
    case Create(path, bytes, _) => path !in v.dirs && SplitPath(path) !in v.files && HasRoom(v, bytes)
    case Delete(key) => IsClosed(v, key)
    case Move(src, dst) => src in v.files && (src == dst || MoveHappens(v, src, dst))
    case MakeDirectory(dir) => dir !in v.dirs
    case RemoveDirectory(dir) => dir in v.dirs && forall k :: k in v.files && k.dir == dir ==> IsClosed(v, k)
    case Truncate(key, _) => IsClosed(v, key)
    case SetEvictable(key, _) => key in v.files
    case Open(path, mode, _) =>
      SplitPath(path) in v.files || ((mode.Write? || mode.Append?) && path !in v.dirs)
    case BeginWrite(m, _, pos, bytes) => HasRoom(v, AddedBytes(pos, bytes, v.meta[m].future))
    case _ => true
  }

  // An operation succeeds exactly when what it asks for holds.
  lemma AcceptedIff<M>(v: Volume<M>, op: Op<M>)
    requires WellFormed(v) && Indexed(v) && Safe(v, op)
    ensures Apply(v, op).outcome.Ok? <==> Accepted(v, op)
  {
    hide Indexed, CreateSpace, HasRoom;
    match op
    case Create(path, bytes, m) => RoomIff(v, bytes);
    case Open(path, mode, m) => NothingNeedsNoRoom(v);
    case BeginWrite(m, id, pos, bytes) => RoomIff(v, AddedBytes(pos, bytes, v.meta[m].future));
    case Move(src, dst) => if src in v.files && dst in v.files { StoredApart(v, src, dst); }
    case _ =>
  }

  // Which refusal it is, read off the state before.
  lemma RefusedAs<M>(v: Volume<M>, op: Op<M>)
    requires WellFormed(v) && Indexed(v) && Safe(v, op)
    ensures var o := Apply(v, op).outcome;
            && (o.FileNotFound? <==>
                  || (op.Delete? && op.key !in v.files)
                  || (op.Move? && op.src !in v.files)
                  || (op.SetEvictable? && op.key !in v.files)
                  || (op.Open? && SplitPath(op.path) !in v.files && (op.mode.Read? || op.mode.ReadWrite?)))
            && (o.FileIsOpen? <==>
                  || (op.Delete? && op.key in v.files && v.meta[v.files[op.key]].refs > 0)
                  || (op.Move? && op.src in v.files && op.src != op.dst
                      && (v.meta[v.files[op.src]].refs > 0
                          || (op.dst in v.files && v.meta[v.files[op.dst]].refs > 0)))
                  || (op.RemoveDirectory? && op.dir in v.dirs
                      && exists k :: k in v.files && k.dir == op.dir && v.meta[v.files[k]].refs > 0))
            && (o.NullPointer? <==> op.Truncate? && op.key !in v.files)
            && (o.InvalidTruncate? <==> op.Truncate? && op.key in v.files && v.meta[v.files[op.key]].refs > 0)
            && (o.DirectoryExists? <==> op.MakeDirectory? && op.dir in v.dirs)
            && (o.DirectoryMissing? <==> op.RemoveDirectory? && op.dir !in v.dirs)
  {
    hide Indexed, CreateSpace, Install;
    match op
    case Create(path, bytes, m) => RefusedRoom(v, bytes);
    case Open(path, mode, m) => NothingNeedsNoRoom(v);
    case BeginWrite(m, id, pos, bytes) => RefusedRoom(v, AddedBytes(pos, bytes, v.meta[m].future));
    case Move(src, dst) => if src in v.files && dst in v.files { StoredApart(v, src, dst); }
    case _ =>
  }

  // The same for what creates files or takes space.
  lemma CreationRefusedAs<M>(v: Volume<M>, op: Op<M>)
    requires WellFormed(v) && Indexed(v) && Safe(v, op)
    ensures var o := Apply(v, op).outcome;
            && (o.InvalidPath? <==>
                  || (op.Create? && op.path in v.dirs)
                  || (op.Open? && SplitPath(op.path) !in v.files && (op.mode.Write? || op.mode.Append?)
                      && op.path in v.dirs))
            && (o.FileAlreadyExists? <==> op.Create? && op.path !in v.dirs && SplitPath(op.path) in v.files)
            && (o.NotEnoughSpace? <==>
                  || (op.Create? && op.path !in v.dirs && SplitPath(op.path) !in v.files && !HasRoom(v, op.bytes))
                  || (op.BeginWrite? && !HasRoom(v, AddedBytes(op.pos, op.bytes, v.meta[op.m].future))))
            && (o.Ok? || o.InvalidPath? || o.FileAlreadyExists? || o.NotEnoughSpace?
                || o.FileNotFound? || o.FileIsOpen? || o.NullPointer? || o.InvalidTruncate?
                || o.DirectoryExists? || o.DirectoryMissing?)
  {
    hide Indexed, CreateSpace, HasRoom, WellFormed, Install;
    match op
    case Create(path, bytes, m) => RefusedRoom(v, bytes); RoomIff(v, bytes);
    case Open(path, mode, m) => NothingNeedsNoRoom(v);
    case BeginWrite(m, id, pos, bytes) =>
      RefusedRoom(v, AddedBytes(pos, bytes, v.meta[m].future)); RoomIff(v, AddedBytes(pos, bytes, v.meta[m].future));
    case _ =>
  }

  lemma NothingNeedsNoRoom<M>(v: Volume<M>)
    requires WellFormed(v)
    ensures MakeRoom(v, 0).outcome.Ok?
  {
  }

  // ------------------------------------------------------------------ refusals

  lemma RefusedRoom<M>(v: Volume<M>, needed: u64)
    requires WellFormed(v) && Indexed(v)
    ensures MakeRoom(v, needed).outcome.Ok? || MakeRoom(v, needed) == Reply(NotEnoughSpace, v)
  {
    RoomShape(v, needed);
  }

  lemma RefusedCreate<M>(v: Volume<M>, path: string, size: u64, m: M)
    requires WellFormed(v) && Indexed(v) && m !in v.meta
    ensures !CreateFile(v, path, size, m).outcome.Ok? ==> CreateFile(v, path, size, m).after == v
  {
    RefusedRoom(v, size);
    hide CreateSpace, Indexed, Install;
  }

  // On a partition: whatever is refused leaves contents, sizes, free space, reference counts
  // and the priority list as they were; in particular eviction never stops half way.
  lemma RefusedOperationChangesNothing<M>(v: Volume<M>, op: Op<M>)
    requires WellFormed(v) && Indexed(v) && Safe(v, op)
    ensures !Apply(v, op).outcome.Ok? ==> Apply(v, op).after == v
  {
    hide CreateSpace, Indexed;
    match op
    case Create(path, bytes, m) => RefusedCreate(v, path, bytes, m);
    case Open(path, mode, m) => if SplitPath(path) !in v.files { RefusedCreate(v, path, 0, m); } hide CreateFile;
    case BeginWrite(m, id, pos, bytes) => RefusedRoom(v, AddedBytes(pos, bytes, v.meta[m].future));
    case _ =>
  }
}
