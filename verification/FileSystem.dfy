// The classes File and FileSystem. Each method does to the objects what a step of Handles does to
// the abstract system, so that what is proved about runs of the system holds for the objects.
module FileSystems {
  import opened Words
  import opened Volumes
  import opened Handles
  import opened Partitions
  import V = Volumes
  import Index
  import Guards
  import Ledger
  import Mounts
  import Paths

  // What a write does once room is made.
  lemma StartWriteInRoom<M>(v: Volume<M>, m: M, id: int, pos: u64, n: u64)
    requires WellFormed(v) && m in v.meta
    ensures var added := AddedBytes(pos, n, v.meta[m].future);
            var r, room := V.StartWrite(v, m, id, pos, n), MakeRoom(v, added);
            && WellFormed(r.after)
            && if room.outcome.Ok?
               then var w, f := room.after, room.after.meta[m];
                    r == Reply(Ok, w.(free := Wrap64(w.free - added),
                                      meta := w.meta[m := f.WriteStarted(id, f.future + added)]))
               else r == room
  {
    hide WellFormed, V.CreateSpace;
  }

  predicate NeedsNothing<M>(op: Op<M>) {
    op.Delete? || op.Move? || op.MakeDirectory? || op.RemoveDirectory? || op.Truncate? || op.SetEvictable?
  }

  lemma NothingNeeded<M>(v: Volume<M>, op: Op<M>)
    requires NeedsNothing(op)
    ensures Safe(v, op)
  {
  }

  // A step of one partition is a step of the file system.
  lemma StepOfPartition<M>(s: System<M>, t: System<M>, mp: string, outcome: Outcome, w: Volume<M>, op: Op<M>)
    requires mp in s.volumes && WellFormed(s.volumes[mp]) && NeedsNothing(op)
    requires Safe(s.volumes[mp], op) ==> Reply(outcome, w) == Apply(s.volumes[mp], op)
    requires t == SetVolume(s, mp, w)
    ensures Safe(s.volumes[mp], op) && Result(outcome, t) == OnPartition(s, mp, op)
  {
    NothingNeeded(s.volumes[mp], op);
    hide WellFormed, Safe, Apply;
  }

  // The same for creation, which needs a new object.
  lemma CreationOfPartition<M>(s: System<M>, t: System<M>, mp: string, outcome: Outcome, w: Volume<M>,
                               path: string, size: u64, m: M)
    requires mp in s.volumes && WellFormed(s.volumes[mp]) && m !in s.volumes[mp].meta
    requires Reply(outcome, w) == V.CreateFile(s.volumes[mp], path, size, m)
    requires t == SetVolume(s, mp, w)
    ensures Result(outcome, t) == OnPartition(s, mp, Op.Create(path, size, m))
  {
    hide WellFormed, V.CreateFile;
  }

  // Which refusal of a creation it is, and what is left: nothing has changed, except for files evicted
  // by an eviction that failed on the way.
  ghost predicate CreationRefused<M>(s: System<M>, mp: string, path: string, size: u64, r: Result<M>) {
    && mp in s.volumes && WellFormed(s.volumes[mp]) && !r.outcome.Ok?
    && var v := s.volumes[mp];
       if path in v.dirs then r == Result(InvalidPath, s)
       else if SplitPath(path) in v.files then r == Result(FileAlreadyExists, s)
       else r == Result(MakeRoom(v, size).outcome, SetVolume(s, mp, MakeRoom(v, size).after))
  }

  lemma RefusalOfPartition<M>(s: System<M>, mp: string, outcome: Outcome, w: Volume<M>, path: string, size: u64)
    requires mp in s.volumes && WellFormed(s.volumes[mp]) && !outcome.Ok?
    requires var v := s.volumes[mp];
             if path in v.dirs then outcome.InvalidPath? && w == v
             else if SplitPath(path) in v.files then outcome.FileAlreadyExists? && w == v
             else Reply(outcome, w) == MakeRoom(v, size)
    ensures CreationRefused(s, mp, path, size, Result(outcome, SetVolume(s, mp, w)))
  {
    hide WellFormed, MakeRoom, SplitPath;
    assert s.volumes[mp := s.volumes[mp]] == s.volumes;
  }

  // In a system whose handles agree with its partitions, a refused creation changes nothing.
  lemma RefusedCreationIsNoStep<M>(s: System<M>, mp: string, path: string, size: u64, r: Result<M>)
    requires HandlesAgree(s) && CreationRefused(s, mp, path, size, r)
    ensures r.after == s
  {
    hide HandlesAgree, WellFormed, MakeRoom, Index.Indexed, SplitPath;
    VolumeIsSound(s, mp);
    Guards.RefusedRoom(s.volumes[mp], size);
    assert s.volumes[mp := s.volumes[mp]] == s.volumes;
  }

  // What open does after the file is found or created.
  ghost function WithHandle<M>(s: System<M>, mp: string, key: Key, m: M, mode: Mode): System<M>
    requires mp in s.volumes && m in s.volumes[mp].meta
  {
    var w := Retain(s.volumes[mp], m);
    SetVolume(s, mp, w).(
      handles := s.handles + [Handle(mp, key, m, mode, if mode.Append? then w.meta[m].current else 0, true)],
      numOpen := s.numOpen + 1)
  }

  // Opening without making an object, if one more file may be opened: a file that exists is opened,
  // whatever the mode; one that does not is refused, without any change, if the mode needs it to exist
  // or its path is that of a directory.
  ghost predicate OpensOld<M>(s: System<M>, mp: string, path: string, mode: Mode, r: Result<M>) {
    && mp in s.volumes && WellFormed(s.volumes[mp])
    && var v, key := s.volumes[mp], SplitPath(path);
       if key in v.files then
         var step := OpenHandle(mp, path, mode, v.files[key]);
         var t := if mode.Write? then SetVolume(s, mp, V.ResetFile(v, v.files[key])) else s;
         && r == Result(Ok, WithHandle(t, mp, key, v.files[key], mode))
         && Allowed(s, step) && r == Next(s, step)
       else if mode.Read? || mode.ReadWrite? then r == Result(FileNotFound, s)
       else path in v.dirs && r == Result(InvalidPath, s)
  }

  // Otherwise the file is created and opened.
  ghost predicate OpensNew<M>(s: System<M>, mp: string, path: string, mode: Mode, r: Result<M>, m: M) {
    && mp in s.volumes && SplitPath(path) !in s.volumes[mp].files && path !in s.volumes[mp].dirs
    && !mode.Read? && !mode.ReadWrite? && r.outcome.Ok?
    && Allowed(s, OpenHandle(mp, path, mode, m)) && r == Next(s, OpenHandle(mp, path, mode, m))
  }

  lemma OpenedOld<M>(s: System<M>, mp: string, path: string, mode: Mode)
    requires mp in s.volumes && WellFormed(s.volumes[mp])
    requires s.numOpen < s.maxOpen && SplitPath(path) in s.volumes[mp].files
    ensures var key := SplitPath(path);
            var m := s.volumes[mp].files[key];
            var t := if mode.Write? then SetVolume(s, mp, V.ResetFile(s.volumes[mp], m)) else s;
            OpensOld(s, mp, path, mode, Result(Ok, WithHandle(t, mp, key, m, mode)))
  {
    hide SplitPath;
  }

  lemma OpenedMissing<M>(s: System<M>, mp: string, path: string, mode: Mode)
    requires mp in s.volumes && WellFormed(s.volumes[mp]) && SplitPath(path) !in s.volumes[mp].files
    requires mode.Read? || mode.ReadWrite?
    ensures OpensOld(s, mp, path, mode, Result(FileNotFound, s))
  {
    hide WellFormed, SplitPath;
  }

  lemma OpenedRefused<M>(s: System<M>, mp: string, path: string, mode: Mode, r: Result<M>)
    requires CreationRefused(s, mp, path, 0, r) && SplitPath(path) !in s.volumes[mp].files
    requires !mode.Read? && !mode.ReadWrite?
    ensures OpensOld(s, mp, path, mode, r)
  {
    hide WellFormed, SplitPath;
  }

  lemma OpenedNew<M>(s: System<M>, mp: string, path: string, mode: Mode, m: M)
    requires mp in s.volumes && WellFormed(s.volumes[mp]) && m !in s.volumes[mp].meta
    requires s.numOpen < s.maxOpen && SplitPath(path) !in s.volumes[mp].files
    requires !mode.Read? && !mode.ReadWrite? && OnPartition(s, mp, Op.Create(path, 0, m)).outcome.Ok?
    ensures var t := OnPartition(s, mp, Op.Create(path, 0, m)).after;
            && mp in t.volumes && m in t.volumes[mp].meta
            && SplitPath(path) in t.volumes[mp].files && t.volumes[mp].files[SplitPath(path)] == m
            && OpensNew(s, mp, path, mode, Result(Ok, WithHandle(t, mp, SplitPath(path), m, mode)), m)
  {
    hide SplitPath, MakeRoom, Wrap64;
  }

  lemma ApplyFinish<M>(v: Volume<M>, m: M, id: int)
    requires WellFormed(v) && Safe(v, Op.FinishWrite(m, id))
    ensures m in v.meta && Apply(v, Op.FinishWrite(m, id)).after == V.EndWrite(v, m, id)
  {
  }

  lemma ClashesWithItself(m: string)
    ensures Mounts.Clash(m, m)
  {
  }

  // The static counter of write_init_checks, shared by all files.
  class WriteIds {
    var last: int

    constructor ()
      ensures last == -1
    {
      last := -1;
    }
  }

  datatype Origin = Start | Current | End | Other(offset: int)

  class File {
    const path: string
    const accessMode: Mode
    const metadata: FileMetadata
    const partition: Partition
    // reached through the partition in the source
    const fileSystem: FileSystem
    var currentPosition: u64
    // The place of this handle among all handles, the key it was opened under, and its fate.
    ghost const index: nat
    ghost const mount: string
    ghost const key: Key
    ghost var open: bool

    ghost function AsHandle(): Handle<FileMetadata>
      reads this
    {
      Handle(mount, key, metadata, accessMode, currentPosition, open)
    }

    ghost predicate Attached()
      reads this, fileSystem
    {
      index < |fileSystem.files| && fileSystem.files[index] == this
    }

    // An open handle of a sound file system.
    ghost predicate Ready()
      reads this, fileSystem, fileSystem.partitions.Values, fileSystem.Metas(), fileSystem.files, fileSystem.writeIds
    {
      fileSystem.Valid() && Attached() && Usable(fileSystem.State(), index)
    }

    lemma HandleOf()
      requires Ready()
      ensures fileSystem.State().handles[index] == AsHandle() && open
      ensures mount in fileSystem.partitions && fileSystem.partitions[mount] == partition
      ensures fileSystem.State().volumes[mount] == partition.View()
      ensures fileSystem.State().nextId == fileSystem.writeIds.last + 1
      ensures fileSystem.State().numOpen == fileSystem.numOpenFiles
      ensures partition.Valid() && metadata in partition.metas
    {
      assert fileSystem.FileIsKnown(index);
    }

    constructor (path: string, accessMode: Mode, metadata: FileMetadata, partition: Partition,
                 fileSystem: FileSystem, ghost index: nat, ghost mount: string, ghost key: Key)
      ensures this.path == path && this.partition == partition && this.fileSystem == fileSystem && this.index == index
      ensures AsHandle() == Handle(mount, key, metadata, accessMode, 0, true)
    {
      this.path := path;
      this.accessMode := accessMode;
      this.metadata := metadata;
      this.partition := partition;
      this.fileSystem := fileSystem;
      this.index := index;
      this.mount := mount;
      this.key := key;
      currentPosition := 0;
      open := true;
    }

    lemma Known()
      requires fileSystem.Valid() && Attached()
      ensures fileSystem.FileIsKnown(index)
      ensures mount in fileSystem.State().volumes && fileSystem.State().volumes[mount] == partition.View()
      ensures WellFormed(partition.View())
    {
    }

    // A step that used this handle, and the partition of its file.
    twostate lemma AfterUse()
      requires old(fileSystem.Valid()) && old(Attached()) && Attached()
      requires mount in fileSystem.partitions && fileSystem.partitions[mount] == partition && partition.Valid()
      requires fileSystem.partitions == old(fileSystem.partitions)
      requires fileSystem.mountPoints == old(fileSystem.mountPoints)
      requires fileSystem.files == old(fileSystem.files)
      requires forall f :: f in fileSystem.files && f != this ==> f.AsHandle() == old(f.AsHandle())
      requires forall q :: q in fileSystem.partitions && q != mount ==>
                 && fileSystem.partitions[q].metas == old(fileSystem.partitions[q].metas)
                 && fileSystem.partitions[q].View() == old(fileSystem.partitions[q].View())
      requires old(partition.metas) <= partition.metas
      ensures fileSystem.Valid()
      ensures var s := old(fileSystem.State());
              fileSystem.State() == SetVolume(s, mount, partition.View()).(
                handles := s.handles[index := AsHandle()],
                numOpen := fileSystem.numOpenFiles,
                nextId := fileSystem.writeIds.last + 1)
    {
      hide WellFormed, Partition.View, Partition.Valid;
      fileSystem.AfterPartition(mount);
      fileSystem.AfterHandle(index);
    }

    // The added bytes of a write fit, or eviction can make room for them.
    ghost predicate RoomForWrite(numBytes: u64)
      reads this, metadata, partition, partition.metas
    {
      !accessMode.Read? ==>
        var pos := WritePosition(accessMode, currentPosition, metadata.futureSize);
        partition.CanMakeRoom(AddedBytes(pos, numBytes, metadata.futureSize))
    }

    // Makes room, reserves it and registers the size the file will have.
    method WriteInitChecks(numBytes: u64) returns (outcome: Outcome, id: int)
      requires partition.Valid() && metadata in partition.metas && RoomForWrite(numBytes)
      modifies this`currentPosition, fileSystem.writeIds, partition, partition.metas
      ensures partition.Valid() && partition.metas == old(partition.metas)
      ensures accessMode.Read? ==>
                && outcome.InvalidMode? && currentPosition == old(currentPosition)
                && partition.View() == old(partition.View())
      ensures !accessMode.Read? ==>
                && currentPosition == WritePosition(accessMode, old(currentPosition), old(metadata.futureSize))
                && var id := old(fileSystem.writeIds.last) + 1;
                   Reply(outcome, partition.View())
                   == V.StartWrite(old(partition.View()), metadata, id, currentPosition, numBytes)
      ensures fileSystem.writeIds.last == old(fileSystem.writeIds.last) + (if outcome.Ok? then 1 else 0)
      ensures outcome.Ok? ==> id == fileSystem.writeIds.last
      ensures !accessMode.Append? ==> currentPosition == old(currentPosition)
    {
      hide WellFormed, V.StartWrite, MakeRoom, Wrap64, Partition.CanMakeRoom, Partition.View;
      ghost var v, next := partition.View(), fileSystem.writeIds.last + 1;
      partition.ViewShows(metadata);
      id := -1;
      if accessMode.Read? {
        return InvalidMode, id;
      }
      if accessMode.Append? && currentPosition < metadata.futureSize {
        currentPosition := metadata.futureSize;
      }
      var addedBytes := 0;
      if Wrap64(currentPosition + numBytes) > metadata.futureSize {
        addedBytes := Wrap64(currentPosition + numBytes) - metadata.futureSize;
      }
      assert addedBytes == AddedBytes(currentPosition, numBytes, metadata.futureSize);
      StartWriteInRoom(v, metadata, next, currentPosition, numBytes);
      outcome := partition.MakeRoomFor(addedBytes);
      if !outcome.Ok? {
        return;
      }
      partition.ViewShows(metadata);
      id := Reserve(addedBytes);
      assert Reply(Ok, partition.View()) == V.StartWrite(v, metadata, next, currentPosition, numBytes);
    }

    // The part of write_init_checks after the checks.
    method Reserve(addedBytes: u64) returns (id: int)
      requires metadata in partition.metas && metadata.futureSize + addedBytes < TWO64
      modifies fileSystem.writeIds, partition`freeSpace, metadata
      ensures fileSystem.writeIds.last == old(fileSystem.writeIds.last) + 1 == id
      ensures var w, f := old(partition.View()), old(metadata.Rec());
              partition.View() == w.(free := Wrap64(w.free - addedBytes),
                                     meta := w.meta[metadata := f.WriteStarted(id, f.future + addedBytes)])
    {
      hide Content.Flat, Wrap64, Partition.View;
      partition.ViewShows(metadata);
      var newFileSize := metadata.futureSize + addedBytes;
      partition.DecreaseFreeSpace(addedBytes);
      fileSystem.writeIds.last := fileSystem.writeIds.last + 1;
      id := fileSystem.writeIds.last;
      partition.StartWrite(metadata, id, newFileSize);
    }

    // write_async, and the first half of a synchronous write that asks for at least one byte.
    method WriteAsync(numBytes: u64) returns (outcome: Outcome, id: int)
      requires Ready() && RoomForWrite(numBytes)
      modifies this`currentPosition, fileSystem.writeIds, partition, partition.metas
      ensures fileSystem.Valid()
      ensures Result(outcome, fileSystem.State()) == WriteTo(old(fileSystem.State()), index, numBytes)
      ensures outcome.Ok? ==> id == old(fileSystem.State()).nextId
      ensures !accessMode.Append? ==> currentPosition == old(currentPosition)
    {
      hide WellFormed, V.StartWrite, Partition.View, WritePosition, RoomForWrite;
      hide FileSystem.State, FileSystem.Views, FileSystem.FileHandles;
      ghost var s := fileSystem.State();
      HandleOf();
      partition.ViewShows(metadata);
      outcome, id := WriteInitChecks(numBytes);
      AfterUse();
      assert Result(outcome, fileSystem.State()) == WriteTo(s, index, numBytes);
    }

    // What happens when a write completes, whether or not the handle is still open.
    method CompleteWrite(id: int)
      requires fileSystem.Valid() && Attached() && fileSystem.FileIsKnown(index)
      requires WellFormed(partition.View()) && Safe(partition.View(), Op.FinishWrite(metadata, id))
      modifies partition, metadata
      ensures fileSystem.Valid()
      ensures fileSystem.State() == SetVolume(old(fileSystem.State()), mount,
                                              Apply(old(partition.View()), Op.FinishWrite(metadata, id)).after)
    {
      hide WellFormed, Partition.View, V.EndWrite, Wrap64, Mounts.Sorted;
      ghost var s := fileSystem.State();
      assert old(partition.Valid());
      partition.EndWrite(metadata, id);
      fileSystem.AfterPartition(mount);
      assert fileSystem.FileHandles() == s.handles;
    }

    // The file of an open handle outlives the room made for a write on it.
    lemma FileOutlivesRoom(bytes: u64)
      requires Ready() && HandlesAgree(fileSystem.State())
      ensures var r := WriteTo(fileSystem.State(), index, bytes);
              r.outcome.Ok? ==>
                var w := r.after.volumes[mount];
                WellFormed(w) && Safe(w, Op.FinishWrite(metadata, fileSystem.State().nextId))
    {
      hide WellFormed, Partition.View, V.CreateSpace, Index.Indexed, AddedBytes, WritePosition;
      HandleOf();
      var s := fileSystem.State();
      var v := s.volumes[mount];
      var pos := WritePosition(accessMode, currentPosition, v.meta[metadata].future);
      VolumeIsSound(s, mount);
      UsableIsInUse(s, index);
      Ledger.OpenFileSurvives(v, AddedBytes(pos, bytes, v.meta[metadata].future), metadata);
    }

    // A synchronous write that takes no simulated time; otherwise other steps come between its halves.
    method Write(numBytes: u64) returns (outcome: Outcome, written: u64)
      requires Ready() && HandlesAgree(fileSystem.State())
      modifies this`currentPosition, fileSystem.writeIds, partition, partition.metas
      ensures fileSystem.Valid()
      ensures !accessMode.Append? ==> currentPosition == old(currentPosition)
      ensures numBytes == 0 ==> outcome.Ok? && written == 0 && fileSystem.State() == old(fileSystem.State())
      ensures numBytes > 0 ==>
                var r := WriteTo(old(fileSystem.State()), index, numBytes);
                && outcome == r.outcome
                && (!outcome.Ok? ==> fileSystem.State() == r.after)
                && (outcome.Ok? ==>
                      && written == numBytes && mount in r.after.volumes && metadata in r.after.volumes[mount].meta
                      && fileSystem.State() == SetVolume(r.after, mount,
                           V.EndWrite(r.after.volumes[mount], metadata, old(fileSystem.State()).nextId)))
    {
      hide WellFormed, Partition.View, WriteTo, HandlesAgree, RoomForWrite, V.EndWrite, Safe, Usable;
      if numBytes == 0 {
        return Ok, 0;
      }
      HandleOf();
      fileSystem.AgreementIsEnough(this);
      FileOutlivesRoom(numBytes);
      ghost var s := fileSystem.State();
      var id;
      outcome, id := WriteAsync(numBytes);
      if !outcome.Ok? {
        return outcome, 0;
      }
      Known();
      ghost var t := fileSystem.State();
      assert t == WriteTo(s, index, numBytes).after && t.volumes[mount] == partition.View();
      ApplyFinish(partition.View(), metadata, id);
      hide FileSystem.State, FileSystem.Views, FileSystem.Valid;
      CompleteWrite(id);
      written := numBytes;
    }

    // The part shared by both reads.
    method Advance(numBytes: u64) returns (numBytesToRead: u64)
      requires Ready() && accessMode.Read?
      modifies this`currentPosition, partition, metadata
      ensures fileSystem.Valid()
      ensures fileSystem.State() == ReadFrom(old(fileSystem.State()), index, numBytes, true).after
      ensures numBytesToRead == Min(numBytes, Wrap64(old(metadata.currentSize) - old(currentPosition)))
      ensures currentPosition == Wrap64(old(currentPosition) + numBytesToRead)
    {
      hide WellFormed, Partition.View, V.AccessEvent;
      hide Wrap64, FileSystem.State, FileSystem.Views, FileSystem.FileHandles;
      ghost var s := fileSystem.State();
      HandleOf();
      partition.ViewShows(metadata);
      // An unsigned subtraction: it wraps for a position past the end.
      numBytesToRead := Min(numBytes, Wrap64(metadata.currentSize - currentPosition));
      currentPosition := Wrap64(currentPosition + numBytesToRead);
      partition.NewFileAccessEvent(metadata);
      AfterUse();
      assert fileSystem.State() == ReadFrom(s, index, numBytes, true).after;
    }

    method ReadAsync(numBytes: u64) returns (outcome: Outcome, numBytesToRead: u64)
      requires Ready()
      modifies this`currentPosition, partition, metadata
      ensures fileSystem.Valid()
      ensures Result(outcome, fileSystem.State()) == ReadFrom(old(fileSystem.State()), index, numBytes, true)
      ensures outcome.Ok? ==> numBytesToRead == Min(numBytes, Wrap64(old(metadata.currentSize) - old(currentPosition)))
      ensures currentPosition == Wrap64(old(currentPosition) + numBytesToRead)
    {
      hide WellFormed, Partition.View, V.AccessEvent, Wrap64;
      HandleOf();
      if !accessMode.Read? {
        return InvalidMode, 0;
      }
      numBytesToRead := Advance(numBytes);
      return Ok, numBytesToRead;
    }

    method Read(numBytes: u64) returns (outcome: Outcome, numBytesToRead: u64)
      requires Ready()
      modifies this`currentPosition, partition, metadata
      ensures fileSystem.Valid()
      ensures Result(outcome, fileSystem.State()) == ReadFrom(old(fileSystem.State()), index, numBytes, false)
      ensures outcome.Ok? ==> numBytesToRead == Min(numBytes, Wrap64(old(metadata.currentSize) - old(currentPosition)))
      ensures currentPosition == Wrap64(old(currentPosition) + numBytesToRead)
    {
      hide WellFormed, Partition.View, V.AccessEvent, Wrap64;
      HandleOf();
      if !accessMode.Read? {
        return InvalidMode, 0;
      }
      if numBytes == 0 {
        return Ok, 0;
      }
      numBytesToRead := Advance(numBytes);
      return Ok, numBytesToRead;
    }

    // Moving to `target`, in the 64 bits of a position: what sets the upper bit, as a negative number
    // does, is refused.
    twostate predicate SeeksTo(target: int, outcome: Outcome)
      requires old(Ready())
      reads this, fileSystem, fileSystem.partitions.Values, fileSystem.Metas(), fileSystem.files, fileSystem.writeIds
    {
      var s := old(fileSystem.State());
      && (if Wrap64(target) < TWO64 / 2
          then Result(outcome, fileSystem.State()) == Next(s, SeekHandle(index, Wrap64(target)))
          else outcome.InvalidSeek? && fileSystem.State() == s)
      && (0 <= target < TWO64 / 2 ==> outcome.Ok? && currentPosition == target)
      && (0 - TWO64 / 2 <= target < 0 ==> outcome.InvalidSeek? && currentPosition == old(currentPosition))
    }

    method Seek(pos: int, origin: Origin) returns (outcome: Outcome)
      requires Ready()
      modifies this`currentPosition
      ensures fileSystem.Valid()
      ensures origin.Start? ==> SeeksTo(pos, outcome)
      ensures origin.Current? ==> SeeksTo(old(currentPosition) + pos, outcome)
      ensures origin.End? ==> SeeksTo(old(metadata.currentSize) + pos, outcome)
      ensures origin.Other? ==> SeeksTo(origin.offset + pos, outcome)
    {
      hide WellFormed, Partition.View, FileSystem.State, FileSystem.Views, FileSystem.FileHandles;
      ghost var s := fileSystem.State();
      HandleOf();
      var target;
      match origin {
        case Start => target := Wrap64(pos);
        case Current => target := Wrap64(currentPosition + pos);
        case End => target := Wrap64(metadata.currentSize + pos);
        case Other(offset) => target := Wrap64(offset + pos);
      }
      if target >= TWO64 / 2 {
        return InvalidSeek;
      }
      currentPosition := target;
      AfterUse();
      assert s.volumes[mount := s.volumes[mount]] == s.volumes;
      return Ok;
    }

    method Close()
      requires Ready()
      modifies this`open, metadata, fileSystem`numOpenFiles
      ensures fileSystem.Valid()
      ensures fileSystem.State() == Closed(old(fileSystem.State()), index).after
    {
      hide WellFormed, Partition.View, Release, FileSystem.State, FileSystem.Views, FileSystem.FileHandles;
      ghost var s := fileSystem.State();
      HandleOf();
      partition.DecreaseFileRefcount(metadata);
      fileSystem.numOpenFiles := fileSystem.numOpenFiles - 1;
      open := false;
      AfterUse();
      assert fileSystem.State() == Closed(s, index).after;
    }
  }

  class FileSystem {
    const maxNumOpenFiles: int
    const writeIds: WriteIds
    var numOpenFiles: int
    // The keys of partitions_, in the order of the map.
    var mountPoints: seq<string>
    var partitions: map<string, Partition>
    // Every handle ever opened.
    ghost var files: seq<File>

    ghost function Metas(): set<FileMetadata>
      reads this, partitions.Values
    {
      set p, m | p in partitions.Values && m in p.metas :: m
    }

    ghost function Views(): map<string, Volume<FileMetadata>>
      reads this, partitions.Values, Metas()
    {
      map mp | mp in partitions :: partitions[mp].View()
    }

    ghost function FileHandles(): (hs: seq<Handle<FileMetadata>>)
      reads this, files
      ensures |hs| == |files| && forall i :: 0 <= i < |hs| ==> hs[i] == files[i].AsHandle()
    {
      seq(|files|, i requires 0 <= i < |files| reads this, files => files[i].AsHandle())
    }

    ghost function State(): System<FileMetadata>
      reads this, partitions.Values, Metas(), files, writeIds
    {
      System(Views(), FileHandles(), numOpenFiles, maxNumOpenFiles, writeIds.last + 1)
    }

    ghost predicate Valid()
      reads this, partitions.Values, Metas()
    {
      && (forall mp :: mp in mountPoints <==> mp in partitions)
      && Mounts.Sorted(mountPoints)
      && (forall a, b :: a in partitions && b in partitions && partitions[a] == partitions[b] ==> a == b)
      && (forall mp :: mp in partitions ==> partitions[mp].Valid())
      && (forall i :: 0 <= i < |files| ==> FileIsKnown(i))
    }

    ghost predicate FileIsKnown(i: nat)
      requires i < |files|
      reads this, partitions.Values
    {
      var f := files[i];
      && f.index == i && f.fileSystem == this
      && f.mount in partitions && f.partition == partitions[f.mount] && f.metadata in f.partition.metas
    }

    constructor (maxNumOpenFiles: int, writeIds: WriteIds)
      ensures Valid() && this.writeIds == writeIds
      ensures State() == System(map[], [], 0, maxNumOpenFiles, writeIds.last + 1)
    {
      this.maxNumOpenFiles := maxNumOpenFiles;
      this.writeIds := writeIds;
      numOpenFiles := 0;
      mountPoints := [];
      partitions := map[];
      files := [];
    }

    // A step that touched one handle touched no other.
    twostate lemma AfterHandle(i: nat)
      requires old(Valid()) && files == old(files) && i < |files|
      requires forall f :: f in files && f != files[i] ==> f.AsHandle() == old(f.AsHandle())
      ensures FileHandles() == old(FileHandles())[i := files[i].AsHandle()]
    {
      forall j | 0 <= j < |files| && j != i
        ensures files[j] != files[i]
      {
        assert old(FileIsKnown(j)) && old(FileIsKnown(i));
      }
    }

    // A step that touched one partition and its objects touched no other.
    twostate lemma AfterPartition(mp: string)
      requires old(Valid()) && mp in partitions && partitions[mp].Valid()
      requires partitions == old(partitions) && mountPoints == old(mountPoints) && files == old(files)
      requires forall q :: q in partitions && q != mp ==>
                 partitions[q].metas == old(partitions[q].metas) && partitions[q].View() == old(partitions[q].View())
      requires old(partitions[mp].metas) <= partitions[mp].metas
      ensures Valid() && Views() == old(Views())[mp := partitions[mp].View()]
    {
      hide WellFormed, Content.Flat, Partition.Records, Partition.View;
      forall q | q in partitions
        ensures partitions[q].Valid()
      {
        assert old(partitions[q].Valid());
      }
      forall i | 0 <= i < |files|
        ensures FileIsKnown(i)
      {
        assert old(FileIsKnown(i));
      }
    }

    // In a system whose handles agree with its partitions, every open handle can be used, and room
    // can be made on every partition.
    lemma AgreementIsEnough(f: File)
      requires Valid() && HandlesAgree(State()) && f in files && f.open
      ensures f.Ready() && forall n: u64 :: f.RoomForWrite(n)
      ensures forall mp, n: u64 :: mp in partitions ==> partitions[mp].CanMakeRoom(n)
    {
      hide WellFormed, Partition.View, Index.NoDangling, Index.Indexed;
      forall mp | mp in partitions
        ensures Index.NoDangling(partitions[mp].View())
      {
        assert Views()[mp] == partitions[mp].View();
        VolumeIsSound(State(), mp);
        Index.IndexedLeavesNothingDangling(partitions[mp].View());
      }
      var i :| 0 <= i < |files| && files[i] == f;
      assert FileIsKnown(i);
      assert Placed(State(), State().handles[i]);
    }

    // ---------------------------------------------------------------- mounting and resolving

    twostate lemma AfterMount(mp: string)
      requires old(Valid()) && mp in partitions && partitions[mp].Valid() && partitions[mp] !in old(partitions).Values
      requires partitions == old(partitions)[mp := partitions[mp]] && mp !in old(partitions)
      requires forall m :: m in mountPoints <==> m in old(mountPoints) || m == mp
      requires Mounts.Sorted(mountPoints) && files == old(files)
      requires forall q :: q in old(partitions) ==>
                 partitions[q].Valid() && partitions[q].metas == old(partitions[q].metas)
      ensures Valid()
    {
      hide WellFormed, Partition.View, Partition.Valid, Mounts.Sorted;
      forall a, b | a in partitions && b in partitions && partitions[a] == partitions[b]
        ensures a == b
      {
        assert a != mp ==> partitions[a] in old(partitions).Values;
        assert b != mp ==> partitions[b] in old(partitions).Values;
      }
      forall k | 0 <= k < |files|
        ensures FileIsKnown(k)
      {
        assert old(FileIsKnown(k));
      }
    }

    twostate lemma StateAfterMount(mp: string)
      requires mp in partitions && partitions == old(partitions)[mp := partitions[mp]] && files == old(files)
      requires numOpenFiles == old(numOpenFiles) && writeIds.last == old(writeIds.last)
      requires forall f :: f in files ==> f.AsHandle() == old(f.AsHandle())
      requires forall q :: q in old(partitions) && q != mp ==> partitions[q].View() == old(partitions[q].View())
      ensures State() == old(State()).(volumes := old(Views())[mp := partitions[mp].View()])
    {
      hide Partition.View;
      assert FileHandles() == old(FileHandles());
      assert Views() == old(Views())[mp := partitions[mp].View()];
    }

    // The loop of mount_partition.
    method IsFree(mountPoint: string) returns (free: bool)
      ensures free <==> forall m :: m in mountPoints ==> !Mounts.Clash(m, mountPoint)
      ensures free ==> mountPoint !in mountPoints
    {
      ClashesWithItself(mountPoint);
      hide Mounts.Clash;
      var i := 0;
      while i < |mountPoints|
        invariant i <= |mountPoints|
        invariant forall j :: 0 <= j < i ==> !Mounts.Clash(mountPoints[j], mountPoint)
      {
        if Mounts.Clash(mountPoints[i], mountPoint) {
          return false;
        }
        i := i + 1;
      }
      return true;
    }

    // The checks of mount_partition, and the name the partition gets.
    method CheckMountPoint(mountPoint: string) returns (ok: bool, cleanupMountPoint: string)
      ensures ok <==> Mounts.Accepts(mountPoints, mountPoint)
      ensures ok ==> cleanupMountPoint == Paths.Simplify(mountPoint) && cleanupMountPoint !in mountPoints
      ensures ok ==> Mounts.Mount(mountPoints, mountPoint) == Mounts.InsertSorted(mountPoints, cleanupMountPoint)
    {
      hide Mounts.InsertSorted, Paths.Simplify, Paths.StripTail, Mounts.Clash;
      cleanupMountPoint := Paths.RemoveTrailingSlashes(mountPoint);
      if Paths.Simplify(mountPoint) != cleanupMountPoint {
        return false, "";
      }
      ok := IsFree(cleanupMountPoint);
      if !ok {
        return;
      }
      Mounts.StoredIsSimplified(mountPoints, mountPoint);
      cleanupMountPoint := Paths.RemoveTrailingSlashes(cleanupMountPoint + "/");
    }

    method MountPartition(mountPoint: string, size: u64, scheme: Scheme) returns (outcome: Outcome)
      requires Valid()
      modifies this`mountPoints, this`partitions
      ensures Valid()
      ensures outcome.Ok? <==> Mounts.Accepts(old(mountPoints), mountPoint)
      ensures mountPoints == Mounts.Mount(old(mountPoints), mountPoint)
      ensures !outcome.Ok? ==> State() == old(State())
      ensures outcome.Ok? ==>
                State() == old(State()).(volumes := old(Views())[Paths.Simplify(mountPoint) := Mounted(scheme, size)])
    {
      hide WellFormed, Partition.View;
      hide Mounts.InsertSorted, Mounts.Lookup, Paths.Simplify, Paths.StripTail, Mounts.Accepts;
      ghost var s, views := State(), Views();
      var ok, cleanupMountPoint := CheckMountPoint(mountPoint);
      if !ok {
        return InvalidMount;
      }
      assert State() == s && Views() == State().volumes == views;
      hide Mounted, State, Views;
      AddPartition(cleanupMountPoint, size, scheme);
      return Ok;
    }

    // The switch of mount_partition.
    method AddPartition(mp: string, size: u64, scheme: Scheme)
      requires Valid() && mp !in mountPoints
      modifies this`mountPoints, this`partitions
      ensures Valid() && mountPoints == Mounts.InsertSorted(old(mountPoints), mp)
      ensures State() == old(State()).(volumes := old(Views())[mp := Mounted(scheme, size)])
    {
      hide WellFormed, Partition.View, Mounts.InsertSorted, Mounts.Sorted;
      ghost var s, views := State(), Views();
      var partition := new Partition(scheme, size);
      assert State() == s && Views() == State().volumes == views && partition.View() == Mounted(scheme, size);
      hide Mounted, State, Views;
      Register(mp, partition);
    }

    // partitions_[mp] = ...
    method Register(mp: string, partition: Partition)
      requires Valid() && mp !in mountPoints && partition.Valid()
      requires partition !in partitions.Values
      modifies this`mountPoints, this`partitions
      ensures Valid() && mountPoints == Mounts.InsertSorted(old(mountPoints), mp)
      ensures State() == old(State()).(volumes := old(Views())[mp := old(partition.View())])
    {
      hide WellFormed, Partition.View, Mounts.InsertSorted;
      Mounts.InsertKeepsSorted(mountPoints, mp);
      mountPoints := Mounts.InsertSorted(mountPoints, mp);
      partitions := partitions[mp := partition];
      AfterMount(mp);
      StateAfterMount(mp);
    }

    method FindPathAtMountPoint(simplifiedPath: string) returns (found: bool, mp: string, pathAtMountPoint: string)
      requires Valid()
      ensures found <==> Mounts.Lookup(mountPoints, simplifiedPath) < |mountPoints|
      ensures found ==> mp == mountPoints[Mounts.Lookup(mountPoints, simplifiedPath)] && mp in partitions
      ensures found <==> exists m :: m in mountPoints && m <= simplifiedPath
      ensures found ==> mp + pathAtMountPoint == simplifiedPath
    {
      var i := 0;
      while i < |mountPoints|
        invariant i <= |mountPoints|
        invariant forall j :: 0 <= j < i ==> !Mounts.IsAtMountPoint(simplifiedPath, mountPoints[j])
      {
        if Mounts.IsAtMountPoint(simplifiedPath, mountPoints[i]) {
          return true, mountPoints[i], simplifiedPath[|mountPoints[i]|..];
        }
        i := i + 1;
      }
      return false, "", "";
    }

    predicate Resolves(fullPath: string)
      reads this`mountPoints
    {
      Mounts.Lookup(mountPoints, Paths.Simplify(fullPath)) < |mountPoints|
    }

    function MountOf(fullPath: string): string
      requires Resolves(fullPath)
      reads this`mountPoints
    {
      mountPoints[Mounts.Lookup(mountPoints, Paths.Simplify(fullPath))]
    }

    function PathAtMount(fullPath: string): string
      requires Resolves(fullPath)
      reads this`mountPoints
    {
      Paths.Simplify(fullPath)[|MountOf(fullPath)|..]
    }

    // The whole state is what the operation makes of the old one.
    twostate predicate Stepped(mp: string, outcome: Outcome, new op: Op<FileMetadata>)
      reads this, partitions.Values, Metas(), files, writeIds
    {
      var s := old(State());
      && mp in s.volumes && WellFormed(s.volumes[mp]) && Safe(s.volumes[mp], op)
      && Result(outcome, State()) == OnPartition(s, mp, op)
    }

    // A step that touched one partition, and no handle and no counter.
    twostate lemma AfterStep(mp: string)
      requires old(Valid()) && mp in partitions && partitions[mp].Valid()
      requires partitions == old(partitions) && mountPoints == old(mountPoints) && files == old(files)
      requires numOpenFiles == old(numOpenFiles) && writeIds.last == old(writeIds.last)
      requires forall f :: f in files ==> f.AsHandle() == old(f.AsHandle())
      requires forall q :: q in partitions && q != mp ==>
                 partitions[q].metas == old(partitions[q].metas) && partitions[q].View() == old(partitions[q].View())
      requires old(partitions[mp].metas) <= partitions[mp].metas
      ensures Valid() && State() == SetVolume(old(State()), mp, partitions[mp].View())
      ensures var s := old(State());
              mp in s.volumes && s.volumes[mp] == old(partitions[mp].View()) && WellFormed(s.volumes[mp])
    {
      hide WellFormed, Partition.View;
      assert old(partitions[mp].Valid());
      AfterPartition(mp);
      assert FileHandles() == old(FileHandles());
    }

    // ---------------------------------------------------------------- files

    method Locate(fullPath: string) returns (found: bool, mp: string, path: string)
      requires Valid()
      ensures Valid() && State() == old(State()) && Metas() == old(Metas())
      ensures found <==> Resolves(fullPath)
      ensures found ==> mp == MountOf(fullPath) && path == PathAtMount(fullPath) && mp in partitions
    {
      hide WellFormed, Partition.View, Paths.Simplify;
      var simplifiedPath := Paths.Simplify(fullPath);
      found, mp, path := FindPathAtMountPoint(simplifiedPath);
    }

    method UnlinkFile(fullPath: string) returns (outcome: Outcome)
      requires Valid()
      modifies partitions.Values
      ensures Valid()
      ensures !Resolves(fullPath) ==> outcome.InvalidPath? && State() == old(State())
      ensures Resolves(fullPath) ==>
                Stepped(MountOf(fullPath), outcome, Op.Delete(SplitPath(PathAtMount(fullPath))))
    {
      hide WellFormed, Partition.View, V.DeleteFile, Safe;
      hide SplitPath, Resolves, MountOf, PathAtMount;
      hide OnPartition, SetVolume, State, Views, FileHandles;
      ghost var s := State();
      var found, mp, path := Locate(fullPath);
      if !found {
        return InvalidPath;
      }
      var partition, key := partitions[mp], SplitPath(path);
      outcome := partition.DeleteFile(key.dir, key.name);
      AfterStep(mp);
      StepOfPartition(s, State(), mp, outcome, partition.View(), Op.Delete(key));
      assert Stepped(mp, outcome, Op.Delete(key));
    }

    method TruncateFile(fullPath: string, size: u64) returns (outcome: Outcome)
      requires Valid()
      modifies partitions.Values, Metas()
      ensures Valid()
      ensures !Resolves(fullPath) ==> outcome.InvalidPath? && State() == old(State())
      ensures Resolves(fullPath) ==>
                Stepped(MountOf(fullPath), outcome, Op.Truncate(SplitPath(PathAtMount(fullPath)), size))
    {
      hide WellFormed, Partition.View, V.TruncateFile, Safe;
      hide SplitPath, Resolves, MountOf, PathAtMount;
      hide OnPartition, SetVolume, State, Views, FileHandles;
      ghost var s := State();
      var found, mp, path := Locate(fullPath);
      if !found {
        return InvalidPath;
      }
      var partition, key := partitions[mp], SplitPath(path);
      outcome := partition.TruncateFile(key.dir, key.name, size);
      AfterStep(mp);
      StepOfPartition(s, State(), mp, outcome, partition.View(), Op.Truncate(SplitPath(path), size));
      assert Stepped(mp, outcome, Op.Truncate(SplitPath(path), size));
    }

    method MakeFileEvictable(fullPath: string, evictable: bool) returns (outcome: Outcome)
      requires Valid()
      modifies Metas()
      ensures Valid()
      ensures !Resolves(fullPath) ==> outcome.InvalidPath? && State() == old(State())
      ensures Resolves(fullPath) ==>
                Stepped(MountOf(fullPath), outcome, Op.SetEvictable(SplitPath(PathAtMount(fullPath)), evictable))
    {
      hide WellFormed, Partition.View, V.MakeEvictable, Safe;
      hide SplitPath, Resolves, MountOf, PathAtMount;
      hide OnPartition, SetVolume, State, Views, FileHandles;
      ghost var s := State();
      var found, mp, path := Locate(fullPath);
      if !found {
        return InvalidPath;
      }
      var partition, key := partitions[mp], SplitPath(path);
      outcome := partition.MakeFileEvictable(key.dir, key.name, evictable);
      AfterStep(mp);
      StepOfPartition(s, State(), mp, outcome, partition.View(), Op.SetEvictable(SplitPath(path), evictable));
      assert Stepped(mp, outcome, Op.SetEvictable(SplitPath(path), evictable));
    }

    method UnlinkDirectory(fullPath: string) returns (outcome: Outcome)
      requires Valid()
      modifies partitions.Values
      ensures Valid()
      ensures !Resolves(fullPath) ==> outcome.InvalidPath? && State() == old(State())
      ensures Resolves(fullPath) ==> Stepped(MountOf(fullPath), outcome, Op.RemoveDirectory(PathAtMount(fullPath)))
    {
      hide WellFormed, Partition.View, V.DeleteDirectory, Safe;
      hide SplitPath, Resolves, MountOf, PathAtMount;
      hide OnPartition, SetVolume, State, Views, FileHandles;
      ghost var s := State();
      var found, mp, path := Locate(fullPath);
      if !found {
        return InvalidPath;
      }
      var partition := partitions[mp];
      outcome := partition.DeleteDirectory(path);
      AfterStep(mp);
      StepOfPartition(s, State(), mp, outcome, partition.View(), Op.RemoveDirectory(path));
      assert Stepped(mp, outcome, Op.RemoveDirectory(path));
    }

    // No move across partitions.
    method MoveFile(srcFullPath: string, dstFullPath: string) returns (outcome: Outcome)
      requires Valid()
      modifies partitions.Values, Metas()
      ensures Valid()
      ensures !Resolves(srcFullPath) || !Resolves(dstFullPath) ==> outcome.InvalidPath? && State() == old(State())
      ensures Resolves(srcFullPath) && Resolves(dstFullPath) ==>
                if MountOf(srcFullPath) != MountOf(dstFullPath) then outcome.InvalidMove? && State() == old(State())
                else Stepped(MountOf(srcFullPath), outcome,
                             Op.Move(SplitPath(PathAtMount(srcFullPath)), SplitPath(PathAtMount(dstFullPath))))
    {
      hide WellFormed, Partition.View, V.MoveFile, Safe;
      hide SplitPath, Resolves, MountOf, PathAtMount;
      hide OnPartition, SetVolume, State, Views, FileHandles;
      ghost var s := State();
      var foundSrc, srcMount, srcPath := Locate(srcFullPath);
      if !foundSrc {
        return InvalidPath;
      }
      var foundDst, dstMount, dstPath := Locate(dstFullPath);
      if !foundDst {
        return InvalidPath;
      }
      if partitions[srcMount] != partitions[dstMount] {
        return InvalidMove;
      }
      var partition, src, dst := partitions[srcMount], SplitPath(srcPath), SplitPath(dstPath);
      outcome := partition.MoveFile(src.dir, src.name, dst.dir, dst.name);
      AfterStep(srcMount);
      StepOfPartition(s, State(), srcMount, outcome, partition.View(), Op.Move(src, dst));
      assert Stepped(srcMount, outcome, Op.Move(src, dst));
    }

    // ---------------------------------------------------------------- directories

    lemma SimplifiedResolvesAlike(fullPath: string)
      ensures var p := Paths.Simplify(fullPath);
              && (Resolves(p) <==> Resolves(fullPath))
              && (Resolves(p) ==> MountOf(p) == MountOf(fullPath) && PathAtMount(p) == PathAtMount(fullPath))
    {
      Paths.SimplifyIsIdempotent(fullPath);
      hide Paths.Simplify;
    }

    method FileExists(fullPath: string) returns (isFile: bool)
      requires Valid()
      ensures Valid() && State() == old(State()) && Views() == old(Views())
      ensures isFile <==> Resolves(fullPath) && MountOf(fullPath) in Views()
                           && SplitPath(PathAtMount(fullPath)) in Views()[MountOf(fullPath)].files
    {
      hide WellFormed, Partition.View, SplitPath, Resolves, MountOf, PathAtMount;
      var found, mp, path := Locate(fullPath);
      if !found {
        return false;
      }
      var key := SplitPath(path);
      var m := partitions[mp].GetFileMetadata(key.dir, key.name);
      return m != null;
    }

    method CreateDirectory(fullPath: string) returns (outcome: Outcome)
      requires Valid()
      modifies partitions.Values
      ensures Valid()
      ensures !Resolves(fullPath) ==> outcome.InvalidPath? && State() == old(State())
      ensures Resolves(fullPath) && MountOf(fullPath) in old(Views()) ==>
                if SplitPath(PathAtMount(fullPath)) in old(Views())[MountOf(fullPath)].files
                then outcome.InvalidPath? && State() == old(State())
                else Stepped(MountOf(fullPath), outcome, Op.MakeDirectory(PathAtMount(fullPath)))
    {
      hide Safe, WellFormed;
      hide SplitPath, Resolves, MountOf, PathAtMount;
      hide OnPartition, State, Views, Valid, Paths.Simplify;
      var simplifiedPath := Paths.Simplify(fullPath);
      SimplifiedResolvesAlike(fullPath);
      var isFile := FileExists(simplifiedPath);
      if isFile {
        return InvalidPath;
      }
      outcome := AddDirectory(fullPath);
    }

    // The part of create_directory after the check.
    method AddDirectory(fullPath: string) returns (outcome: Outcome)
      requires Valid()
      modifies partitions.Values
      ensures Valid()
      ensures !Resolves(fullPath) ==> outcome.InvalidPath? && State() == old(State())
      ensures Resolves(fullPath) ==> Stepped(MountOf(fullPath), outcome, Op.MakeDirectory(PathAtMount(fullPath)))
    {
      hide WellFormed, Partition.View, V.CreateDirectory, Safe;
      hide SplitPath, Resolves, MountOf, PathAtMount;
      hide OnPartition, SetVolume, State, Views, FileHandles;
      ghost var s := State();
      var found, mp, path := Locate(fullPath);
      if !found {
        return InvalidPath;
      }
      var partition := partitions[mp];
      outcome := partition.CreateNewDirectory(path);
      AfterStep(mp);
      StepOfPartition(s, State(), mp, outcome, partition.View(), Op.MakeDirectory(path));
      assert Stepped(mp, outcome, Op.MakeDirectory(path));
    }

    // ---------------------------------------------------------------- creating and opening

    // A new file that is not refused for its name fits, or eviction can make room for it.
    ghost predicate RoomToCreate(partition: Partition, path: string, size: u64)
      reads partition, partition.metas
    {
      var v := partition.View();
      path !in v.dirs && SplitPath(path) !in v.files ==> partition.CanMakeRoom(size)
    }

    // The part of create_file after the path is resolved.
    method CreateIn(partition: Partition, path: string, size: u64) returns (outcome: Outcome, ghost m: FileMetadata?)
      requires partition.Valid() && RoomToCreate(partition, path, size)
      modifies partition
      ensures partition.Valid() && old(partition.metas) <= partition.metas
      ensures outcome.Ok? <==> m != null
      ensures m != null ==> fresh(m) && m !in old(partition.metas)
      ensures m != null ==> Reply(outcome, partition.View()) == V.CreateFile(old(partition.View()), path, size, m)
      ensures m == null ==>
                var v := old(partition.View());
                if path in v.dirs then outcome.InvalidPath? && partition.View() == v
                else if SplitPath(path) in v.files then outcome.FileAlreadyExists? && partition.View() == v
                else Reply(outcome, partition.View()) == MakeRoom(v, size)
    {
      hide WellFormed, MakeRoom, V.CreateNewFile, SplitPath, Partition.CanMakeRoom;
      if partition.DirectoryExists(path) {
        return InvalidPath, null;
      }
      var key := SplitPath(path);
      outcome, m := partition.CreateNewFile(key.dir, key.name, size);
    }

    method CreateFile(fullPath: string, size: u64) returns (outcome: Outcome, ghost m: FileMetadata?)
      requires Valid()
      requires Resolves(fullPath) && MountOf(fullPath) in partitions ==>
                 RoomToCreate(partitions[MountOf(fullPath)], PathAtMount(fullPath), size)
      modifies partitions.Values
      ensures Valid()
      ensures !Resolves(fullPath) ==> outcome.InvalidPath? && m == null && State() == old(State())
      ensures outcome.Ok? <==> m != null
      ensures m != null ==> fresh(m)
      ensures Resolves(fullPath) && m != null ==>
                Stepped(MountOf(fullPath), outcome, Op.Create(PathAtMount(fullPath), size, m))
      ensures Resolves(fullPath) && m == null ==>
                CreationRefused(old(State()), MountOf(fullPath), PathAtMount(fullPath), size, Result(outcome, State()))
      ensures m == null && old(HandlesAgree(State())) ==> State() == old(State())
    {
      hide WellFormed, Partition.View, V.CreateFile;
      hide SplitPath, Resolves, MountOf, PathAtMount;
      hide MakeRoom, OnPartition, SetVolume, State, Views, FileHandles, RoomToCreate;
      ghost var s := State();
      m := null;
      var found, mp, path := Locate(fullPath);
      if !found {
        return InvalidPath, null;
      }
      var partition := partitions[mp];
      ghost var v := partition.View();
      partition.ViewKnowsAll();
      outcome, m := CreateIn(partition, path, size);
      AfterStep(mp);
      assert s.volumes[mp] == v && State() == SetVolume(s, mp, partition.View());
      if m != null {
        CreationOfPartition(s, State(), mp, outcome, partition.View(), path, size, m);
        assert Stepped(mp, outcome, Op.Create(path, size, m));
      } else {
        RefusalOfPartition(s, mp, outcome, partition.View(), path, size);
        if HandlesAgree(s) {
          RefusedCreationIsNoStep(s, mp, path, size, Result(outcome, State()));
        }
      }
    }

    // A new handle on an object of a partition.
    method AddHandle(simplifiedPath: string, accessMode: Mode, m: FileMetadata, ghost mp: string, ghost key: Key,
                     partition: Partition) returns (file: File)
      requires Valid() && mp in partitions && partitions[mp] == partition && m in partition.metas
      modifies this`numOpenFiles, this`files, m
      ensures Valid() && fresh(file) && files == old(files) + [file] && file.path == simplifiedPath && file.open
      ensures mp in old(State()).volumes && m in old(State()).volumes[mp].meta
      ensures State() == WithHandle(old(State()), mp, key, m, accessMode)
    {
      hide WellFormed, Partition.View, State, Views, FileHandles, Partition.Valid, Retain, Valid;
      RetainFile(m, mp, partition);
      file := NewHandle(simplifiedPath, accessMode, m, mp, key, partition);
    }

    method AddHandleAt(simplifiedPath: string, accessMode: Mode, key: Key, ghost mp: string, ghost m: FileMetadata,
                       partition: Partition) returns (file: File)
      requires Valid() && mp in partitions && partitions[mp] == partition
      requires key in partition.View().files && partition.View().files[key] == m
      modifies this`numOpenFiles, this`files, m
      ensures Valid() && fresh(file) && files == old(files) + [file] && file.path == simplifiedPath && file.open
      ensures mp in old(State()).volumes && m in old(State()).volumes[mp].meta
      ensures State() == WithHandle(old(State()), mp, key, m, accessMode)
    {
      hide WellFormed, Partition.View, Retain, WithHandle;
      ghost var s := State();
      var metadata := partition.GetFileMetadata(key.dir, key.name);
      assert State() == s;
      hide State, Views, FileHandles;
      file := AddHandle(simplifiedPath, accessMode, metadata, mp, key, partition);
    }

    method RetainFile(m: FileMetadata, ghost mp: string, partition: Partition)
      requires Valid() && mp in partitions && partitions[mp] == partition && m in partition.metas
      modifies m
      ensures Valid() && mp in old(State()).volumes && m in old(State()).volumes[mp].meta
      ensures var w := Retain(old(State()).volumes[mp], m);
              State() == SetVolume(old(State()), mp, w) && w.meta[m].current == m.currentSize
    {
      hide WellFormed, Partition.View;
      partition.ViewShows(m);
      partition.IncreaseFileRefcount(m);
      partition.ViewShows(m);
      AfterStep(mp);
    }

    method NewHandle(simplifiedPath: string, accessMode: Mode, m: FileMetadata, ghost mp: string, ghost key: Key,
                     partition: Partition) returns (file: File)
      requires Valid() && mp in partitions && partitions[mp] == partition && m in partition.metas
      modifies this`numOpenFiles, this`files
      ensures Valid() && fresh(file) && files == old(files) + [file] && file.path == simplifiedPath && file.open
      ensures var s := old(State());
              var pos := if accessMode.Append? then old(m.currentSize) else 0;
              var h := Handle(mp, key, m, accessMode, pos, true);
              State() == s.(handles := s.handles + [h], numOpen := s.numOpen + 1)
    {
      hide WellFormed, Partition.View, Partition.Valid, Views;
      file := NewFile(simplifiedPath, accessMode, m, mp, key, partition);
      EnterHandle(file);
    }

    method NewFile(simplifiedPath: string, accessMode: Mode, m: FileMetadata, ghost mp: string, ghost key: Key,
                   partition: Partition) returns (file: File)
      requires Valid() && mp in partitions && partitions[mp] == partition && m in partition.metas
      ensures Valid() && State() == old(State()) && FileHandles() == old(FileHandles())
      ensures fresh(file) && file.path == simplifiedPath && file.fileSystem == this && file.index == |files|
      ensures file.partition == partition
      ensures file.AsHandle() == Handle(mp, key, m, accessMode, if accessMode.Append? then m.currentSize else 0, true)
    {
      hide WellFormed, Partition.View, Partition.Valid, Partition.Records, Mounts.Sorted;
      ghost var s := State();
      file := new File(simplifiedPath, accessMode, m, partition, this, |files|, mp, key);
      if accessMode.Append? {
        file.currentPosition := m.currentSize;
      }
      assert State() == s;
    }

    method EnterHandle(file: File)
      requires Valid() && file.index == |files| && file.fileSystem == this && file.mount in partitions
      requires file.partition == partitions[file.mount] && file.metadata in file.partition.metas
      modifies this`numOpenFiles, this`files
      ensures Valid() && files == old(files) + [file]
      ensures var handles := old(FileHandles()) + [file.AsHandle()];
              State() == old(State()).(handles := handles, numOpen := old(numOpenFiles) + 1)
    {
      hide WellFormed, Partition.View, Partition.Valid;
      numOpenFiles := numOpenFiles + 1;
      files := files + [file];
      forall k | 0 <= k < |files|
        ensures FileIsKnown(k)
      {
        assert k < |old(files)| ==> old(FileIsKnown(k));
      }
      assert FileHandles() == old(FileHandles()) + [file.AsHandle()];
      assert Views() == old(Views());
    }

    // The handle that was entered last can be used.
    lemma LastIsReady(file: File)
      requires Valid() && |files| > 0 && files[|files| - 1] == file && file.open
      ensures file.fileSystem == this && file.Ready()
    {
      hide WellFormed, Partition.View;
      assert FileIsKnown(|files| - 1);
      file.partition.ViewShows(file.metadata);
    }

    // open, for a file that exists.
    method OpenOld(simplifiedPath: string, accessMode: Mode, m: FileMetadata, ghost mp: string, ghost path: string,
                   partition: Partition) returns (file: File)
      requires Valid() && mp in partitions && partitions[mp] == partition && m in partition.metas
      requires SplitPath(path) in partition.View().files && partition.View().files[SplitPath(path)] == m
      requires numOpenFiles < maxNumOpenFiles
      modifies this`numOpenFiles, this`files, partition, m
      ensures Valid() && fresh(file) && files == old(files) + [file] && file.path == simplifiedPath && file.open
      ensures OpensOld(old(State()), mp, path, accessMode, Result(Ok, State()))
    {
      hide WellFormed, Partition.View, SplitPath, V.ResetFile, Retain, WithHandle, OpensOld;
      ghost var s := State();
      partition.ViewKnowsAll();
      if accessMode.Write? {
        partition.ResetFile(m);
      }
      AfterStep(mp);
      ghost var t := State();
      file := AddHandle(simplifiedPath, accessMode, m, mp, SplitPath(path), partition);
      OpenedOld(s, mp, path, accessMode);
    }

    // open, for a file that does not exist: it is created unless the mode needs it to exist.
    method OpenNew(fullPath: string, accessMode: Mode, ghost mp: string, path: string, partition: Partition)
      returns (outcome: Outcome, file: File?, ghost m: FileMetadata?)
      requires Valid() && Resolves(fullPath)
      requires mp == MountOf(fullPath) && path == PathAtMount(fullPath)
      requires mp in partitions && partitions[mp] == partition && SplitPath(path) !in partition.View().files
      requires numOpenFiles < maxNumOpenFiles
      modifies this`numOpenFiles, this`files, partitions.Values
      ensures Valid()
      ensures outcome.Ok? <==> file != null
      ensures file != null ==>
                && fresh(file) && files == old(files) + [file] && file.path == Paths.Simplify(fullPath) && file.open
      ensures m == null ==> OpensOld(old(State()), mp, path, accessMode, Result(outcome, State()))
      ensures m != null ==> fresh(m) && OpensNew(old(State()), mp, path, accessMode, Result(outcome, State()), m)
    {
      hide WellFormed, Partition.View, V.CreateFile;
      hide SplitPath, Resolves, MountOf, PathAtMount;
      hide Retain, WithHandle, OnPartition, OpensOld, OpensNew, CreationRefused;
      ghost var s := State();
      partition.ViewKnowsAll();
      file, m := null, null;
      if accessMode.Read? || accessMode.ReadWrite? {
        OpenedMissing(s, mp, path, accessMode);
        return FileNotFound, null, null;
      }
      outcome, m := CreateFile(fullPath, 0);
      if !outcome.Ok? {
        OpenedRefused(s, mp, path, accessMode, Result(outcome, State()));
        return;
      }
      assert Stepped(mp, outcome, Op.Create(path, 0, m));
      OpenedNew(s, mp, path, accessMode, m);
      assert State() == OnPartition(s, mp, Op.Create(path, 0, m)).after && State().volumes[mp] == partition.View();
      hide State, Views, FileHandles, Valid, Partition.Valid;
      ghost var t := State();
      file := AddHandleAt(Paths.Simplify(fullPath), accessMode, SplitPath(path), mp, m, partition);
    }

    // open, once the path is resolved.
    method OpenFound(fullPath: string, accessMode: Mode, mp: string, path: string)
      returns (outcome: Outcome, file: File?, ghost m: FileMetadata?)
      requires Valid() && Resolves(fullPath)
      requires mp == MountOf(fullPath) && path == PathAtMount(fullPath) && mp in partitions
      requires numOpenFiles < maxNumOpenFiles
      modifies this`numOpenFiles, this`files, partitions.Values, Metas()
      ensures Valid()
      ensures outcome.Ok? <==> file != null
      ensures file != null ==>
                && fresh(file) && files == old(files) + [file] && file.path == Paths.Simplify(fullPath) && file.open
      ensures m == null ==> OpensOld(old(State()), mp, path, accessMode, Result(outcome, State()))
      ensures m != null ==> fresh(m) && OpensNew(old(State()), mp, path, accessMode, Result(outcome, State()), m)
    {
      hide WellFormed, Partition.View, SplitPath, Resolves, MountOf, PathAtMount, OpensOld, OpensNew;
      ghost var s := State();
      var partition, key := partitions[mp], SplitPath(path);
      var metadata := partition.GetFileMetadata(key.dir, key.name);
      assert State() == s && partition.metas <= Metas();
      m := null;
      if metadata != null {
        file := OpenOld(Paths.Simplify(fullPath), accessMode, metadata, mp, path, partition);
        outcome := Ok;
      } else {
        outcome, file, m := OpenNew(fullPath, accessMode, mp, path, partition);
      }
    }

    method Open(fullPath: string, accessMode: Mode) returns (outcome: Outcome, file: File?, ghost m: FileMetadata?)
      requires Valid()
      modifies this`numOpenFiles, this`files, partitions.Values, Metas()
      ensures Valid()
      ensures outcome.Ok? <==> file != null
      ensures file != null ==>
                && fresh(file) && files == old(files) + [file] && file.path == Paths.Simplify(fullPath)
                && file.fileSystem == this && file.Ready()
      ensures old(numOpenFiles) >= maxNumOpenFiles ==> outcome.TooManyOpenFiles? && State() == old(State())
      ensures old(numOpenFiles) < maxNumOpenFiles && !Resolves(fullPath) ==>
                outcome.InvalidPath? && State() == old(State())
      ensures old(numOpenFiles) < maxNumOpenFiles && Resolves(fullPath) ==>
                var s, r, mp, path := old(State()), Result(outcome, State()), MountOf(fullPath), PathAtMount(fullPath);
                && (m == null ==> OpensOld(s, mp, path, accessMode, r))
                && (m != null ==> fresh(m) && OpensNew(s, mp, path, accessMode, r, m))
    {
      hide WellFormed, Partition.View, SplitPath, Resolves, MountOf, PathAtMount, OpensOld, OpensNew;
      file, m := null, null;
      if numOpenFiles >= maxNumOpenFiles {
        return TooManyOpenFiles, null, null;
      }
      var found, mp, path := Locate(fullPath);
      if !found {
        return InvalidPath, null, null;
      }
      outcome, file, m := OpenFound(fullPath, accessMode, mp, path);
      if file != null {
        LastIsReady(file);
      }
    }
  }
}
