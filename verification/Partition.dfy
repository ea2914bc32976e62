// The classes FileMetadata and Partition; the virtual methods of the two caching partitions are
// selected by the scheme. Every method does to the fields what the functions of Volumes do to
// the partition's abstract state.
module Partitions {
  import opened Words
  import opened Volumes
  import opened Content
  import V = Volumes
  import Index
  import Ledger

  // Selection picked up in the middle of the list.
  ghost function Resumed<M>(v: Volume<M>, rest: seq<nat>, taken: seq<nat>, total: u64, n: u64): (seq<nat>, u64)
    requires WellFormed(v)
    requires forall r :: r in rest ==> r in v.priority
  {
    var (more, sum) := Select(v, rest, total, n);
    (taken + more, sum)
  }

  lemma ResumeOne<M>(v: Volume<M>, rest: seq<nat>, taken: seq<nat>, total: u64, n: u64)
    requires WellFormed(v) && rest != []
    requires forall r :: r in rest ==> r in v.priority
    ensures var f := v.meta[v.priority[rest[0]]];
            Resumed(v, rest, taken, total, n) ==
            if !f.IsVictim() then Resumed(v, rest[1..], taken, total, n)
            else if Wrap64(total + f.current) >= n then (taken + [rest[0]], Wrap64(total + f.current))
            else Resumed(v, rest[1..], taken + [rest[0]], Wrap64(total + f.current), n)
  {
    var f := v.meta[v.priority[rest[0]]];
    if f.IsVictim() && Wrap64(total + f.current) < n {
      var more := Select(v, rest[1..], Wrap64(total + f.current), n).0;
      assert taken + ([rest[0]] + more) == taken + [rest[0]] + more;
    }
  }

  lemma PriorityIsKnown<M>(v: Volume<M>, r: nat)
    requires WellFormed(v) && r in v.priority
    ensures v.priority[r] in v.meta
  {
  }

  // The files of a directory whose names are no longer among the rest.
  ghost function Passed<M>(files: map<string, M>, rest: set<string>): set<M> {
    set n | n in files && n !in rest :: files[n]
  }

  lemma NothingPassed<M>(files: map<string, M>)
    ensures Passed(files, files.Keys) == {}
  {
  }

  lemma PassOne<M>(files: map<string, M>, name: string, rest: set<string>)
    requires name in rest && name in files
    ensures Passed(files, rest - {name}) == {files[name]} + Passed(files, rest)
  {
  }

  lemma AddCurrent<M>(meta: map<M, FileRec>, seen: set<M>, m: M)
    requires m in meta && m !in seen
    ensures Wrap64(Wrap64(SumCurrent(meta, seen)) + meta[m].current) == Wrap64(SumCurrent(meta, {m} + seen))
  {
    hide SumCurrent;
    Ledger.SumOneMore(meta, seen, m);
    WrapAdd(SumCurrent(meta, seen), meta[m].current);
  }

  class FileMetadata {
    const partition: Partition
    const dirPath: string
    var fileName: string
    var currentSize: u64
    var futureSize: u64
    var ongoingWrites: map<int, u64>
    var refCount: u32
    var sequenceNumber: nat
    var evictable: bool

    ghost function Rec(): FileRec
      reads this
    {
      FileRec(dirPath, fileName, currentSize, futureSize, ongoingWrites, refCount, sequenceNumber, evictable)
    }

    // The constructor registers the object with its partition: creation event, then access event.
    constructor (initialSize: u64, partition: Partition, dirPath: string, fileName: string)
      requires partition.Valid()
      modifies partition
      ensures this.partition == partition && partition.metas == old(partition.metas) + {this}
      ensures partition.Valid()
      ensures var v := old(partition.View());
              var f := FileRec(dirPath, fileName, initialSize, initialSize, map[], 0, 0, true);
              && WellFormed(v.(meta := v.meta[this := f]))
              && partition.View() == Enter(v.(meta := v.meta[this := f]), this)
    {
      this.partition := partition;
      this.dirPath := dirPath;
      this.fileName := fileName;
      currentSize := initialSize;
      futureSize := initialSize;
      ongoingWrites := map[];
      refCount := 0;
      sequenceNumber := 0;
      evictable := true;
      new;
      hide WellFormed, AccessEvent, CreationEvent, Enter, Flat;
      ghost var v := partition.View();
      V.AddingObjectKeepsWellFormed(v, this, Rec());
      V.EnterIs(v.(meta := v.meta[this := Rec()]), this);
      partition.Adopt(this);
      partition.NewFileCreationEvent(this);
      partition.NewFileAccessEvent(this);
    }

    method NotifyWriteStart(id: int, newSize: u64)
      modifies this
      ensures Rec() == old(Rec()).WriteStarted(id, newSize)
    {
      ongoingWrites := ongoingWrites[id := newSize];
      futureSize := Max(newSize, futureSize);
    }

    method NotifyWriteEnd(id: int)
      modifies this
      ensures Rec() == old(Rec()).WriteEnded(id)
    {
      if id !in ongoingWrites {
        return;
      }
      currentSize := ongoingWrites[id];
      ongoingWrites := ongoingWrites - {id};
    }
  }

  class Partition {
    const scheme: Scheme
    const size: u64
    var freeSpace: u64
    var content: map<string, map<string, FileMetadata>>
    var priorityList: map<nat, FileMetadata>
    var sequenceNumber: nat
    // Every metadata object ever created for this partition.
    ghost var metas: set<FileMetadata>

    ghost function Records(): map<FileMetadata, FileRec>
      reads this, metas
    {
      map m | m in metas :: m.Rec()
    }

    ghost function View(): Volume<FileMetadata>
      reads this, metas
    {
      Volume(scheme, size, freeSpace, content.Keys, Flat(content), priorityList, sequenceNumber, Records())
    }

    ghost predicate Valid()
      reads this, metas
    {
      WellFormed(View()) && forall m :: m in metas ==> m.partition == this
    }

    constructor (scheme: Scheme, size: u64)
      ensures Valid() && metas == {} && View() == Mounted(scheme, size)
      ensures View() == Volume(scheme, size, size, {}, map[], map[], 0, map[])
    {
      this.scheme := scheme;
      this.size := size;
      freeSpace := size;
      content := map[];
      priorityList := map[];
      sequenceNumber := 0;
      metas := {};
      new;
      assert View() == Mounted(scheme, size);
    }

    method GetFileMetadata(dirPath: string, fileName: string) returns (m: FileMetadata?)
      requires Valid()
      ensures m == null <==> Key(dirPath, fileName) !in View().files
      ensures m != null ==> m in metas && View().files[Key(dirPath, fileName)] == m
    {
      FlatLookup(content, dirPath, fileName);
      if dirPath in content && fileName in content[dirPath] {
        m := content[dirPath][fileName];
        assert m in View().meta;
      } else {
        m := null;
      }
    }

    lemma ViewShows(m: FileMetadata)
      requires m in metas
      ensures m in View().meta && View().meta[m] == m.Rec()
      ensures View().free == freeSpace && View().scheme == scheme
    {
    }

    lemma ViewKnowsAll()
      ensures View().meta.Keys == metas
    {
    }

    // ---------------------------------------------------------------- events

    ghost method Adopt(m: FileMetadata)
      requires m !in metas
      modifies this`metas
      ensures metas == old(metas) + {m}
      ensures View() == old(View()).(meta := old(View()).meta[m := m.Rec()])
    {
      metas := metas + {m};
      assert Records() == old(Records())[m := m.Rec()];
    }

    // Gives the object the next sequence number.
    method Renumber(m: FileMetadata)
      requires m in metas
      modifies this`sequenceNumber, m`sequenceNumber
      ensures View() == old(View()).(
                meta := old(View()).meta[m := old(m.Rec()).(rank := old(sequenceNumber))],
                counter := old(sequenceNumber) + 1)
      ensures m.sequenceNumber == old(sequenceNumber)
    {
      m.sequenceNumber := sequenceNumber;
      sequenceNumber := sequenceNumber + 1;
      assert Records() == old(Records())[m := old(m.Rec()).(rank := m.sequenceNumber)];
    }

    method AddToPriorityList(m: FileMetadata)
      modifies this`priorityList
      ensures View() == old(View()).(priority := old(View()).priority[m.sequenceNumber := m])
    {
      priorityList := priorityList[m.sequenceNumber := m];
      assert Records() == old(Records());
    }

    method RmFromPriorityList(m: FileMetadata)
      modifies this`priorityList
      ensures View() == old(View()).(priority := old(View()).priority - {m.sequenceNumber})
    {
      priorityList := priorityList - {m.sequenceNumber};
      assert Records() == old(Records());
    }

    method NewFileCreationEvent(m: FileMetadata)
      requires m in metas
      modifies this, m`sequenceNumber
      ensures metas == old(metas)
      ensures View() == CreationEvent(old(View()), m)
    {
      if !scheme.NoCaching? {
        Renumber(m);
        AddToPriorityList(m);
        assert View() == CreationEvent(old(View()), m);
      }
    }

    method NewFileAccessEvent(m: FileMetadata)
      requires m in metas
      modifies this, m`sequenceNumber
      ensures metas == old(metas)
      ensures View() == AccessEvent(old(View()), m)
    {
      if scheme.LRU? {
        RmFromPriorityList(m);
        Renumber(m);
        AddToPriorityList(m);
        assert View() == AccessEvent(old(View()), m);
      }
    }

    method NewFileDeletionEvent(m: FileMetadata)
      requires m in metas
      modifies this
      ensures metas == old(metas)
      ensures View() == DeletionEvent(old(View()), m)
    {
      if !scheme.NoCaching? {
        RmFromPriorityList(m);
        assert View() == DeletionEvent(old(View()), m);
      }
    }

    // ---------------------------------------------------------------- files

    method IncreaseFreeSpace(numBytes: u64)
      modifies this`freeSpace
      ensures View() == old(View()).(free := Wrap64(old(freeSpace) + numBytes))
    {
      freeSpace := Wrap64(freeSpace + numBytes);
      assert Records() == old(Records());
    }

    method DecreaseFreeSpace(numBytes: u64)
      modifies this`freeSpace
      ensures View() == old(View()).(free := Wrap64(old(freeSpace) - numBytes))
    {
      freeSpace := Wrap64(freeSpace - numBytes);
      assert Records() == old(Records());
    }

    method EraseFile(dirPath: string, fileName: string)
      requires dirPath in content
      modifies this`content
      ensures View() == old(View()).(files := old(View()).files - {Key(dirPath, fileName)})
      ensures content.Keys == old(content).Keys
    {
      FlatErase(content, dirPath, fileName);
      content := content[dirPath := content[dirPath] - {fileName}];
      assert Records() == old(Records());
    }

    method InsertFile(dirPath: string, fileName: string, m: FileMetadata)
      modifies this`content
      ensures View() == old(View()).(dirs := old(View()).dirs + {dirPath},
                                     files := old(View()).files[Key(dirPath, fileName) := m])
    {
      FlatPut(content, dirPath, fileName, m);
      content := Put(content, dirPath, fileName, m);
      assert Records() == old(Records());
    }

    // Of all objects, only `m` has changed since the old state.
    twostate lemma OnlyChanged(m: FileMetadata)
      requires m in metas && metas == old(metas)
      requires forall n :: n in metas && n != m ==> n.Rec() == old(n.Rec())
      ensures Records() == old(Records())[m := m.Rec()]
    {
    }

    method SetSizes(m: FileMetadata, size: u64)
      requires m in metas
      modifies m`currentSize, m`futureSize
      ensures View() == old(View()).(
                meta := old(View()).meta[m := old(m.Rec()).(current := size, future := size)])
    {
      m.currentSize := size;
      m.futureSize := size;
      OnlyChanged(m);
    }

    method StartWrite(m: FileMetadata, id: int, newSize: u64)
      requires m in metas
      modifies m
      ensures View() == old(View()).(meta := old(View()).meta[m := old(m.Rec()).WriteStarted(id, newSize)])
    {
      m.NotifyWriteStart(id, newSize);
      OnlyChanged(m);
    }

    // The completion callback of a write: an access, then the end of the write.
    method EndWrite(m: FileMetadata, id: int)
      requires Valid() && m in metas
      modifies this, m
      ensures Valid() && metas == old(metas) && View() == V.EndWrite(old(View()), m, id)
    {
      hide WellFormed, Flat, AccessEvent;
      ghost var v := View();
      NewFileAccessEvent(m);
      label L:
      assert m.Rec() == View().meta[m];
      m.NotifyWriteEnd(id);
      OnlyChanged@L(m);
      assert View() == V.EndWrite(v, m, id);
    }

    // What opening a file in mode "w" does to it.
    method ResetFile(m: FileMetadata)
      requires Valid() && m in metas
      modifies this`freeSpace, m`currentSize, m`futureSize
      ensures Valid() && View() == V.ResetFile(old(View()), m)
    {
      hide WellFormed, Flat;
      IncreaseFreeSpace(m.currentSize);
      label L:
      assert m.Rec() == View().meta[m];
      SetSizes(m, 0);
      assert View() == V.ResetFile(old(View()), m);
    }

    method IncreaseFileRefcount(m: FileMetadata)
      requires Valid() && m in metas
      modifies m
      ensures Valid() && View() == Retain(old(View()), m)
    {
      hide WellFormed, Flat;
      m.refCount := Wrap32(m.refCount + 1);
      OnlyChanged(m);
      assert View() == Retain(old(View()), m);
    }

    method DecreaseFileRefcount(m: FileMetadata)
      requires Valid() && m in metas
      modifies m
      ensures Valid() && View() == Release(old(View()), m)
    {
      hide WellFormed, Flat;
      m.refCount := Wrap32(m.refCount - 1);
      OnlyChanged(m);
      assert View() == Release(old(View()), m);
    }

    method Rename(m: FileMetadata, fileName: string)
      requires m in metas
      modifies m`fileName
      ensures View() == old(View()).(meta := old(View()).meta[m := old(m.Rec()).(name := fileName)])
    {
      m.fileName := fileName;
      OnlyChanged(m);
    }

    method DeleteFile(dirPath: string, fileName: string) returns (outcome: Outcome)
      requires Valid()
      modifies this
      ensures Valid() && metas == old(metas)
      ensures Reply(outcome, View()) == V.DeleteFile(old(View()), Key(dirPath, fileName))
    {
      hide WellFormed, Flat;
      var metadata := GetFileMetadata(dirPath, fileName);
      if metadata == null {
        return FileNotFound;
      }
      assert metadata.Rec() == View().meta[metadata];
      if metadata.refCount > 0 {
        return FileIsOpen;
      }
      FlatLookup(content, dirPath, fileName);
      NewFileDeletionEvent(metadata);
      IncreaseFreeSpace(metadata.currentSize);
      EraseFile(dirPath, fileName);
      assert Reply(Ok, View()) == V.DeleteFile(old(View()), Key(dirPath, fileName));
      return Ok;
    }

    // create_space of the base class throws; that of the caching partitions evicts.
    method CreateSpace(numBytes: u64) returns (outcome: Outcome)
      requires Valid() && Index.NoDangling(View())
      modifies this
      ensures Valid() && metas == old(metas)
      ensures Reply(outcome, View()) == V.CreateSpace(old(View()), numBytes)
    {
      hide WellFormed, V.DeleteFile, Index.NoDangling;
      if scheme.NoCaching? {
        return NotEnoughSpace;
      }
      var filesToRemove, space := SelectVictims(numBytes);
      if space < numBytes {
        return NotEnoughSpace;
      }
      outcome := DeleteAll(filesToRemove);
    }

    // The first loop of create_space.
    method SelectVictims(numBytes: u64) returns (filesToRemove: seq<nat>, spaceThatCanBeCreated: u64)
      requires Valid()
      ensures (filesToRemove, spaceThatCanBeCreated) == Victims(View(), numBytes)
    {
      hide WellFormed, Flat;
      ghost var v := View();
      var order := Ascending(priorityList, sequenceNumber);
      spaceThatCanBeCreated := 0;
      filesToRemove := [];
      assert order[0..] == order;
      assert [] + Select(v, order, 0, numBytes).0 == Select(v, order, 0, numBytes).0;
      for i := 0 to |order|
        invariant forall r :: r in order[i..] ==> r in v.priority
        invariant Victims(v, numBytes) == Resumed(v, order[i..], filesToRemove, spaceThatCanBeCreated, numBytes)
      {
        assert order[i] in order[i..];
        var victim := priorityList[order[i]];
        PriorityIsKnown(v, order[i]);
        ResumeOne(v, order[i..], filesToRemove, spaceThatCanBeCreated, numBytes);
        assert order[i..][1..] == order[i + 1..];
        assert victim.Rec() == v.meta[v.priority[order[i]]];
        // Never evict an open file, nor a non-evictable one.
        if victim.refCount > 0 || !victim.evictable {
          continue;
        }
        filesToRemove := filesToRemove + [order[i]];
        spaceThatCanBeCreated := Wrap64(spaceThatCanBeCreated + victim.currentSize);
        if spaceThatCanBeCreated >= numBytes {
          return;
        }
      }
      assert order[|order|..] == [];
      assert filesToRemove + [] == filesToRemove;
    }

    // The second loop of create_space.
    method DeleteAll(victims: seq<nat>) returns (outcome: Outcome)
      requires Valid()
      modifies this
      ensures Valid() && metas == old(metas)
      ensures Reply(outcome, View()) == DeleteVictims(old(View()), victims)
    {
      hide WellFormed, V.DeleteFile;
      assert victims[0..] == victims;
      for i := 0 to |victims|
        invariant Valid() && metas == old(metas)
        invariant DeleteVictims(old(View()), victims) == DeleteVictims(View(), victims[i..])
      {
        assert victims[i..][1..] == victims[i + 1..];
        if victims[i] !in priorityList {
          return NullPointer;
        }
        var victim := priorityList[victims[i]];
        PriorityIsKnown(View(), victims[i]);
        assert victim.Rec() == View().meta[victim];
        outcome := DeleteFile(victim.dirPath, victim.fileName);
        if !outcome.Ok? {
          return;
        }
      }
      return Ok;
    }

    // Only eviction follows the entries of the priority list.
    ghost predicate CanMakeRoom(numBytes: u64)
      reads this, metas
    {
      freeSpace < numBytes ==> Index.NoDangling(View())
    }

    // The check that precedes every reservation.
    method MakeRoomFor(numBytes: u64) returns (outcome: Outcome)
      requires Valid() && CanMakeRoom(numBytes)
      modifies this
      ensures Valid() && metas == old(metas)
      ensures Reply(outcome, View()) == MakeRoom(old(View()), numBytes)
    {
      hide WellFormed, Flat, V.CreateSpace, Index.NoDangling;
      if numBytes > freeSpace {
        outcome := CreateSpace(numBytes - freeSpace);
      } else {
        outcome := Ok;
      }
    }

    method CreateNewFile(dirPath: string, fileName: string, size: u64)
      returns (outcome: Outcome, ghost m: FileMetadata?)
      requires Valid() && (Key(dirPath, fileName) !in View().files ==> CanMakeRoom(size))
      modifies this
      ensures Valid()
      ensures outcome.Ok? <==> m != null
      ensures m != null ==> fresh(m) && metas == old(metas) + {m}
      ensures m != null ==> Reply(Ok, View()) == V.CreateNewFile(old(View()), Key(dirPath, fileName), size, m)
      ensures m == null ==> metas == old(metas)
      ensures m == null ==>
                if Key(dirPath, fileName) in old(View()).files
                then outcome.FileAlreadyExists? && View() == old(View())
                else Reply(outcome, View()) == MakeRoom(old(View()), size)
    {
      hide WellFormed, Flat, V.CreateSpace, V.Enter, CanMakeRoom;
      m := null;
      var existing := GetFileMetadata(dirPath, fileName);
      if existing != null {
        return FileAlreadyExists, null;
      }
      outcome := MakeRoomFor(size);
      if !outcome.Ok? {
        return;
      }
      ghost var room := View();
      var metadata := new FileMetadata(size, this, dirPath, fileName);
      InsertFile(dirPath, fileName, metadata);
      DecreaseFreeSpace(size);
      m := metadata;
      assert View() == Install(room, Key(dirPath, fileName), size, metadata);
      return Ok, metadata;
    }

    method MoveFile(srcDirPath: string, srcFileName: string, dstDirPath: string, dstFileName: string)
      returns (outcome: Outcome)
      requires Valid()
      modifies this, metas
      ensures Valid() && metas == old(metas)
      ensures Reply(outcome, View())
              == V.MoveFile(old(View()), Key(srcDirPath, srcFileName), Key(dstDirPath, dstFileName))
    {
      hide WellFormed, Flat, V.Enter;
      ghost var v, src, dst := View(), Key(srcDirPath, srcFileName), Key(dstDirPath, dstFileName);
      var metadata := GetFileMetadata(srcDirPath, srcFileName);
      if metadata == null {
        return FileNotFound;
      }
      var overwritten := GetFileMetadata(dstDirPath, dstFileName);
      // Moving a file onto itself does nothing.
      if metadata == overwritten {
        return Ok;
      }
      assert metadata.Rec() == v.meta[metadata];
      if metadata.refCount > 0 {
        return FileIsOpen;
      }
      if overwritten != null {
        assert overwritten.Rec() == v.meta[overwritten];
        if overwritten.refCount != 0 {
          return FileIsOpen;
        }
      }
      if overwritten != null {
        V.StoredApart(v, src, dst);
      }
      assert MoveHappens(v, src, dst);
      DoMove(metadata, overwritten, srcDirPath, srcFileName, dstDirPath, dstFileName);
      return Ok;
    }

    // The part of move_file after the checks.
    method DoMove(metadata: FileMetadata, overwritten: FileMetadata?,
                  srcDirPath: string, srcFileName: string, dstDirPath: string, dstFileName: string)
      requires Valid() && MoveHappens(View(), Key(srcDirPath, srcFileName), Key(dstDirPath, dstFileName))
      requires metadata in metas && View().files[Key(srcDirPath, srcFileName)] == metadata
      requires overwritten == null <==> Key(dstDirPath, dstFileName) !in View().files
      requires overwritten != null ==> overwritten in metas && View().files[Key(dstDirPath, dstFileName)] == overwritten
      modifies this, metas
      ensures Valid() && metas == old(metas)
      ensures View() == V.MoveFile(old(View()), Key(srcDirPath, srcFileName), Key(dstDirPath, dstFileName)).after
    {
      ghost var v, src, dst := View(), Key(srcDirPath, srcFileName), Key(dstDirPath, dstFileName);
      V.MoveIsRelocateThenEnter(v, src, dst);
      Rehouse(metadata, overwritten, srcDirPath, srcFileName, dstDirPath, dstFileName);
      hide WellFormed, Flat, V.Enter, V.MoveFile, Relocate;
      NewFileCreationEvent(metadata);
      NewFileAccessEvent(metadata);
      V.EnterIs(Relocate(v, src, dst), metadata);
      assert View() == Enter(Relocate(v, src, dst), metadata);
    }

    method Rehouse(metadata: FileMetadata, overwritten: FileMetadata?,
                   srcDirPath: string, srcFileName: string, dstDirPath: string, dstFileName: string)
      requires Valid() && Key(srcDirPath, srcFileName) in View().files
      requires metadata in metas && View().files[Key(srcDirPath, srcFileName)] == metadata
      requires overwritten == null <==> Key(dstDirPath, dstFileName) !in View().files
      requires overwritten != null ==> overwritten in metas && View().files[Key(dstDirPath, dstFileName)] == overwritten
      modifies this, metas
      ensures metas == old(metas)
      ensures View() == Relocate(old(View()), Key(srcDirPath, srcFileName), Key(dstDirPath, dstFileName))
    {
      hide WellFormed, Flat, Wrap64;
      ViewShows(metadata);
      FlatLookup(content, srcDirPath, srcFileName);
      Unhouse(metadata, overwritten, srcDirPath, srcFileName);
      hide View, Records;
      Rename(metadata, dstFileName);
      InsertFile(dstDirPath, dstFileName, metadata);
    }

    // The source key goes, with the overwritten file's bytes and the moved file's entry in the list.
    method Unhouse(metadata: FileMetadata, overwritten: FileMetadata?, srcDirPath: string, srcFileName: string)
      requires srcDirPath in content && metadata in metas && (overwritten != null ==> overwritten in metas)
      modifies this
      ensures metas == old(metas)
      ensures var v := old(View());
              View() == v.(
                free := if overwritten == null then v.free else Wrap64(v.free + old(overwritten.currentSize)),
                priority := DeletionEvent(v, metadata).priority,
                files := v.files - {Key(srcDirPath, srcFileName)})
    {
      hide Wrap64;
      ViewShows(metadata);
      hide View, Records;
      if overwritten != null {
        IncreaseFreeSpace(overwritten.currentSize);
      }
      EraseFile(srcDirPath, srcFileName);
      NewFileDeletionEvent(metadata);
    }

    method TruncateFile(dirPath: string, fileName: string, numBytes: u64) returns (outcome: Outcome)
      requires Valid()
      modifies this, metas
      ensures Valid() && metas == old(metas)
      ensures Reply(outcome, View()) == V.TruncateFile(old(View()), Key(dirPath, fileName), numBytes)
    {
      hide WellFormed, Flat, Wrap64, View, Records;
      ghost var v := View();
      var metadata := GetFileMetadata(dirPath, fileName);
      if metadata == null {
        return NullPointer;
      }
      ViewShows(metadata);
      if metadata.refCount > 0 {
        return InvalidTruncate;
      }
      var cut := Min(numBytes, metadata.currentSize);
      var newSize := metadata.currentSize - cut;
      SetSizes(metadata, newSize);
      IncreaseFreeSpace(cut);
      assert Reply(Ok, View()) == V.TruncateFile(v, Key(dirPath, fileName), numBytes);
      return Ok;
    }

    method MakeFileEvictable(dirPath: string, fileName: string, evictable: bool) returns (outcome: Outcome)
      requires Valid()
      modifies metas
      ensures Valid()
      ensures Reply(outcome, View()) == MakeEvictable(old(View()), Key(dirPath, fileName), evictable)
    {
      hide WellFormed, Flat;
      ghost var v := View();
      var metadata := GetFileMetadata(dirPath, fileName);
      if metadata == null {
        return FileNotFound;
      }
      assert metadata.Rec() == v.meta[metadata];
      metadata.evictable := evictable;
      OnlyChanged(metadata);
      assert Reply(Ok, View()) == MakeEvictable(v, Key(dirPath, fileName), evictable);
      return Ok;
    }

    predicate DirectoryExists(dirPath: string)
      reads this
    {
      dirPath in content
    }

    method CreateNewDirectory(dirPath: string) returns (outcome: Outcome)
      requires Valid()
      modifies this
      ensures Valid() && metas == old(metas)
      ensures Reply(outcome, View()) == CreateDirectory(old(View()), dirPath)
    {
      hide WellFormed;
      if dirPath in content {
        return Outcome.DirectoryExists;
      }
      FlatAddDirectory(content, dirPath);
      content := content[dirPath := map[]];
      assert Records() == old(Records());
      assert Reply(Ok, View()) == CreateDirectory(old(View()), dirPath);
      return Ok;
    }

    method DeleteDirectory(dirPath: string) returns (outcome: Outcome)
      requires Valid()
      modifies this
      ensures Valid() && metas == old(metas)
      ensures Reply(outcome, View()) == V.DeleteDirectory(old(View()), dirPath)
    {
      hide WellFormed, Flat, AnyOpen, Inside, SumCurrent;
      ghost var v := View();
      if dirPath !in content {
        return DirectoryMissing;
      }
      var open, freedSpace := CheckDirectory(dirPath);
      if open {
        return FileIsOpen;
      }
      FlatEraseDirectory(content, dirPath);
      content := content - {dirPath};
      assert Records() == old(Records());
      assert View().files == v.files - Within(v, dirPath);
      assert View().dirs == v.dirs - {dirPath};
      IncreaseFreeSpace(freedSpace);
      WrapAdd(SumCurrent(v.meta, Inside(v, dirPath)), v.free);
      assert Reply(Ok, View()) == V.DeleteDirectory(v, dirPath);
      return Ok;
    }

    // The loop of delete_directory: the space to free, or the news that a file is open.
    method CheckDirectory(dirPath: string) returns (open: bool, freedSpace: u64)
      requires Valid() && dirPath in content
      ensures open == AnyOpen(View(), dirPath)
      ensures !open ==> freedSpace == Wrap64(SumCurrent(View().meta, Inside(View(), dirPath)))
    {
      hide SumCurrent, WellFormed, Flat, Wrap64, View, Inside, Passed;
      ghost var v := View();
      freedSpace := 0;
      var files := content[dirPath];
      var rest := files;
      Ledger.SumNothing(v.meta);
      NothingPassed(files);
      while rest != map[]
        invariant forall n :: n in rest ==> n in files && rest[n] == files[n]
        invariant forall m :: m in Passed(files, rest.Keys) ==> m in v.meta && v.meta[m].refs == 0
        invariant freedSpace == Wrap64(SumCurrent(v.meta, Passed(files, rest.Keys)))
        decreases |rest|
      {
        var fileName :| fileName in rest;
        var metadata := rest[fileName];
        PassedOnce(dirPath, fileName, rest.Keys);
        if metadata.refCount != 0 {
          assert Key(dirPath, fileName) in v.files;
          return true, 0;
        }
        AddCurrent(v.meta, Passed(files, rest.Keys), metadata);
        freedSpace := Wrap64(freedSpace + metadata.currentSize);
        PassOne(files, fileName, rest.Keys);
        rest := rest - {fileName};
      }
      AllPassed(dirPath);
      open := false;
    }

    lemma PassedOnce(dirPath: string, fileName: string, rest: set<string>)
      requires Valid() && dirPath in content && fileName in content[dirPath] && fileName in rest
      ensures var m := content[dirPath][fileName];
              && m !in Passed(content[dirPath], rest) && m in metas && m in View().meta && m.Rec() == View().meta[m]
              && Key(dirPath, fileName) in View().files && View().files[Key(dirPath, fileName)] == m
    {
      var v := View();
      FlatLookup(content, dirPath, fileName);
      forall n | n in content[dirPath] && n !in rest
        ensures content[dirPath][n] != content[dirPath][fileName]
      {
        FlatLookup(content, dirPath, n);
        StoredApart(v, Key(dirPath, n), Key(dirPath, fileName));
      }
    }

    lemma AllPassed(dirPath: string)
      requires Valid() && dirPath in content
      ensures Passed(content[dirPath], {}) == Inside(View(), dirPath)
      ensures forall k :: k in View().files && k.dir == dirPath ==> View().files[k] in Passed(content[dirPath], {})
    {
      forall m | m in Passed(content[dirPath], {})
        ensures m in Inside(View(), dirPath)
      {
        var n :| n in content[dirPath] && content[dirPath][n] == m;
        FlatLookup(content, dirPath, n);
        assert View().files[Key(dirPath, n)] == m;
      }
    }

    method GetNumFiles() returns (n: u64)
      ensures n == Wrap64(|View().files|)
    {
      hide Flat, Wrap64;
      n := 0;
      var rest := content;
      ghost var count: nat := 0;
      FlatOfNothing<FileMetadata>();
      while rest != map[]
        invariant n == Wrap64(count) && count + |Flat(rest)| == |Flat(content)|
        decreases |rest|
      {
        var dirPath :| dirPath in rest;
        FlatSize(rest, dirPath);
        WrapAdd(count, |rest[dirPath]|);
        n := Wrap64(n + |rest[dirPath]|);
        count := count + |rest[dirPath]|;
        rest := rest - {dirPath};
      }
    }
  }
}
