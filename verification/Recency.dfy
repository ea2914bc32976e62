// The sequence-keyed map is a recency list: a new or moved file goes to the back, a used file
// goes to the back under LRU and stays where it is under FIFO, a deleted file disappears.
module Recency {
  import opened Words
  import opened Volumes
  import opened Index
  import opened Eviction

  ghost function OrderBelow<M>(priority: map<nat, M>, bound: nat): seq<M> {
    if bound == 0 then []
    else if bound - 1 in priority then OrderBelow(priority, bound - 1) + [priority[bound - 1]]
    else OrderBelow(priority, bound - 1)
  }

  // The files of a caching partition, first to be evicted first.
  ghost function Order<M>(v: Volume<M>): seq<M> { OrderBelow(v.priority, v.counter) }

  ghost function Keep<M>(s: seq<M>, kept: set<M>): seq<M> {
    if s == [] then []
    else Keep(s[..|s| - 1], kept) + (if s[|s| - 1] in kept then [s[|s| - 1]] else [])
  }

  lemma {:induction false} OrderFollowsRanks<M>(priority: map<nat, M>, bound: nat)
    ensures |OrderBelow(priority, bound)| == |Ascending(priority, bound)|
    ensures forall i :: 0 <= i < |Ascending(priority, bound)| ==>
              Ascending(priority, bound)[i] in priority &&
              OrderBelow(priority, bound)[i] == priority[Ascending(priority, bound)[i]]
  {
    if bound > 0 {
      OrderFollowsRanks(priority, bound - 1);
    }
  }

  lemma {:induction false} OrderRestricted<M>(p: map<nat, M>, q: map<nat, M>, bound: nat, kept: set<M>)
    requires forall r :: r < bound ==> (r in q <==> r in p && p[r] in kept)
    requires forall r :: r < bound && r in q ==> p[r] == q[r]
    ensures OrderBelow(q, bound) == Keep(OrderBelow(p, bound), kept)
  {
    if bound > 0 {
      OrderRestricted(p, q, bound - 1, kept);
      if bound - 1 in p {
        var o := OrderBelow(p, bound);
        assert o[..|o| - 1] == OrderBelow(p, bound - 1);
      }
    }
  }

  lemma {:induction false} OrderHigher<M>(q: map<nat, M>, low: nat, high: nat)
    requires low <= high && forall r :: low <= r < high ==> r !in q
    ensures OrderBelow(q, low) == OrderBelow(q, high)
  {
    if low < high {
      OrderHigher(q, low, high - 1);
    }
  }

  // ------------------------------------------------------------------ one step

  // Between `v` and `w`, only `touched` got a new rank, and it is above all old ones.
  ghost predicate OnlyTouches<M>(v: Volume<M>, w: Volume<M>, touched: seq<M>)
    requires WellFormed(v) && WellFormed(w)
  {
    && |touched| <= 1
    && (forall m :: m in Live(w) && m !in touched ==> m in Live(v) && w.meta[m].rank == v.meta[m].rank)
    && (forall m :: m in touched ==> m in Live(w) && w.meta[m].rank >= v.counter)
  }

  lemma OrderAfterTouch<M>(v: Volume<M>, w: Volume<M>, touched: seq<M>)
    requires WellFormed(v) && WellFormed(w) && Indexed(v) && Indexed(w)
    requires !v.scheme.NoCaching? && w.scheme == v.scheme
    requires OnlyTouches(v, w, touched)
    ensures Order(w) == Keep(Order(v), Live(w) - (set m | m in touched)) + touched
  {
    OldOrderKept(v, w, touched);
    if touched == [] {
      NoneAbove(v, w);
    } else {
      assert touched == [touched[0]];
      OneAbove(v, w, touched[0]);
    }
  }

  lemma OldOrderKept<M>(v: Volume<M>, w: Volume<M>, touched: seq<M>)
    requires WellFormed(v) && WellFormed(w) && OnlyTouches(v, w, touched)
    requires Indexed(v) && Indexed(w) && !v.scheme.NoCaching? && !w.scheme.NoCaching?
    ensures OrderBelow(w.priority, v.counter) == Keep(Order(v), Live(w) - (set m | m in touched))
  {
    IndexedIsBijection(v);
    IndexedIsBijection(w);
    RanksBelow(v, w, touched);
    OrderRestricted(v.priority, w.priority, v.counter, Live(w) - (set m | m in touched));
  }

  lemma NoneAbove<M>(v: Volume<M>, w: Volume<M>)
    requires WellFormed(v) && WellFormed(w) && OnlyTouches(v, w, [])
    requires Indexed(v) && Indexed(w) && !v.scheme.NoCaching? && !w.scheme.NoCaching?
    ensures Order(w) == OrderBelow(w.priority, v.counter)
  {
    IndexedIsBijection(v);
    IndexedIsBijection(w);
    forall r | r in w.priority
      ensures r < v.counter
    {
      assert w.priority[r] in Live(w);
      assert w.priority[r] in v.priority.Values;
    }
    OrderAbove(w.priority, v.counter, w.counter);
  }

  // The one sequence number handed out since `v` is that of the touched object.
  lemma NewRank<M>(v: Volume<M>, w: Volume<M>, m: M)
    requires WellFormed(v) && WellFormed(w) && OnlyTouches(v, w, [m])
    requires Indexed(v) && Indexed(w) && !v.scheme.NoCaching? && !w.scheme.NoCaching?
    ensures Ranked(w, m) && v.counter <= w.meta[m].rank < w.counter
    ensures forall s :: s in w.priority && s >= v.counter ==> s == w.meta[m].rank
    ensures forall s :: s in w.priority ==> s < w.counter
  {
    assert m in [m] && m in Live(w);
    var k :| k in w.files && w.files[k] == m;
    assert Ranked(w, w.files[k]);
    forall s | s in w.priority && s >= v.counter
      ensures w.priority[s] == m
    {
      assert AtHome(w, w.priority[s]);
    }
  }

  lemma OneAbove<M>(v: Volume<M>, w: Volume<M>, m: M)
    requires WellFormed(v) && WellFormed(w) && OnlyTouches(v, w, [m])
    requires Indexed(v) && Indexed(w) && !v.scheme.NoCaching? && !w.scheme.NoCaching?
    ensures Order(w) == OrderBelow(w.priority, v.counter) + [m]
  {
    NewRank(v, w, m);
    hide Indexed, WellFormed, OnlyTouches;
    var r := w.meta[m].rank;
    OrderHigher(w.priority, v.counter, r);
    OrderAbove(w.priority, r + 1, w.counter);
  }

  lemma OrderAbove<M>(q: map<nat, M>, low: nat, high: nat)
    requires forall r :: r in q ==> r < low && r < high
    ensures OrderBelow(q, low) == OrderBelow(q, high)
  {
    if low <= high {
      OrderHigher(q, low, high);
    } else {
      OrderHigher(q, high, low);
    }
  }

  lemma RanksBelow<M>(v: Volume<M>, w: Volume<M>, touched: seq<M>)
    requires WellFormed(v) && WellFormed(w) && Indexed(v) && Indexed(w)
    requires !v.scheme.NoCaching? && !w.scheme.NoCaching?
    requires v.priority.Values == Live(v) && w.priority.Values == Live(w)
    requires OnlyTouches(v, w, touched)
    ensures forall r :: r < v.counter ==>
              (r in w.priority <==> r in v.priority && v.priority[r] in Live(w) && v.priority[r] !in touched)
    ensures forall r :: r < v.counter && r in w.priority ==> v.priority[r] == w.priority[r]
  {
    forall r | r < v.counter
      ensures r in w.priority <==> r in v.priority && v.priority[r] in Live(w) && v.priority[r] !in touched
      ensures r in w.priority ==> r in v.priority && v.priority[r] == w.priority[r]
    {
      if r in w.priority {
        var m := w.priority[r];
        assert m in Live(w) && AtHome(w, m);
        var k :| k in v.files && v.files[k] == m;
        assert Ranked(v, v.files[k]);
      }
      if r in v.priority && v.priority[r] in Live(w) && v.priority[r] !in touched {
        var k :| k in w.files && w.files[k] == v.priority[r];
        assert AtHome(v, v.priority[r]);
        assert Ranked(w, w.files[k]);
      }
    }
  }

  // ------------------------------------------------------------------ which steps touch what

  // The object a step sends to the back of the list, if any.
  ghost function Touched<M>(v: Volume<M>, op: Op<M>): seq<M>
    requires WellFormed(v) && Safe(v, op)
  {
    match op
    case Create(_, _, m) => if Apply(v, op).outcome.Ok? then [m] else []
    case Open(path, _, m) =>
      if SplitPath(path) !in v.files && Apply(v, op).outcome.Ok? then [m] else []
    case Move(src, dst) => if MoveHappens(v, src, dst) then [v.files[src]] else []
    case Access(m) => if v.scheme.LRU? then [m] else []
    case FinishWrite(m, _) => if v.scheme.LRU? then [m] else []
    case _ => []
  }

  lemma NothingTouched<M>(v: Volume<M>, w: Volume<M>)
    requires WellFormed(v) && WellFormed(w) && w.meta == v.meta
    requires forall k :: k in w.files ==> k in v.files && w.files[k] == v.files[k]
    ensures OnlyTouches(v, w, [])
  {
    assert forall n :: n in Live(w) ==> n in Live(v);
  }

  lemma InstallTouches<M>(v: Volume<M>, room: Volume<M>, key: Key, size: u64, m: M)
    requires WellFormed(v) && WellFormed(room) && !v.scheme.NoCaching? && m !in v.meta && key !in room.files
    requires room.meta == v.meta && SameVolume(v, room) && room.counter == v.counter
    requires forall k :: k in room.files ==> room.files[k] in Live(v)
    ensures OnlyTouches(v, Install(room, key, size, m), [m])
  {
    hide WellFormed, Enter;
    var f := FileRec(key.dir, key.name, size, size, map[], 0, 0, true);
    var x := room.(meta := v.meta[m := f]);
    AddingObjectKeepsWellFormed(room, m, f);
    EnterGoesToBack(x, m);
    var w := Install(room, key, size, m);
    assert w.meta == v.meta[m := f.(rank := EntryRank(x))];
    assert w.files == room.files[key := m];
    hide Install;
    assert w.files[key] == m;
  }

  lemma MoveTouches<M>(v: Volume<M>, src: Key, dst: Key)
    requires WellFormed(v) && !v.scheme.NoCaching? && MoveHappens(v, src, dst)
    ensures OnlyTouches(v, MoveFile(v, src, dst).after, [v.files[src]])
  {
    var m, w := v.files[src], MoveFile(v, src, dst).after;
    MoveShape(v, src, dst);
    EnterGoesToBack(Relocate(v, src, dst), m);
    assert w.files[dst] == m;
    assert forall n :: n in Live(w) ==> n == m || n in Live(v);
  }

  lemma CreateTouches<M>(v: Volume<M>, path: string, size: u64, m: M)
    requires WellFormed(v) && Indexed(v) && !v.scheme.NoCaching? && m !in v.meta
    ensures var r := CreateFile(v, path, size, m);
            OnlyTouches(v, r.after, if r.outcome.Ok? then [m] else [])
  {
    hide Indexed, CreateSpace, OnlyTouches;
    NothingTouched(v, v);
    if path !in v.dirs && SplitPath(path) !in v.files {
      RoomShape(v, size);
      RoomOnlyRemoves(v, size);
      var room := MakeRoom(v, size);
      if room.outcome.Ok? {
        assert forall k :: k in room.after.files ==> room.after.files[k] in Live(v);
        InstallTouches(v, room.after, SplitPath(path), size, m);
      }
    }
  }

  lemma OpenTouches<M>(v: Volume<M>, path: string, mode: Mode, m: M)
    requires WellFormed(v) && Indexed(v) && !v.scheme.NoCaching? && NewIfMissing(v, path, m)
    ensures var r := OpenFile(v, path, mode, m);
            OnlyTouches(v, r.after, if SplitPath(path) !in v.files && r.outcome.Ok? then [m] else [])
  {
    var key, w := SplitPath(path), OpenFile(v, path, mode, m).after;
    if key in v.files {
      hide OnlyTouches;
      SameRanks(v, v, w, []);
    } else if !mode.Read? && !mode.ReadWrite? {
      hide CreateFile, OnlyTouches, Indexed;
      CreateTouches(v, path, 0, m);
      var r := CreateFile(v, path, 0, m);
      SameRanks(v, r.after, w, if r.outcome.Ok? then [m] else []);
    } else {
      hide OnlyTouches;
      NothingTouched(v, v);
    }
  }

  // A change that leaves files and ranks alone touches nothing more.
  lemma SameRanks<M>(v: Volume<M>, w: Volume<M>, x: Volume<M>, touched: seq<M>)
    requires WellFormed(v) && WellFormed(w) && WellFormed(x)
    requires (w == v && touched == []) || OnlyTouches(v, w, touched)
    requires x.files == w.files
    requires forall n :: n in w.meta ==> n in x.meta && x.meta[n].rank == w.meta[n].rank
    ensures OnlyTouches(v, x, touched)
  {
  }

  lemma WriteTouchesNothing<M>(v: Volume<M>, m: M, id: int, pos: u64, n: u64)
    requires WellFormed(v) && Indexed(v) && m in v.meta
    ensures OnlyTouches(v, StartWrite(v, m, id, pos, n).after, [])
  {
    hide CreateSpace, Victims, AddedBytes, Indexed;
    var added := AddedBytes(pos, n, v.meta[m].future);
    RoomShape(v, added);
    var w := MakeRoom(v, added).after;
    assert forall n :: n in Live(w) ==> n in Live(v);
  }

  lemma UseTouches<M>(v: Volume<M>, op: Op<M>, m: M)
    requires WellFormed(v) && !v.scheme.NoCaching? && Safe(v, op)
    requires op == Op.Access(m) || (op.FinishWrite? && op.m == m)
    ensures OnlyTouches(v, Apply(v, op).after, if v.scheme.LRU? then [m] else [])
  {
    var w := Apply(v, op).after;
    assert w.files == v.files;
    assert forall n :: n in Live(w) ==> n in Live(v);
  }

  lemma RemovalTouchesNothing<M>(v: Volume<M>, op: Op<M>)
    requires WellFormed(v) && (op.Delete? || op.MakeDirectory? || op.RemoveDirectory?)
    ensures OnlyTouches(v, Apply(v, op).after, [])
  {
    var w := Apply(v, op).after;
    assert w.meta == v.meta;
    assert forall k :: k in w.files ==> k in v.files && w.files[k] == v.files[k];
    assert forall n :: n in Live(w) ==> n in Live(v);
  }

  lemma PatchTouchesNothing<M>(v: Volume<M>, op: Op<M>)
    requires WellFormed(v) && Safe(v, op) && (op.Truncate? || op.SetEvictable? || op.Close?)
    ensures OnlyTouches(v, Apply(v, op).after, [])
  {
    var w := Apply(v, op).after;
    assert w.files == v.files;
    assert forall n :: n in v.meta ==> n in w.meta && w.meta[n].rank == v.meta[n].rank;
  }

  lemma MoveOrNot<M>(v: Volume<M>, src: Key, dst: Key)
    requires WellFormed(v) && !v.scheme.NoCaching?
    ensures OnlyTouches(v, MoveFile(v, src, dst).after, if MoveHappens(v, src, dst) then [v.files[src]] else [])
  {
    if MoveHappens(v, src, dst) {
      MoveTouches(v, src, dst);
    } else {
      NothingTouched(v, v);
    }
  }

  lemma StepTouches<M>(v: Volume<M>, op: Op<M>)
    requires WellFormed(v) && Indexed(v) && !v.scheme.NoCaching? && Safe(v, op)
    ensures OnlyTouches(v, Apply(v, op).after, Touched(v, op))
  {
    hide Indexed, OnlyTouches, WellFormed;
    match op
    case Create(path, bytes, m) => CreateTouches(v, path, bytes, m);
    case Open(path, mode, m) => OpenTouches(v, path, mode, m);
    case Move(src, dst) => MoveOrNot(v, src, dst);
    case BeginWrite(m, id, pos, bytes) => WriteTouchesNothing(v, m, id, pos, bytes);
    case Access(m) => UseTouches(v, op, m);
    case FinishWrite(m, _) => UseTouches(v, op, m);
    case Delete(_) => RemovalTouchesNothing(v, op);
    case MakeDirectory(_) => RemovalTouchesNothing(v, op);
    case RemoveDirectory(_) => RemovalTouchesNothing(v, op);
    case Truncate(_, _) => PatchTouchesNothing(v, op);
    case SetEvictable(_, _) => PatchTouchesNothing(v, op);
    case Close(_) => PatchTouchesNothing(v, op);
  }

  // One step, seen on the recency list: what it destroys disappears, what it touches goes to
  // the back, and everything else keeps its relative order.
  lemma StepRefinesRecencyList<M>(v: Volume<M>, op: Op<M>)
    requires WellFormed(v) && Indexed(v) && !v.scheme.NoCaching? && Safe(v, op) && !Breaking(v, op)
    ensures var w, t := Apply(v, op).after, Touched(v, op);
            Order(w) == Keep(Order(v), Live(w) - (set m | m in t)) + t
  {
    StepKeepsIndexUnlessBreaking(v, op);
    StepTouches(v, op);
    OrderAfterTouch(v, Apply(v, op).after, Touched(v, op));
  }

  // ------------------------------------------------------------------ whole runs

  // Every touch of a run, oldest first.
  ghost function History<M>(v: Volume<M>, ops: seq<Op<M>>): seq<M>
    requires WellFormed(v) && Permitted(v, ops)
    decreases |ops|
  {
    if ops == [] then [] else Touched(v, ops[0]) + History(Apply(v, ops[0]).after, ops[1..])
  }

  // When an object was last touched; -1 if never.
  ghost function LastTouch<M>(history: seq<M>, m: M): (i: int)
    ensures -1 <= i < |history|
    ensures i >= 0 ==> history[i] == m
    ensures forall j :: i < j < |history| ==> history[j] != m
  {
    if history == [] then -1
    else if history[|history| - 1] == m then |history| - 1
    else LastTouch(history[..|history| - 1], m)
  }

  ghost predicate ByLastTouch<M>(order: seq<M>, history: seq<M>) {
    && (forall m :: m in order ==> LastTouch(history, m) >= 0)
    && (forall i, j :: 0 <= i < j < |order| ==> LastTouch(history, order[i]) < LastTouch(history, order[j]))
  }

  lemma {:induction false} KeepMembers<M>(s: seq<M>, kept: set<M>)
    ensures forall m :: m in Keep(s, kept) <==> m in s && m in kept
  {
    if s != [] {
      KeepMembers(s[..|s| - 1], kept);
    }
  }

  lemma {:induction false} KeepIsByLastTouch<M>(s: seq<M>, kept: set<M>, history: seq<M>)
    requires ByLastTouch(s, history)
    ensures ByLastTouch(Keep(s, kept), history)
  {
    hide LastTouch;
    if s != [] {
      var init, m := s[..|s| - 1], s[|s| - 1];
      KeepIsByLastTouch(init, kept, history);
      KeepMembers(init, kept);
      var k := Keep(init, kept);
      forall i | 0 <= i < |k|
        ensures LastTouch(history, k[i]) < LastTouch(history, m)
      {
        assert k[i] in k && k[i] in init;
      }
    }
  }

  lemma LastTouchAppend<M>(history: seq<M>, t: M, m: M)
    ensures LastTouch(history + [t], m) == if m == t then |history| else LastTouch(history, m)
  {
    assert (history + [t])[..|history|] == history;
  }

  lemma TouchIsByLastTouch<M>(order: seq<M>, history: seq<M>, t: M)
    requires ByLastTouch(order, history) && t !in order
    ensures ByLastTouch(order + [t], history + [t])
  {
    forall m | m in order + [t]
      ensures LastTouch(history + [t], m) == if m == t then |history| else LastTouch(history, m)
    {
      LastTouchAppend(history, t, m);
    }
    forall i | 0 <= i < |order|
      ensures LastTouch(history + [t], order[i]) == LastTouch(history, order[i])
    {
      assert order[i] in order;
    }
  }

  lemma StepIsByLastTouch<M>(v: Volume<M>, op: Op<M>, past: seq<M>)
    requires WellFormed(v) && Indexed(v) && !v.scheme.NoCaching? && Safe(v, op) && !Breaking(v, op)
    requires ByLastTouch(Order(v), past)
    ensures ByLastTouch(Order(Apply(v, op).after), past + Touched(v, op))
  {
    StepRefinesRecencyList(v, op);
    StepTouches(v, op);
    ListStep(Order(v), Live(Apply(v, op).after), past, Touched(v, op));
  }

  lemma ListStep<M>(order: seq<M>, live: set<M>, past: seq<M>, t: seq<M>)
    requires ByLastTouch(order, past) && |t| <= 1
    ensures ByLastTouch(Keep(order, live - (set m | m in t)) + t, past + t)
  {
    var kept := live - (set m | m in t);
    KeepIsByLastTouch(order, kept, past);
    KeepMembers(order, kept);
    if t == [] {
      assert past + t == past;
      assert Keep(order, kept) + t == Keep(order, kept);
    } else {
      assert t == [t[0]];
      TouchIsByLastTouch(Keep(order, kept), past, t[0]);
    }
  }

  lemma {:induction false} RunIsByLastTouch<M>(v: Volume<M>, ops: seq<Op<M>>, past: seq<M>)
    requires WellFormed(v) && Indexed(v) && !v.scheme.NoCaching? && Permitted(v, ops)
    requires ByLastTouch(Order(v), past)
    ensures ByLastTouch(Order(Run(v, ops)), past + History(v, ops))
    decreases |ops|
  {
    if ops == [] {
      assert past + [] == past;
    } else {
      var w, t := Apply(v, ops[0]).after, Touched(v, ops[0]);
      StepKeepsIndexUnlessBreaking(v, ops[0]);
      StepIsByLastTouch(v, ops[0], past);
      RunIsByLastTouch(w, ops[1..], past + t);
      assert past + t + History(w, ops[1..]) == past + History(v, ops);
    }
  }

  // Over any run from mounting, the list is sorted by last touch: creation or move under FIFO,
  // creation, move, read or end of write under LRU.
  lemma ListIsSortedByLastTouch<M>(scheme: Scheme, size: u64, ops: seq<Op<M>>)
    requires !scheme.NoCaching? && Permitted(Mounted<M>(scheme, size), ops)
    ensures var v := Mounted(scheme, size);
            ByLastTouch(Order(Run(v, ops)), History(v, ops))
  {
    var v := Mounted<M>(scheme, size);
    RunIsByLastTouch(v, ops, []);
    assert [] + History(v, ops) == History(v, ops);
  }

  // So the files evicted to make room were all last touched before any file that could have
  // been evicted and was not.
  lemma EvictionTakesTheOldest<M>(scheme: Scheme, size: u64, ops: seq<Op<M>>, needed: u64)
    requires !scheme.NoCaching? && Permitted(Mounted<M>(scheme, size), ops)
    ensures var v, history := Run(Mounted(scheme, size), ops), History(Mounted(scheme, size), ops);
            var victims := RoomVictims(v, needed);
            forall r, s :: r in victims && s in v.priority && s !in victims
                           && v.meta[v.priority[s]].refs == 0 && v.meta[v.priority[s]].evictable ==>
              LastTouch(history, v.priority[r]) < LastTouch(history, v.priority[s])
  {
    var v, history := Run(Mounted<M>(scheme, size), ops), History(Mounted<M>(scheme, size), ops);
    var victims := RoomVictims(v, needed);
    ListIsSortedByLastTouch(scheme, size, ops);
    forall r, s | r in victims && s in v.priority && s !in victims
                  && v.meta[v.priority[s]].refs == 0 && v.meta[v.priority[s]].evictable
      ensures LastTouch(history, v.priority[r]) < LastTouch(history, v.priority[s])
    {
      VictimsComeFirst(v, needed, r, s);
      OrderByRank(v, r, s, history);
    }
  }

  lemma VictimsComeFirst<M>(v: Volume<M>, needed: u64, r: nat, s: nat)
    requires WellFormed(v) && r in RoomVictims(v, needed) && s !in RoomVictims(v, needed)
    requires s in v.priority && v.meta[v.priority[s]].refs == 0 && v.meta[v.priority[s]].evictable
    ensures r in v.priority && r < s
  {
    hide WellFormed, Candidates, RoomVictims, Indexed;
    CandidatesAscend(v);
    VictimsAreFirst(v, needed);
    PrefixComesFirst(RoomVictims(v, needed), Candidates(v), r, s);
  }

  lemma VictimsAreFirst<M>(v: Volume<M>, needed: u64)
    requires WellFormed(v)
    ensures RoomVictims(v, needed) <= Candidates(v)
  {
    hide WellFormed, Stops, Tally, Select, Ascending, Eligible;
    if v.free < needed {
      SelectStopsAtFirst(v, Ranks(v), 0, needed - v.free);
    }
  }

  lemma PrefixComesFirst(victims: seq<nat>, c: seq<nat>, r: nat, s: nat)
    requires victims <= c && forall i, j :: 0 <= i < j < |c| ==> c[i] < c[j]
    requires r in victims && s in c && s !in victims
    ensures r < s
  {
    var i :| 0 <= i < |victims| && victims[i] == r;
    var j :| 0 <= j < |c| && c[j] == s;
    assert forall k :: 0 <= k < |victims| ==> victims[k] == c[k] && victims[k] != s;
  }

  lemma OrderByRank<M>(v: Volume<M>, r: nat, s: nat, history: seq<M>)
    requires WellFormed(v) && r in v.priority && s in v.priority && r < s
    requires ByLastTouch(Order(v), history)
    ensures LastTouch(history, v.priority[r]) < LastTouch(history, v.priority[s])
  {
    var ranks := Ranks(v);
    OrderFollowsRanks(v.priority, v.counter);
    AscendingIsSorted(v.priority, v.counter);
    assert r in ranks && s in ranks;
    var i :| 0 <= i < |ranks| && ranks[i] == r;
    var j :| 0 <= j < |ranks| && ranks[j] == s;
    assert i < j;
    assert Order(v)[i] == v.priority[r] && Order(v)[j] == v.priority[s];
  }
}
