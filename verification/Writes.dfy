// Concurrent writes on one file: sizes, targets and completion order.
module Writes {
  import opened Words
  import opened Volumes

  // ------------------------------------------------------------------ one step

  // Pending targets grow with the write id and stay between the current and the future size;
  // the newest pending write is the one that will bring the file to its future size.
  ghost predicate Settled(f: FileRec) {
    && f.current <= f.future
    && (f.ongoing == map[] ==> f.current == f.future)
    && (forall i :: i in f.ongoing ==> f.current <= f.ongoing[i] <= f.future)
    && (forall i, j :: i in f.ongoing && j in f.ongoing && i < j ==> f.ongoing[i] <= f.ongoing[j])
    && (f.ongoing != map[] ==> exists i :: i in f.ongoing && f.ongoing[i] == f.future && IsNewest(f, i))
  }

  ghost predicate IsNewest(f: FileRec, id: int) {
    forall i :: i in f.ongoing ==> i <= id
  }

  ghost predicate IsOldest(f: FileRec, id: int) {
    forall i :: i in f.ongoing ==> id <= i
  }

  lemma StartKeepsSettled(f: FileRec, id: int, added: nat)
    requires Settled(f) && f.future + added < TWO64
    requires forall i :: i in f.ongoing ==> i < id
    ensures Settled(f.WriteStarted(id, f.future + added))
    ensures f.WriteStarted(id, f.future + added).future == f.future + added
  {
    var g := f.WriteStarted(id, f.future + added);
    assert g.ongoing[id] == g.future && IsNewest(g, id);
  }

  // Completing writes in issue order keeps the file settled; so does completing one again.
  lemma EndKeepsSettled(f: FileRec, id: int)
    requires Settled(f) && IsOldest(f, id)
    ensures Settled(f.WriteEnded(id))
  {
    var g := f.WriteEnded(id);
    if id in f.ongoing {
      assert g.current == f.ongoing[id] && g.future == f.future && g.ongoing == f.ongoing - {id};
      var last :| last in f.ongoing && f.ongoing[last] == f.future && IsNewest(f, last);
      if last == id {
        assert forall i :: i in f.ongoing ==> i == id;
        assert g.ongoing == map[];
      } else {
        assert last in g.ongoing && g.ongoing[last] == g.future && IsNewest(g, last);
      }
    }
  }

  lemma EndingTwiceIsEndingOnce(f: FileRec, id: int)
    ensures f.WriteEnded(id).WriteEnded(id) == f.WriteEnded(id)
    ensures f.WriteEnded(id).future == f.future
  {
  }

  // ------------------------------------------------------------------ any interleaving

  datatype WriteEvent = Begin(id: int, added: nat) | End(id: int)

  ghost function Act(f: FileRec, e: WriteEvent): FileRec
    requires e.Begin? ==> f.future + e.added < TWO64
  {
    match e
    case Begin(id, added) => f.WriteStarted(id, f.future + added)
    case End(id) => f.WriteEnded(id)
  }

  // Ids come from an increasing counter; writes end in any order, any number of times.
  ghost predicate Legal(f: FileRec, events: seq<WriteEvent>)
    decreases |events|, 0
  {
    events == [] ||
    var init, e := events[..|events| - 1], events[|events| - 1];
    && Legal(f, init)
    && (e.Begin? ==> Play(f, init).future + e.added < TWO64 && forall i :: i in Targets(f, init) ==> i < e.id)
  }

  ghost function Play(f: FileRec, events: seq<WriteEvent>): FileRec
    requires Legal(f, events)
    decreases |events|, 1
  {
    if events == [] then f
    else Act(Play(f, events[..|events| - 1]), events[|events| - 1])
  }

  // The target of every write that was pending at first or issued since.
  ghost function Targets(f: FileRec, events: seq<WriteEvent>): map<int, u64>
    requires Legal(f, events)
    decreases |events|, 1
  {
    if events == [] then f.ongoing
    else
      var init, e := events[..|events| - 1], events[|events| - 1];
      if e.Begin? then Targets(f, init)[e.id := Play(f, init).future + e.added] else Targets(f, init)
  }

  // The writes that ended, in that order; ending twice counts once.
  ghost function Ended(f: FileRec, events: seq<WriteEvent>): seq<int>
    requires Legal(f, events)
  {
    if events == [] then []
    else
      var init, e := events[..|events| - 1], events[|events| - 1];
      if e.End? && e.id in Play(f, init).ongoing then Ended(f, init) + [e.id] else Ended(f, init)
  }

  // The writes that were begun, in that order.
  ghost function Begun(events: seq<WriteEvent>): seq<int> {
    if events == [] then []
    else
      var init, e := events[..|events| - 1], events[|events| - 1];
      if e.Begin? then Begun(init) + [e.id] else Begun(init)
  }

  ghost predicate HaveTargets(writes: seq<int>, targets: map<int, u64>) {
    forall i :: i in writes ==> i in targets
  }

  // The target of the last of the given writes, or `size` if there is none.
  ghost function LastTarget(targets: map<int, u64>, writes: seq<int>, size: u64): u64
    requires HaveTargets(writes, targets)
  {
    if writes == [] then size
    else
      var last := writes[|writes| - 1];
      assert last in writes && last in targets;
      targets[last]
  }

  // A pending write keeps the target it was issued with, from whatever state the file starts.
  lemma {:induction false} WritesHaveTargets(f: FileRec, events: seq<WriteEvent>)
    requires Legal(f, events)
    ensures var g, t := Play(f, events), Targets(f, events);
            && (forall i :: i in g.ongoing ==> i in t && g.ongoing[i] == t[i])
            && HaveTargets(Ended(f, events), t) && HaveTargets(Begun(events), t)
  {
    if events != [] {
      var init, e := events[..|events| - 1], events[|events| - 1];
      WritesHaveTargets(f, init);
      var g, t := Play(f, init), Targets(f, init);
      assert Play(f, events) == Act(g, e);
      assert Targets(f, events) == if e.Begin? then t[e.id := g.future + e.added] else t;
    }
  }

  // Whatever state the file starts from, and whatever the order: the current size is the target of
  // the write that ended last, and the future size that of the write begun last.
  lemma {:induction false} SizesAreLastTargets(f: FileRec, events: seq<WriteEvent>)
    requires Legal(f, events)
    ensures var g, t := Play(f, events), Targets(f, events);
            && HaveTargets(Ended(f, events), t) && HaveTargets(Begun(events), t)
            && g.current == LastTarget(t, Ended(f, events), f.current)
            && g.future == LastTarget(t, Begun(events), f.future)
  {
    WritesHaveTargets(f, events);
    if events != [] {
      var init, e := events[..|events| - 1], events[|events| - 1];
      SizesAreLastTargets(f, init);
      WritesHaveTargets(f, init);
      assert Play(f, events) == Act(Play(f, init), e);
    }
  }

  // Targets grow in issue order, and bound every size of the file.
  ghost predicate Monotone(g: FileRec, targets: map<int, u64>) {
    && (forall i :: i in g.ongoing ==> i in targets && g.ongoing[i] == targets[i])
    && (forall i :: i in targets ==> targets[i] <= g.future)
    && (forall i, j :: i in targets && j in targets && i < j ==> targets[i] <= targets[j])
    && g.current <= g.future
  }

  lemma {:induction false} TargetsAreMonotone(f: FileRec, events: seq<WriteEvent>)
    requires Legal(f, events) && Settled(f)
    ensures Monotone(Play(f, events), Targets(f, events))
    ensures f.future <= Play(f, events).future
  {
    if events != [] {
      var init, e := events[..|events| - 1], events[|events| - 1];
      TargetsAreMonotone(f, init);
      var g, t := Play(f, init), Targets(f, init);
      assert Play(f, events) == Act(g, e);
      assert Targets(f, events) == if e.Begin? then t[e.id := g.future + e.added] else t;
      assert Monotone(g, t);
    }
  }

  // The future size is the largest target.
  lemma {:induction false} FutureIsLargestTarget(f: FileRec, events: seq<WriteEvent>)
    requires Legal(f, events) && Settled(f)
    ensures var g, t := Play(f, events), Targets(f, events);
            && (t == map[] ==> g.future == f.future)
            && (t != map[] ==> exists i :: i in t && t[i] == g.future && forall j :: j in t ==> j <= i)
  {
    var g, t := Play(f, events), Targets(f, events);
    if events == [] {
      if t != map[] {
        var i :| i in f.ongoing && f.ongoing[i] == f.future && IsNewest(f, i);
        assert i in t && t[i] == g.future && forall j :: j in t ==> j <= i;
      }
    } else {
      var init, e := events[..|events| - 1], events[|events| - 1];
      FutureIsLargestTarget(f, init);
      if e.Begin? {
        assert e.id in t && t[e.id] == g.future && forall j :: j in t ==> j <= e.id;
      } else {
        assert t == Targets(f, init) && g.future == Play(f, init).future;
      }
    }
  }

  // After some write has ended, the two sizes agree exactly if the last write to end had the
  // largest target; the others may end in any order.
  lemma SizesAgreeIffLargestEndsLast(f: FileRec, events: seq<WriteEvent>)
    requires Legal(f, events) && Settled(f) && Ended(f, events) != []
    ensures var g, t, ended := Play(f, events), Targets(f, events), Ended(f, events);
            && ended[|ended| - 1] in t
            && (g.current == g.future <==> forall i :: i in t ==> t[i] <= t[ended[|ended| - 1]])
  {
    SizesAreLastTargets(f, events);
    TargetsAreMonotone(f, events);
    FutureIsLargestTarget(f, events);
  }

  // When writes end in issue order and none is left, the sizes agree.
  ghost predicate InOrder(f: FileRec, events: seq<WriteEvent>)
    requires Legal(f, events)
  {
    events == [] ||
    var init, e := events[..|events| - 1], events[|events| - 1];
    InOrder(f, init) && (e.End? ==> IsOldest(Play(f, init), e.id))
  }

  lemma {:induction false} IssueOrderSettles(f: FileRec, events: seq<WriteEvent>)
    requires Legal(f, events) && Settled(f) && InOrder(f, events)
    ensures Settled(Play(f, events))
  {
    hide Settled, IsOldest, Targets;
    if events != [] {
      var init, e := events[..|events| - 1], events[|events| - 1];
      IssueOrderSettles(f, init);
      TargetsAreMonotone(f, init);
      if e.Begin? {
        StartKeepsSettled(Play(f, init), e.id, e.added);
      } else {
        EndKeepsSettled(Play(f, init), e.id);
      }
    }
  }

  // Out of order they need not: the shorter write ending last hides the longer one.
  lemma OutOfOrderShrinks(f: FileRec, a: nat, b: nat)
    requires f.ongoing == map[] && f.current == f.future && b > 0 && f.future + a + b < TWO64
    ensures var g := f.WriteStarted(0, f.future + a).WriteStarted(1, f.future + a + b).WriteEnded(1).WriteEnded(0);
            g.ongoing == map[] && g.current == f.future + a && g.future == f.future + a + b
  {
    var g := f.WriteStarted(0, f.future + a).WriteStarted(1, f.future + a + b).WriteEnded(1).WriteEnded(0);
    assert g.ongoing == map[];
  }
}
