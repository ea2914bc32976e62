// Runs in which the 64-bit counters wrap: what the hypotheses of the ledger and of eviction exclude.
module Overflows {
  import opened Words
  import opened Volumes
  import opened Index
  import opened Eviction
  import opened Ledger
  import opened Handles
  import opened Systems
  import opened Appends

  // ------------------------------------------------------------------ runs, step by step

  // `ops` is a permitted run from `v` to `w` that loses `lost` bytes.
  ghost predicate Leads(v: Volume<nat>, ops: seq<Op<nat>>, w: Volume<nat>, lost: int) {
    WellFormed(v) && Permitted(v, ops) && Run(v, ops) == w && TotalLost(v, ops) == lost
  }

  ghost predicate StepsTo(v: Volume<nat>, op: Op<nat>, w: Volume<nat>, lost: int) {
    && WellFormed(v) && Safe(v, op) && !Breaking(v, op)
    && Apply(v, op) == Reply(Ok, w) && Lost(v, op) == lost
  }

  lemma NoStep(v: Volume<nat>)
    requires WellFormed(v)
    ensures Leads(v, [], v, 0)
  {
  }

  lemma OneStepMore(v: Volume<nat>, op: Op<nat>, x: Volume<nat>, rest: seq<Op<nat>>, w: Volume<nat>,
                    first: int, lost: int)
    requires StepsTo(v, op, x, first) && Leads(x, rest, w, lost)
    ensures Leads(v, [op] + rest, w, first + lost)
  {
    hide Apply, Safe, Breaking, WellFormed, Lost;
    assert ([op] + rest)[1..] == rest;
  }

  function Total(losses: seq<int>): int {
    if losses == [] then 0 else losses[0] + Total(losses[1..])
  }

  lemma {:induction false} StepByStep(states: seq<Volume<nat>>, ops: seq<Op<nat>>, losses: seq<int>,
                                      rest: seq<Op<nat>>, w: Volume<nat>, lost: int)
    requires |states| == |ops| + 1 && |losses| == |ops|
    requires forall i :: 0 <= i < |ops| ==> StepsTo(states[i], ops[i], states[i + 1], losses[i])
    requires Leads(states[|ops|], rest, w, lost)
    ensures Leads(states[0], ops + rest, w, Total(losses) + lost)
    decreases |ops|
  {
    hide StepsTo, Leads;
    if ops == [] {
      assert ops + rest == rest;
    } else {
      StepByStep(states[1..], ops[1..], losses[1..], rest, w, lost);
      OneStepMore(states[0], ops[0], states[1], ops[1..] + rest, w, losses[0], Total(losses[1..]) + lost);
      assert ops + rest == [ops[0]] + (ops[1..] + rest);
    }
  }

  // ------------------------------------------------------------------ a partition with one file

  ghost function FileA(current: u64, future: u64, ongoing: map<int, u64>, refs: u32): FileRec {
    FileRec("/", "a", current, future, ongoing, refs, 0, true)
  }

  ghost function Single(scheme: Scheme, size: u64, free: u64, f: FileRec): Volume<nat> {
    var cached := !scheme.NoCaching?;
    Volume(scheme, size, free, {"/"}, map[Key("/", "a") := 0], if cached then map[0 := 0] else map[],
           if cached then 1 else 0, map[0 := f])
  }

  lemma SingleIsWellFormed(scheme: Scheme, size: u64, free: u64, f: FileRec)
    ensures WellFormed(Single(scheme, size, free, f))
  {
  }

  lemma SplitA()
    ensures SplitPath("/a") == Key("/", "a")
  {
    assert "/a"[..1] == "/" && "/a"[1..] == "a";
  }

  lemma FirstOpen(scheme: Scheme, size: u64)
    requires !scheme.LRU?
    ensures StepsTo(Mounted(scheme, size), Op.Open("/a", Mode.Write, 0),
                    Single(scheme, size, size, FileA(0, 0, map[], 1)), 0)
  {
    hide SplitPath, LastSlash;
    SplitA();
    var v := Mounted<nat>(scheme, size);
    var w := Single(scheme, size, size, FileA(0, 0, map[], 1));
    assert OpenFile(v, "/a", Mode.Write, 0).after == w;
    SumNothing(v.meta);
  }

  lemma ReopenResult(scheme: Scheme, size: u64, free: u64, current: u64, future: u64, ongoing: map<int, u64>, refs: u32)
    requires refs < 9
    ensures var v := Single(scheme, size, free, FileA(current, future, ongoing, refs));
            var op := Op<nat>.Open("/a", Mode.Write, 1);
            && WellFormed(v) && Safe(v, op) && !Breaking(v, op)
            && Apply(v, op) == Reply(Ok, Single(scheme, size, Wrap64(free + current), FileA(0, 0, ongoing, refs + 1)))
  {
    hide WellFormed, Wrap64, SplitPath, LastSlash, CreateFile;
    SplitA();
    SingleIsWellFormed(scheme, size, free, FileA(current, future, ongoing, refs));
  }

  lemma ReopenStep(scheme: Scheme, size: u64, free: u64, current: u64, future: u64, ongoing: map<int, u64>, refs: u32)
    requires refs < 9
    ensures StepsTo(Single(scheme, size, free, FileA(current, future, ongoing, refs)), Op.Open("/a", Mode.Write, 1),
                    Single(scheme, size, Wrap64(free + current), FileA(0, 0, ongoing, refs + 1)), future - current)
  {
    hide WellFormed, Wrap64, SplitPath, LastSlash, Apply, Safe, Breaking;
    ReopenResult(scheme, size, free, current, future, ongoing, refs);
    SplitA();
    var v := Single(scheme, size, free, FileA(current, future, ongoing, refs));
    SumNothing(v.meta);
    SumOne(v.meta, 0);
  }

  lemma BeginStep(scheme: Scheme, size: u64, free: u64, current: u64, future: u64, ongoing: map<int, u64>, refs: u32,
                  id: int, n: u64)
    requires refs > 0 && (forall i :: i in ongoing ==> i < id) && future <= n <= free + future
    ensures StepsTo(Single(scheme, size, free, FileA(current, future, ongoing, refs)), Op.BeginWrite(0, id, 0, n),
                    Single(scheme, size, free + future - n, FileA(current, n, ongoing[id := n], refs)), 0)
  {
    hide WellFormed, CreateSpace;
    var f := FileA(current, future, ongoing, refs);
    var v := Single(scheme, size, free, f);
    SingleIsWellFormed(scheme, size, free, f);
    SumNothing(v.meta);
    assert AddedBytes(0, n, future) == n - future;
    assert v.files[Key("/", "a")] == 0;
    assert f.WriteStarted(id, n) == FileA(current, n, ongoing[id := n], refs);
    assert v.meta[0 := f.WriteStarted(id, n)] == map[0 := f.WriteStarted(id, n)];
    assert Objects(v, []) == {};
  }

  lemma FinishStep(scheme: Scheme, size: u64, free: u64, current: u64, future: u64, ongoing: map<int, u64>, refs: u32,
                   id: int)
    requires !scheme.LRU? && id in ongoing
    ensures StepsTo(Single(scheme, size, free, FileA(current, future, ongoing, refs)), Op.FinishWrite(0, id),
                    Single(scheme, size, free, FileA(ongoing[id], future, ongoing - {id}, refs)), 0)
  {
    var f := FileA(current, future, ongoing, refs);
    var v := Single(scheme, size, free, f);
    SingleIsWellFormed(scheme, size, free, f);
    hide WellFormed;
    SumNothing(v.meta);
    assert v.files[Key("/", "a")] == 0;
    assert v.meta[0 := f.WriteEnded(id)] == map[0 := f.WriteEnded(id)];
  }

  lemma CloseStep(scheme: Scheme, size: u64, free: u64, current: u64, future: u64, ongoing: map<int, u64>, refs: u32)
    requires 0 < refs < 9
    ensures StepsTo(Single(scheme, size, free, FileA(current, future, ongoing, refs)), Op.Close(0),
                    Single(scheme, size, free, FileA(current, future, ongoing, refs - 1)), 0)
  {
    var f := FileA(current, future, ongoing, refs);
    var v := Single(scheme, size, free, f);
    SingleIsWellFormed(scheme, size, free, f);
    hide WellFormed;
    SumNothing(v.meta);
    assert v.files[Key("/", "a")] == 0;
    assert v.meta[0 := f.(refs := refs - 1)] == map[0 := f.(refs := refs - 1)];
  }

  // ------------------------------------------------------------------ resets under writes in flight

  // Two writes of the same n bytes, and a reopening while both are in flight and after each ends.
  ghost function ResetTwice(n: u64): seq<Op<nat>> {
    [Op.Open("/a", Mode.Write, 0), Op.BeginWrite(0, 0, 0, n), Op.BeginWrite(0, 1, 0, n),
     Op.Open("/a", Mode.Write, 1), Op.FinishWrite(0, 0), Op.Open("/a", Mode.Write, 1), Op.FinishWrite(0, 1)]
  }

  lemma LostAndFound(n: int)
    ensures Total([0, 0, 0, n, 0, 0 - n, 0]) == 0
  {
    var t := [0, 0, 0, n, 0, 0 - n, 0];
    assert t[6..] == [0] && t[5..][1..] == t[6..] && t[4..][1..] == t[5..] && t[3..][1..] == t[4..];
    assert Total(t[6..]) == 0 && Total(t[5..]) == 0 - n && Total(t[4..]) == 0 - n && Total(t[3..]) == 0;
    assert t[2..][1..] == t[3..] && t[1..][1..] == t[2..];
    assert Total(t[2..]) == 0 && Total(t[1..]) == 0;
  }

  // The file is n bytes long, nothing is reserved, and free space is what it was: n bytes exist twice.
  lemma AfterResetTwice(scheme: Scheme, size: u64, n: u64, rest: seq<Op<nat>>, w: Volume<nat>, lost: int)
    requires !scheme.LRU? && n <= size
    requires Leads(Single(scheme, size, size, FileA(n, 0, map[], 3)), rest, w, lost)
    ensures Leads(Mounted(scheme, size), ResetTwice(n) + rest, w, lost)
  {
    hide Leads, StepsTo, Single, FileA;
    var both := map[0 := n, 1 := n];
    var s0 := Single(scheme, size, size, FileA(0, 0, map[], 1));
    var s1 := Single(scheme, size, size - n, FileA(0, n, map[0 := n], 1));
    var s2 := Single(scheme, size, size - n, FileA(0, n, both, 1));
    var s3 := Single(scheme, size, size - n, FileA(0, 0, both, 2));
    var s4 := Single(scheme, size, size - n, FileA(n, 0, map[1 := n], 2));
    var s5 := Single(scheme, size, size, FileA(0, 0, map[1 := n], 3));
    var s6 := Single(scheme, size, size, FileA(n, 0, map[], 3));
    FirstOpen(scheme, size);
    BeginStep(scheme, size, size, 0, 0, map[], 1, 0, n);
    assert map[][0 := n] == map[0 := n];
    BeginStep(scheme, size, size - n, 0, n, map[0 := n], 1, 1, n);
    assert map[0 := n][1 := n] == both;
    ReopenStep(scheme, size, size - n, 0, n, both, 1);
    FinishStep(scheme, size, size - n, 0, 0, both, 2, 0);
    assert both - {0} == map[1 := n];
    ReopenStep(scheme, size, size - n, n, 0, map[1 := n], 2);
    FinishStep(scheme, size, size, 0, 0, map[1 := n], 3, 1);
    assert map[1 := n] - {1} == map[];
    var states, losses := [Mounted(scheme, size), s0, s1, s2, s3, s4, s5, s6], [0, 0, 0, n, 0, 0 - n as int, 0];
    StepByStep(states, ResetTwice(n), losses, rest, w, lost);
    LostAndFound(n);
  }

  // A permitted run on a large enough partition after which the ledger fails over the integers: one
  // more reopening gives back bytes that free space can no longer count.
  lemma LedgerFailsOverIntegers(size: u64)
    requires size >= TWO64 / 2
    ensures var v, ops := Mounted<nat>(NoCaching, size), ResetTwice(size) + [Op.Open("/a", Mode.Write, 1)];
            && WellFormed(v) && Permitted(v, ops)
            && var w := Run(v, ops);
            && w.free + Reserved(w) + TotalLost(v, ops) == size - TWO64
  {
    hide StepsTo, Permitted, Run, TotalLost;
    var s6 := Single(NoCaching, size, size, FileA(size, 0, map[], 3));
    var w := Single(NoCaching, size, Wrap64(size + size), FileA(0, 0, map[], 4));
    ReopenStep(NoCaching, size, size, size, 0, map[], 3);
    assert WellFormed(w) by { SingleIsWellFormed(NoCaching, size, Wrap64(size + size), FileA(0, 0, map[], 4)); }
    assert Leads(w, [], w, 0) by { NoStep(w); }
    assert Leads(s6, [Op.Open("/a", Mode.Write, 1)], w, 0 - size as int) by {
      OneStepMore(s6, Op.Open("/a", Mode.Write, 1), w, [], w, 0 - size as int, 0);
      assert [Op<nat>.Open("/a", Mode.Write, 1)] + [] == [Op<nat>.Open("/a", Mode.Write, 1)];
    }
    AfterResetTwice(NoCaching, size, size, [Op.Open("/a", Mode.Write, 1)], w, 0 - size as int);
    SumOne(w.meta, 0);
    assert Live(w) == {0} by { assert w.files[Key("/", "a")] == 0; }
    WrapTurn(size + size - TWO64);
    assert Wrap64(size + size) == size + size - TWO64;
  }

  // On any partition that is large enough, a file of n bytes for which nothing is reserved.
  lemma FileOutgrowsItsReservation(scheme: Scheme, size: u64, n: u64)
    requires !scheme.LRU? && 0 < n <= size
    ensures var v := Mounted<nat>(scheme, size);
            && WellFormed(v) && Permitted(v, ResetTwice(n))
            && var w := Run(v, ResetTwice(n));
            0 in Live(w) && 0 in w.meta && w.meta[0].current == n && w.meta[0].future == 0
  {
    hide Permitted, Run, TotalLost;
    var w := Single(scheme, size, size, FileA(n, 0, map[], 3));
    SingleIsWellFormed(scheme, size, size, FileA(n, 0, map[], 3));
    NoStep(w);
    AfterResetTwice(scheme, size, n, [], w, 0);
    assert ResetTwice(n) + [] == ResetTwice(n);
    assert w.files[Key("/", "a")] == 0;
  }

  // ------------------------------------------------------------------ eviction that overlooks space

  const HALF: u64 := TWO64 / 2

  // Two closed files of 2^63 and 2^63 + 1 bytes on a partition of 2^64 - 1 bytes.
  ghost function TwoFiles(): Volume<nat> {
    Volume(FIFO, TWO64 - 1, HALF - 2, {"/"}, map[Key("/", "a") := 0, Key("/", "b") := 1], map[0 := 0, 1 := 1], 2,
           map[0 := FileA(HALF, 0, map[], 0), 1 := FileRec("/", "b", HALF + 1, HALF + 1, map[], 0, 1, true)])
  }

  ghost function TwoLargeFiles(): seq<Op<nat>> {
    ResetTwice(HALF) + [Op.Close(0), Op.Close(0), Op.Close(0), Op.Create("/b", HALF + 1, 1)]
  }

  lemma SplitB()
    ensures SplitPath("/b") == Key("/", "b")
  {
    assert "/b"[..1] == "/" && "/b"[1..] == "b";
  }

  lemma SplitC()
    ensures SplitPath("/c") == Key("/", "c")
  {
    assert "/c"[..1] == "/" && "/c"[1..] == "c";
  }

  lemma CreateStep()
    ensures WellFormed(TwoFiles())
    ensures StepsTo(Single(FIFO, TWO64 - 1, TWO64 - 1, FileA(HALF, 0, map[], 0)),
                    Op.Create("/b", HALF + 1, 1), TwoFiles(), 0)
  {
    hide WellFormed, SplitPath, LastSlash;
    SplitB();
    var v, w := Single(FIFO, TWO64 - 1, TWO64 - 1, FileA(HALF, 0, map[], 0)), TwoFiles();
    SingleIsWellFormed(FIFO, TWO64 - 1, TWO64 - 1, FileA(HALF, 0, map[], 0));
    SumNothing(v.meta);
    TwoFilesAreWellFormed();
    InstallB(v);
    hide Install;
    assert Objects(v, []) == {};
  }

  lemma InstallB(v: Volume<nat>)
    requires v == Single(FIFO, TWO64 - 1, TWO64 - 1, FileA(HALF, 0, map[], 0)) && WellFormed(v)
    ensures Install(v, Key("/", "b"), HALF + 1, 1) == TwoFiles()
  {
    hide WellFormed;
    var x, w := Install(v, Key("/", "b"), HALF + 1, 1), TwoFiles();
    assert x.files == w.files && x.priority == w.priority && x.meta == w.meta;
  }

  lemma TwoFilesAreWellFormed()
    ensures WellFormed(TwoFiles())
  {
  }

  lemma TwoLargeFilesLeadThere()
    ensures Leads(Mounted(FIFO, TWO64 - 1), TwoLargeFiles(), TwoFiles(), 0)
  {
    hide Leads, StepsTo, Single, FileA, TwoFiles;
    var size: u64 := TWO64 - 1;
    var s3 := Single(FIFO, size, size, FileA(HALF, 0, map[], 3));
    var s2 := Single(FIFO, size, size, FileA(HALF, 0, map[], 2));
    var s1 := Single(FIFO, size, size, FileA(HALF, 0, map[], 1));
    var s0 := Single(FIFO, size, size, FileA(HALF, 0, map[], 0));
    CloseStep(FIFO, size, size, HALF, 0, map[], 3);
    CloseStep(FIFO, size, size, HALF, 0, map[], 2);
    CloseStep(FIFO, size, size, HALF, 0, map[], 1);
    CreateStep();
    NoStep(TwoFiles());
    var ops: seq<Op<nat>> := [Op.Close(0), Op.Close(0), Op.Close(0), Op.Create("/b", HALF + 1, 1)];
    StepByStep([s3, s2, s1, s0, TwoFiles()], ops, [0, 0, 0, 0], [], TwoFiles(), 0);
    assert ops + [] == ops;
    assert [0, 0, 0, 0][1..] == [0, 0, 0] && [0, 0, 0][1..] == [0, 0] && [0, 0][1..] == [0];
    AfterResetTwice(FIFO, size, HALF, ops, TwoFiles(), 0);
  }

  // A new file is refused for want of space although free space and the closed evictable files
  // hold enough: the shortest run of victims that suffices is two files, whose sizes pass 64 bits.
  ghost predicate OverlooksSpace(w: Volume<nat>) {
    && WellFormed(w)
    && var op := Op<nat>.Create("/c", TWO64 - 1, 2);
    && Safe(w, op) && Apply(w, op) == Reply(NotEnoughSpace, w)
    && w.free + Sizes(w, Candidates(w)) >= TWO64 - 1
    && IsShortest(w, HALF + 1, 2) && Sizes(w, Candidates(w)[..2]) >= TWO64
  }

  // A permitted run from mounting that ends there.
  lemma EvictionOverlooksSpace()
    ensures var v := Mounted<nat>(FIFO, TWO64 - 1);
            WellFormed(v) && Permitted(v, TwoLargeFiles()) && OverlooksSpace(Run(v, TwoLargeFiles()))
  {
    hide Permitted, Run, TotalLost, OverlooksSpace;
    TwoLargeFilesLeadThere();
    CounterWrapsOnTwoFiles();
  }

  lemma CounterWrapsOnTwoFiles()
    ensures OverlooksSpace(TwoFiles())
  {
    hide WellFormed, Candidates, Sizes, CreateSpace, Ranks;
    SplitC();
    TwoFilesAreWellFormed();
    TwoFilesRanked();
    TwoSizes();
    SelectWraps(TwoFiles(), HALF + 1);
    assert [0, 1][..2] == [0, 1] && [0, 1][..1] == [0];
    assert MakeRoom(TwoFiles(), TWO64 - 1) == CreateSpace(TwoFiles(), HALF + 1);
  }

  lemma TwoSizes()
    requires WellFormed(TwoFiles())
    ensures Listed(TwoFiles(), [0, 1]) && Sizes(TwoFiles(), [0, 1]) == TWO64 + 1
    ensures Listed(TwoFiles(), [0]) && Sizes(TwoFiles(), [0]) == HALF
  {
    hide WellFormed;
    var w := TwoFiles();
    SizesCons(w, 1, []);
    assert [1] + [] == [1];
    SizesCons(w, 0, [1]);
    SizesCons(w, 0, []);
    assert [0] + [1] == [0, 1] && [0] + [] == [0];
  }

  lemma TwoFilesRanked()
    ensures WellFormed(TwoFiles()) && Ranks(TwoFiles()) == [0, 1] && Candidates(TwoFiles()) == [0, 1]
  {
    TwoFilesAreWellFormed();
    hide WellFormed;
    var w := TwoFiles();
    assert Ascending(w.priority, 0) == [];
    assert Ascending(w.priority, 1) == [0];
    assert Ranks(w) == [0, 1];
    TwoEligible(w);
  }

  lemma TwoEligible(w: Volume<nat>)
    requires w == TwoFiles() && WellFormed(w)
    ensures Listed(w, [0, 1]) && Eligible(w, [0, 1]) == [0, 1]
  {
    hide WellFormed;
    assert [0, 1][1..] == [1] && [1][1..] == [];
    assert Eligible(w, [1]) == [1] + Eligible(w, []);
    assert Eligible(w, [0, 1]) == [0] + Eligible(w, [1]);
  }

  lemma SelectWraps(w: Volume<nat>, n: u64)
    requires w == TwoFiles() && n == HALF + 1 && WellFormed(w) && Ranks(w) == [0, 1]
    ensures CreateSpace(w, n) == Reply(NotEnoughSpace, w)
  {
    hide WellFormed;
    assert [0, 1][1..] == [1] && [1][1..] == [];
    WrapTurn(1);
    assert Wrap64(HALF + (HALF + 1)) == 1;
    assert Select(w, [], 1, n) == ([], 1) && [1] + [] == [1];
    assert Select(w, [1], HALF, n) == ([1], 1);
  }

  // ------------------------------------------------------------------ appends that overlap

  ghost function OnePartition(size: u64, f: FileRec, pos: u64, nextId: int): System<nat> {
    System(map["/p" := Single(NoCaching, size, size, f)],
           [Handle("/p", Key("/", "a"), 0, Append, pos, true)], 1, 1, nextId)
  }

  ghost function SeekFarAndAppendTwice(): seq<Step<nat>> {
    [OpenHandle("/p", "/a", Append, 0), SeekHandle(0, HALF - 1), WriteHandle(0, HALF + 1), WriteHandle(0, HALF + 1)]
  }

  lemma OpenForAppend(size: u64)
    ensures var s := System(map["/p" := Mounted<nat>(NoCaching, size)], [], 0, 1, 0);
            var step := Step<nat>.OpenHandle("/p", "/a", Append, 0);
            && Fresh(s) && Allowed(s, step)
            && !AppendsTo(s, step, "/p", 0)
            && Next(s, step) == Result(Ok, OnePartition(size, FileA(0, 0, map[], 1), 0, 0))
  {
    hide SplitPath, LastSlash;
    SplitA();
    var v, w := Mounted<nat>(NoCaching, size), Single(NoCaching, size, size, FileA(0, 0, map[], 1));
    assert OpenFile(v, "/a", Append, 0).after == w;
  }

  // The end of the append wraps to 0: nothing is reserved, and the position stays.
  lemma FarAppend(size: u64, ongoing: map<int, u64>, id: int)
    requires forall i :: i in ongoing ==> i < id
    ensures var s := OnePartition(size, FileA(0, 0, ongoing, 1), HALF - 1, id);
            var step := Step<nat>.WriteHandle(0, HALF + 1);
            && Allowed(s, step)
            && Next(s, step) == Result(Ok, OnePartition(size, FileA(0, 0, ongoing[id := 0], 1), HALF - 1, id + 1))
            && AppendsTo(s, step, "/p", 0) && AppendRange(s, step, "/p", 0) == Range(HALF - 1, TWO64)
  {
    var f := FileA(0, 0, ongoing, 1);
    var v := Single(NoCaching, size, size, f);
    SingleIsWellFormed(NoCaching, size, size, f);
    hide WellFormed;
    WrapTurn(0);
    assert AddedBytes(HALF - 1, HALF + 1, 0) == 0;
    assert v.meta[0 := f.WriteStarted(id, 0)] == map[0 := f.WriteStarted(id, 0)];
    assert StartWrite(v, 0, id, HALF - 1, HALF + 1)
        == Reply(Ok, Single(NoCaching, size, size, FileA(0, 0, ongoing[id := 0], 1)));
  }

  // Two appends of one handle that was moved far past the end reserve the same bytes.
  lemma AppendsMayOverlap(size: u64)
    ensures var s, steps := System(map["/p" := Mounted<nat>(NoCaching, size)], [], 0, 1, 0), SeekFarAndAppendTwice();
            && Fresh(s) && Runs(s, steps)
            && AppendRanges(s, steps, "/p", 0) == [Range(HALF - 1, TWO64), Range(HALF - 1, TWO64)]
  {
    hide StartWrite, OpenFile, Single, WellFormed, Opened, WriteTo, Next, Allowed, AppendsTo, AppendRange, FileA;
    OpenForAppend(size);
    FarAppend(size, map[], 0);
    FarAppend(size, map[0 := 0], 1);
    FarSeek(size);
    var s := System(map["/p" := Mounted<nat>(NoCaching, size)], [], 0, 1, 0);
    var s1 := OnePartition(size, FileA(0, 0, map[], 1), 0, 0);
    var s2 := OnePartition(size, FileA(0, 0, map[], 1), HALF - 1, 0);
    var s3 := OnePartition(size, FileA(0, 0, map[0 := 0], 1), HALF - 1, 1);
    var open, seek, write := Step<nat>.OpenHandle("/p", "/a", Append, 0), Step<nat>.SeekHandle(0, HALF - 1),
      Step<nat>.WriteHandle(0, HALF + 1);
    assert map[][0 := 0 as u64] == map[0 := 0];
    AppendsInFront(s3, write, []);
    AppendsInFront(s2, write, [write]);
    AppendsInFront(s1, seek, [write, write]);
    AppendsInFront(s, open, [seek, write, write]);
    assert [write] + [] == [write] && [write] + [write] == [write, write];
    assert [seek] + [write, write] == [seek, write, write];
    assert [open] + [seek, write, write] == SeekFarAndAppendTwice();
  }

  lemma FarSeek(size: u64)
    ensures var s, step := OnePartition(size, FileA(0, 0, map[], 1), 0, 0), Step<nat>.SeekHandle(0, HALF - 1);
            && Allowed(s, step) && !AppendsTo(s, step, "/p", 0)
            && Next(s, step) == Result(Ok, OnePartition(size, FileA(0, 0, map[], 1), HALF - 1, 0))
  {
    SingleIsWellFormed(NoCaching, size, size, FileA(0, 0, map[], 1));
    hide WellFormed;
  }

  lemma AppendsInFront(s: System<nat>, step: Step<nat>, rest: seq<Step<nat>>)
    requires Allowed(s, step) && Runs(Next(s, step).after, rest)
    ensures Runs(s, [step] + rest)
    ensures AppendRanges(s, [step] + rest, "/p", 0)
            == (if AppendsTo(s, step, "/p", 0) then [AppendRange(s, step, "/p", 0)] else [])
               + AppendRanges(Next(s, step).after, rest, "/p", 0)
  {
    hide Next, Allowed, AppendsTo, AppendRange;
    assert ([step] + rest)[1..] == rest;
  }
}
