// create_space is exact: it evicts the shortest run of eligible files, in priority order, that
// frees the requested space, or nothing at all.
module Eviction {
  import opened Words
  import opened Sums
  import opened Volumes
  import opened Index

  ghost predicate Listed<M>(v: Volume<M>, ranks: seq<nat>) {
    forall r :: r in ranks ==> r in v.priority
  }

  // The current sizes of the listed files, added up as integers.
  ghost function Sizes<M>(v: Volume<M>, ranks: seq<nat>): (total: nat)
    requires WellFormed(v) && Listed(v, ranks)
  {
    if ranks == [] then 0 else v.meta[v.priority[ranks[0]]].current + Sizes(v, ranks[1..])
  }

  // The closed, evictable files among those listed, in the same order.
  ghost function Eligible<M>(v: Volume<M>, ranks: seq<nat>): (c: seq<nat>)
    requires WellFormed(v) && Listed(v, ranks)
    ensures Listed(v, c)
    ensures forall r :: r in c <==>
              r in ranks && v.meta[v.priority[r]].refs == 0 && v.meta[v.priority[r]].evictable
    ensures |c| <= |ranks|
  {
    if ranks == [] then []
    else
      var rest := Eligible(v, ranks[1..]);
      if v.meta[v.priority[ranks[0]]].IsVictim() then [ranks[0]] + rest else rest
  }

  ghost function Candidates<M>(v: Volume<M>): (c: seq<nat>)
    requires WellFormed(v)
    ensures Listed(v, c)
    ensures forall r :: r in c <==>
              r in v.priority && v.meta[v.priority[r]].refs == 0 && v.meta[v.priority[r]].evictable
  {
    Eligible(v, Ranks(v))
  }

  lemma {:induction false} SizesAppend<M>(v: Volume<M>, a: seq<nat>, b: seq<nat>)
    requires WellFormed(v) && Listed(v, a) && Listed(v, b)
    ensures Listed(v, a + b) && Sizes(v, a + b) == Sizes(v, a) + Sizes(v, b)
  {
    if a == [] {
      assert a + b == b;
    } else {
      SizesAppend(v, a[1..], b);
      assert a + b == [a[0]] + (a[1..] + b);
    }
  }

  lemma SizesPrefix<M>(v: Volume<M>, c: seq<nat>, i: nat, j: nat)
    requires WellFormed(v) && Listed(v, c) && i <= j <= |c|
    ensures Listed(v, c[..i]) && Listed(v, c[..j])
    ensures Sizes(v, c[..i]) <= Sizes(v, c[..j])
  {
    assert c[..j] == c[..i] + c[i..j];
    SizesAppend(v, c[..i], c[i..j]);
  }

  // ------------------------------------------------------------------ phase one

  lemma SizesCons<M>(v: Volume<M>, r: nat, rest: seq<nat>)
    requires WellFormed(v) && Listed(v, rest) && r in v.priority
    ensures Listed(v, [r] + rest)
    ensures Sizes(v, [r] + rest) == v.meta[v.priority[r]].current + Sizes(v, rest)
  {
    assert ([r] + rest)[1..] == rest;
  }

  // What the 64-bit counter holds once the first `i` of the listed files are added to `acc`.
  ghost function Tally<M>(v: Volume<M>, c: seq<nat>, acc: u64, i: nat): u64
    requires WellFormed(v) && Listed(v, c) && i <= |c|
  {
    SizesPrefix(v, c, i, i);
    Wrap64(acc + Sizes(v, c[..i]))
  }

  lemma TallyCons<M>(v: Volume<M>, r: nat, rest: seq<nat>, acc: u64, i: nat)
    requires WellFormed(v) && Listed(v, rest) && r in v.priority && i <= |rest|
    ensures Listed(v, [r] + rest)
    ensures Tally(v, [r] + rest, acc, i + 1) == Tally(v, rest, Wrap64(acc + v.meta[v.priority[r]].current), i)
  {
    SizesPrefix(v, rest, i, i);
    SizesCons(v, r, rest[..i]);
    SizesCons(v, r, rest);
    assert ([r] + rest)[..i + 1] == [r] + rest[..i];
    WrapAdd(acc + v.meta[v.priority[r]].current, Sizes(v, rest[..i]));
  }

  // The loop stops after the first `j` files: its counter has not reached `n` before, and has now
  // or else no file is left.
  ghost predicate Stops<M>(v: Volume<M>, c: seq<nat>, acc: u64, n: u64, j: nat)
    requires WellFormed(v) && Listed(v, c)
  {
    && j <= |c|
    && (forall i :: 0 < i < j ==> Tally(v, c, acc, i) < n)
    && (j == |c| || (0 < j && Tally(v, c, acc, j) >= n))
  }

  lemma StopsCons<M>(v: Volume<M>, r: nat, rest: seq<nat>, acc: u64, n: u64, j: nat)
    requires WellFormed(v) && Listed(v, rest) && r in v.priority && v.meta[v.priority[r]].IsVictim()
    requires Wrap64(acc + v.meta[v.priority[r]].current) < n
    requires Stops(v, rest, Wrap64(acc + v.meta[v.priority[r]].current), n, j)
    ensures Listed(v, [r] + rest) && Stops(v, [r] + rest, acc, n, j + 1)
  {
    var c, next := [r] + rest, Wrap64(acc + v.meta[v.priority[r]].current);
    SizesCons(v, r, rest);
    forall i | 0 < i < j + 1
      ensures Tally(v, c, acc, i) < n
    {
      TallyCons(v, r, rest, acc, i - 1);
      if i == 1 {
        TallyNothing(v, rest, next);
      }
    }
    TallyCons(v, r, rest, acc, j);
  }

  lemma TallyNothing<M>(v: Volume<M>, c: seq<nat>, acc: u64)
    requires WellFormed(v) && Listed(v, c)
    ensures Tally(v, c, acc, 0) == acc
  {
    assert c[..0] == [];
  }

  // Phase one, whatever the sizes: the victims are the first closed evictable files, up to where
  // the counter first reaches the request, and the space found is what the counter holds.
  lemma {:induction false} SelectStopsAtFirst<M>(v: Volume<M>, ranks: seq<nat>, acc: u64, n: u64)
    requires WellFormed(v) && Listed(v, ranks)
    ensures var (victims, total) := Select(v, ranks, acc, n);
            var c := Eligible(v, ranks);
            && victims <= c
            && Stops(v, c, acc, n, |victims|)
            && total == Tally(v, c, acc, |victims|)
  {
    hide Tally, Wrap64, Indexed;
    if ranks == [] {
      TallyNothing(v, [], acc);
    } else {
      var r, f, rest := ranks[0], v.meta[v.priority[ranks[0]]], Eligible(v, ranks[1..]);
      var next := Wrap64(acc + f.current);
      if !f.IsVictim() {
        SelectStopsAtFirst(v, ranks[1..], acc, n);
      } else if next >= n {
        TallyCons(v, r, rest, acc, 0);
        TallyNothing(v, rest, next);
      } else {
        SelectStopsAtFirst(v, ranks[1..], next, n);
        var more := Select(v, ranks[1..], next, n).0;
        StopsCons(v, r, rest, acc, n, |more|);
        TallyCons(v, r, rest, acc, |more|);
      }
    }
  }

  // ------------------------------------------------------------------ phase two

  // The volume without the files of the given ranks.
  ghost function Without<M>(v: Volume<M>, ranks: seq<nat>): Volume<M>
    requires WellFormed(v) && Listed(v, ranks)
  {
    v.(files := map k | k in v.files && v.meta[v.files[k]].rank !in ranks :: v.files[k],
       priority := map r | r in v.priority && r !in ranks :: v.priority[r],
       free := Wrap64(v.free + Sizes(v, ranks)))
  }

  lemma WithoutNothing<M>(v: Volume<M>)
    requires WellFormed(v)
    ensures Without(v, []) == v
  {
    assert Without(v, []).files == v.files;
    assert Without(v, []).priority == v.priority;
  }

  ghost predicate Distinct(s: seq<nat>) {
    forall i, j :: 0 <= i < j < |s| ==> s[i] != s[j]
  }

  ghost predicate AllVictims<M>(v: Volume<M>, ranks: seq<nat>)
    requires WellFormed(v)
  {
    Listed(v, ranks) && Distinct(ranks) && forall r :: r in ranks ==> v.meta[v.priority[r]].IsVictim()
  }

  lemma DeleteVictim<M>(v: Volume<M>, r: nat)
    requires WellFormed(v) && Indexed(v) && !v.scheme.NoCaching?
    requires r in v.priority && v.meta[v.priority[r]].refs == 0
    ensures DeleteFile(v, v.meta[v.priority[r]].Place()) == Reply(Ok, Without(v, [r]))
  {
    assert AtHome(v, v.priority[r]);
    var w := DeleteFile(v, v.meta[v.priority[r]].Place()).after;
    var x := Without(v, [r]);
    WithoutOne(v, r);
    assert w == x;
  }

  lemma WithoutOne<M>(v: Volume<M>, r: nat)
    requires WellFormed(v) && Indexed(v) && !v.scheme.NoCaching? && r in v.priority
    ensures var f := v.meta[v.priority[r]];
            Without(v, [r]) == v.(files := v.files - {f.Place()},
                                  priority := v.priority - {r},
                                  free := Wrap64(v.free + f.current))
  {
    var f := v.meta[v.priority[r]];
    var x := Without(v, [r]);
    assert AtHome(v, v.priority[r]);
    forall k | k in v.files
      ensures k == f.Place() <==> v.meta[v.files[k]].rank == r
    {
      assert Ranked(v, v.files[k]);
    }
    assert x.files == v.files - {f.Place()};
    assert x.priority == v.priority - {r};
    SizesCons(v, r, []);
    assert [r] + [] == [r];
  }

  lemma WithoutTwice<M>(v: Volume<M>, r: nat, rest: seq<nat>)
    requires WellFormed(v) && Listed(v, [r] + rest) && r !in rest
    requires WellFormed(Without(v, [r]))
    ensures Listed(Without(v, [r]), rest)
    ensures Without(Without(v, [r]), rest) == Without(v, [r] + rest)
  {
    var w, victims := Without(v, [r]), [r] + rest;
    assert forall i :: i in victims <==> i == r || i in rest;
    assert Without(w, rest).files == Without(v, victims).files;
    assert Without(w, rest).priority == Without(v, victims).priority;
    FreeTwice(v, r, rest);
  }

  lemma FreeTwice<M>(v: Volume<M>, r: nat, rest: seq<nat>)
    requires WellFormed(v) && Listed(v, [r] + rest) && Listed(v, rest) && r !in rest
    requires WellFormed(Without(v, [r]))
    ensures Listed(Without(v, [r]), rest)
    ensures Without(Without(v, [r]), rest).free == Without(v, [r] + rest).free
  {
    hide WellFormed, Wrap64;
    SameSizes(v, Without(v, [r]), rest);
    SizesCons(v, r, rest);
    SizesCons(v, r, []);
    assert [r] + [] == [r];
    WrapAdd(v.free + Sizes(v, [r]), Sizes(v, rest));
  }

  lemma {:induction false} SameSizes<M>(v: Volume<M>, w: Volume<M>, ranks: seq<nat>)
    requires WellFormed(v) && WellFormed(w) && Listed(v, ranks) && Listed(w, ranks)
    requires forall r :: r in ranks ==> v.priority[r] == w.priority[r]
    requires v.meta == w.meta
    ensures Sizes(v, ranks) == Sizes(w, ranks)
  {
    if ranks != [] {
      assert ranks[0] in ranks;
      SameSizes(v, w, ranks[1..]);
    }
  }

  // Phase two never meets a missing victim, a missing file or an open file.
  lemma {:induction false} DeleteVictimsDeletesThem<M>(v: Volume<M>, victims: seq<nat>)
    requires WellFormed(v) && Indexed(v) && !v.scheme.NoCaching? && AllVictims(v, victims)
    ensures DeleteVictims(v, victims) == Reply(Ok, Without(v, victims))
    decreases |victims|
  {
    if victims == [] {
      WithoutNothing(v);
    } else {
      var r, rest := victims[0], victims[1..];
      assert victims == [r] + rest;
      assert r !in rest;
      var place := v.meta[v.priority[r]].Place();
      DeleteVictim(v, r);
      DeleteKeepsIndex(v, place);
      var w := Without(v, [r]);
      assert w == DeleteFile(v, place).after;
      DeleteVictimsDeletesThem(w, rest);
      WithoutTwice(v, r, rest);
    }
  }

  // ------------------------------------------------------------------ both phases

  lemma {:induction false} EligibleIsAscending<M>(v: Volume<M>, ranks: seq<nat>)
    requires WellFormed(v) && Listed(v, ranks)
    requires forall i, j :: 0 <= i < j < |ranks| ==> ranks[i] < ranks[j]
    ensures forall i, j :: 0 <= i < j < |Eligible(v, ranks)| ==> Eligible(v, ranks)[i] < Eligible(v, ranks)[j]
  {
    if ranks != [] {
      EligibleIsAscending(v, ranks[1..]);
      var rest := Eligible(v, ranks[1..]);
      forall i | 0 <= i < |rest|
        ensures ranks[0] < rest[i]
      {
        assert rest[i] in rest;
      }
    }
  }

  lemma SelectedAreVictims<M>(v: Volume<M>, n: u64)
    requires WellFormed(v)
    ensures AllVictims(v, Victims(v, n).0)
  {
    var victims := Victims(v, n).0;
    SelectStopsAtFirst(v, Ranks(v), 0, n);
    AscendingIsSorted(v.priority, v.counter);
    EligibleIsAscending(v, Ranks(v));
    assert forall r :: r in victims ==> r in Candidates(v);
  }

  // The counter reaches `n` at the `j`-th candidate, and not before.
  ghost predicate ReachesFirst<M>(v: Volume<M>, n: u64, j: nat)
    requires WellFormed(v)
  {
    var c := Candidates(v);
    0 < j <= |c| && Tally(v, c, 0, j) >= n && forall i :: 0 < i < j ==> Tally(v, c, 0, i) < n
  }

  ghost predicate Reaches<M>(v: Volume<M>, n: u64)
    requires WellFormed(v)
  {
    exists j: nat :: ReachesFirst(v, n, j)
  }

  // What create_space does, whatever the sizes: it evicts up to where its counter first reaches the
  // request, and is refused without any change if its counter never does.
  lemma EvictionFollowsCounter<M>(v: Volume<M>, n: u64)
    requires WellFormed(v) && Indexed(v) && !v.scheme.NoCaching? && n > 0
    ensures forall j: nat :: ReachesFirst(v, n, j) ==>
              Listed(v, Candidates(v)[..j]) && CreateSpace(v, n) == Reply(Ok, Without(v, Candidates(v)[..j]))
    ensures !Reaches(v, n) ==> CreateSpace(v, n) == Reply(NotEnoughSpace, v)
  {
    hide Select, DeleteVictims, Tally, Without, WellFormed, Indexed;
    var c := Candidates(v);
    var (victims, total) := Victims(v, n);
    SelectStopsAtFirst(v, Ranks(v), 0, n);
    SelectedAreVictims(v, n);
    TallyNothing(v, c, 0);
    assert victims == c[..|victims|];
    if total >= n {
      assert ReachesFirst(v, n, |victims|);
      DeleteVictimsDeletesThem(v, victims);
    }
    forall j: nat | ReachesFirst(v, n, j)
      ensures total >= n && j == |victims|
    {
    }
  }

  // The first `j` candidates are the shortest run of candidates that frees `n` bytes.
  ghost predicate IsShortest<M>(v: Volume<M>, n: u64, j: nat)
    requires WellFormed(v)
  {
    var c := Candidates(v);
    0 < j <= |c| && Sizes(v, c[..j]) >= n && Sizes(v, c[..j - 1]) < n
  }

  // The reply is that of deleting exactly the first `j` candidates.
  ghost predicate Deletes<M>(v: Volume<M>, j: nat, r: Reply<M>)
    requires WellFormed(v) && j <= |Candidates(v)|
  {
    var victims := Candidates(v)[..j];
    Listed(v, victims) && r == Reply(Ok, Without(v, victims))
  }

  // And free space is raised by the sum of their sizes.
  ghost predicate Evicts<M>(v: Volume<M>, j: nat, r: Reply<M>)
    requires WellFormed(v) && j <= |Candidates(v)|
  {
    Deletes(v, j, r) && r.after.free == v.free + Sizes(v, Candidates(v)[..j])
  }

  lemma ShortestIsUnique<M>(v: Volume<M>, n: u64, i: nat, j: nat)
    requires WellFormed(v) && IsShortest(v, n, i) && IsShortest(v, n, j)
    ensures i == j
  {
    if i < j {
      SizesPrefix(v, Candidates(v), i, j - 1);
    } else if j < i {
      SizesPrefix(v, Candidates(v), j, i - 1);
    }
  }

  lemma {:induction false} ShortestExists<M>(v: Volume<M>, n: u64, k: nat) returns (j: nat)
    requires WellFormed(v) && n > 0 && k <= |Candidates(v)| && Sizes(v, Candidates(v)[..k]) >= n
    ensures IsShortest(v, n, j) && j <= k
    decreases k
  {
    var c := Candidates(v);
    assert c[..0] == [];
    if Sizes(v, c[..k - 1]) >= n {
      j := ShortestExists(v, n, k - 1);
    } else {
      j := k;
    }
  }

  // As long as the sizes of the shortest run fit 64 bits, that is where the counter stops.
  lemma ShortestIsReached<M>(v: Volume<M>, n: u64, j: nat)
    requires WellFormed(v) && n > 0 && IsShortest(v, n, j)
    requires Sizes(v, Candidates(v)[..j]) < TWO64
    ensures ReachesFirst(v, n, j)
  {
    var c := Candidates(v);
    forall i | 0 < i < j
      ensures Tally(v, c, 0, i) < n
    {
      SizesPrefix(v, c, i, j - 1);
    }
  }

  // Otherwise the counter, which wraps once at the last file of the run, passes it by.
  lemma ShortestIsMissed<M>(v: Volume<M>, n: u64, j: nat)
    requires WellFormed(v) && n > 0 && IsShortest(v, n, j)
    requires Sizes(v, Candidates(v)[..j]) >= TWO64
    ensures !ReachesFirst(v, n, j)
  {
    hide Indexed;
    var c := Candidates(v);
    SizesPrefix(v, c, j - 1, j);
    OneFileMore(v, c, j);
    var past := Sizes(v, c[..j]) - TWO64;
    WrapTurn(past);
    assert Tally(v, c, 0, j) == Wrap64(past + TWO64) == past < n;
  }

  lemma OneFileMore<M>(v: Volume<M>, c: seq<nat>, j: nat)
    requires WellFormed(v) && Listed(v, c) && 0 < j <= |c|
    ensures Listed(v, c[..j]) && Listed(v, c[..j - 1])
    ensures Sizes(v, c[..j]) < Sizes(v, c[..j - 1]) + TWO64
  {
    var r := c[j - 1];
    assert c[..j] == c[..j - 1] + [r] && r in c;
    SizesAppend(v, c[..j - 1], [r]);
    SizesCons(v, r, []);
    assert [r] + [] == [r];
  }

  lemma OtherVictims<M>(v: Volume<M>, i: nat, j: nat)
    requires WellFormed(v) && i < j <= |Candidates(v)|
    ensures var c := Candidates(v);
            Listed(v, c[..i]) && Listed(v, c[..j]) && Without(v, c[..i]) != Without(v, c[..j])
  {
    hide WellFormed, Candidates;
    var c := Candidates(v);
    CandidatesAscend(v);
    assert c[i] in c && c[i] in c[..j] && c[i] !in c[..i];
    assert c[i] in Without(v, c[..i]).priority && c[i] !in Without(v, c[..j]).priority;
  }

  lemma CandidatesAscend<M>(v: Volume<M>)
    requires WellFormed(v)
    ensures forall i, j :: 0 <= i < j < |Candidates(v)| ==> Candidates(v)[i] < Candidates(v)[j]
  {
    hide WellFormed, Ascending, Eligible;
    AscendingIsSorted(v.priority, v.counter);
    EligibleIsAscending(v, Ranks(v));
  }

  // create_space is exact. It is refused, without any change, when the closed evictable files do not
  // hold n bytes. Otherwise it deletes exactly the shortest run of them that does if and only if the
  // sizes of that run fit 64 bits, and then raises free space by their sum as long as it fits too.
  lemma EvictionIsExact<M>(v: Volume<M>, n: u64)
    requires WellFormed(v) && Indexed(v) && !v.scheme.NoCaching? && n > 0
    ensures Sizes(v, Candidates(v)) < n ==> CreateSpace(v, n) == Reply(NotEnoughSpace, v)
    ensures Sizes(v, Candidates(v)) >= n ==> exists j: nat :: IsShortest(v, n, j)
    ensures forall j: nat :: IsShortest(v, n, j) ==>
              && (Deletes(v, j, CreateSpace(v, n)) <==> Sizes(v, Candidates(v)[..j]) < TWO64)
              && (Evicts(v, j, CreateSpace(v, n)) <==> v.free + Sizes(v, Candidates(v)[..j]) < TWO64)
  {
    hide CreateSpace, Without, WellFormed, Indexed, Candidates, Sizes, Deletes, Evicts;
    var c := Candidates(v);
    assert c[..|c|] == c;
    EvictionFollowsCounter(v, n);
    if Sizes(v, c) < n {
      forall j: nat | ReachesFirst(v, n, j)
        ensures false
      {
        SizesPrefix(v, c, j, |c|);
      }
    } else {
      var j := ShortestExists(v, n, |c|);
    }
    forall j: nat | IsShortest(v, n, j)
      ensures Deletes(v, j, CreateSpace(v, n)) <==> Sizes(v, c[..j]) < TWO64
      ensures Evicts(v, j, CreateSpace(v, n)) <==> v.free + Sizes(v, c[..j]) < TWO64
    {
      ShortestIsDeletedIff(v, n, j);
      WithoutFrees(v, j, CreateSpace(v, n));
    }
  }

  lemma ShortestIsDeletedIff<M>(v: Volume<M>, n: u64, j: nat)
    requires WellFormed(v) && Indexed(v) && !v.scheme.NoCaching? && n > 0 && IsShortest(v, n, j)
    ensures Deletes(v, j, CreateSpace(v, n)) <==> Sizes(v, Candidates(v)[..j]) < TWO64
  {
    hide CreateSpace, Without, WellFormed, Indexed, Candidates, Sizes, ReachesFirst;
    EvictionFollowsCounter(v, n);
    if Sizes(v, Candidates(v)[..j]) < TWO64 {
      ShortestIsReached(v, n, j);
    } else {
      ShortestIsMissed(v, n, j);
      if i: nat :| ReachesFirst(v, n, i) {
        ReachedIsCandidate(v, n, i);
        OtherVictims(v, if i < j then i else j, if i < j then j else i);
      }
    }
  }

  lemma ReachedIsCandidate<M>(v: Volume<M>, n: u64, j: nat)
    requires WellFormed(v) && ReachesFirst(v, n, j)
    ensures j <= |Candidates(v)|
  {
  }

  lemma WithoutFrees<M>(v: Volume<M>, j: nat, r: Reply<M>)
    requires WellFormed(v) && j <= |Candidates(v)|
    ensures Evicts(v, j, r) <==> Deletes(v, j, r) && v.free + Sizes(v, Candidates(v)[..j]) < TWO64
  {
    hide WellFormed, Candidates, Sizes;
  }

  // ------------------------------------------------------------------ file by file

  // The sizes of the closed evictable files that come before `rank` in the list.
  ghost function Reclaimable<M>(v: Volume<M>, rank: nat): map<nat, int>
    requires WellFormed(v)
  {
    map r | r in v.priority && r < rank
            && v.meta[v.priority[r]].refs == 0 && v.meta[v.priority[r]].evictable :: v.meta[v.priority[r]].current
  }

  ghost function SpaceBefore<M>(v: Volume<M>, rank: nat): int
    requires WellFormed(v)
  {
    Sum(Reclaimable(v, rank))
  }

  ghost function SizeMap<M>(v: Volume<M>, ranks: seq<nat>): map<nat, int>
    requires WellFormed(v) && Listed(v, ranks)
  {
    map r | r in ranks :: v.meta[v.priority[r]].current
  }

  lemma {:induction false} SizesAreSums<M>(v: Volume<M>, ranks: seq<nat>)
    requires WellFormed(v) && Listed(v, ranks) && Distinct(ranks)
    ensures Sizes(v, ranks) == Sum(SizeMap(v, ranks))
  {
    hide WellFormed;
    if ranks == [] {
      assert SizeMap(v, ranks) == map[];
    } else {
      SizesAreSums(v, ranks[1..]);
      SumRemove(SizeMap(v, ranks), ranks[0]);
      assert SizeMap(v, ranks) - {ranks[0]} == SizeMap(v, ranks[1..]);
    }
  }

  // The candidates before the `i`-th are the closed evictable files of lower rank.
  lemma CandidatesBefore<M>(v: Volume<M>, i: nat)
    requires WellFormed(v) && i <= |Candidates(v)|
    ensures var c := Candidates(v);
            Listed(v, c[..i]) && Sizes(v, c[..i]) == SpaceBefore(v, if i < |c| then c[i] else v.counter)
  {
    hide Sizes, Sum;
    var c := Candidates(v);
    CandidatesAscend(v);
    hide Candidates;
    SizesAreSums(v, c[..i]);
    var rank := if i < |c| then c[i] else v.counter;
    forall r | r in Reclaimable(v, rank)
      ensures r in c[..i]
    {
      assert r in c;
      var k :| 0 <= k < |c| && c[k] == r;
      assert c[..i][k] == r;
    }
    assert SizeMap(v, c[..i]) == Reclaimable(v, rank);
  }

  // The size of one file, added to what comes before it, fits the counter.
  ghost predicate CounterSuffices<M>(v: Volume<M>, n: u64)
    requires WellFormed(v)
  {
    forall r :: r in Reclaimable(v, v.counter) && SpaceBefore(v, r) < n ==>
      SpaceBefore(v, r) + Reclaimable(v, v.counter)[r] < TWO64
  }

  // Exactly the files that are closed and evictable, and before which such files hold less than n
  // bytes in the list, are evicted; nothing is if all of them together hold less.
  lemma EvictedExactly<M>(v: Volume<M>, n: u64)
    requires WellFormed(v) && Indexed(v) && !v.scheme.NoCaching? && n > 0 && CounterSuffices(v, n)
    ensures var r := CreateSpace(v, n);
            if SpaceBefore(v, v.counter) < n then r == Reply(NotEnoughSpace, v)
            else
              && r.outcome.Ok?
              && (forall k :: k in r.after.files ==> k in v.files && r.after.files[k] == v.files[k])
              && (forall k :: k in v.files ==>
                    var f := v.meta[v.files[k]];
                    k !in r.after.files <==> f.refs == 0 && f.evictable && SpaceBefore(v, f.rank) < n)
  {
    hide CreateSpace, Indexed, Candidates, Sizes, SpaceBefore, Reclaimable, WellFormed, Evicts;
    var c := Candidates(v);
    assert c[..|c|] == c;
    CandidatesBefore(v, |c|);
    EvictionIsExact(v, n);
    if SpaceBefore(v, v.counter) >= n {
      var j := ShortestExists(v, n, |c|);
      ShortestFits(v, n, j);
      forall k | k in v.files
        ensures v.files[k] in v.meta
        ensures var f := v.meta[v.files[k]];
                f.rank in c[..j] <==> f.refs == 0 && f.evictable && SpaceBefore(v, f.rank) < n
      {
        RankedFile(v, k);
        InShortest(v, n, j, v.meta[v.files[k]].rank);
      }
    }
  }

  lemma RankedFile<M>(v: Volume<M>, k: Key)
    requires WellFormed(v) && Indexed(v) && !v.scheme.NoCaching? && k in v.files
    ensures v.files[k] in v.meta && v.meta[v.files[k]].rank in v.priority
    ensures v.priority[v.meta[v.files[k]].rank] == v.files[k]
  {
    assert Ranked(v, v.files[k]);
  }

  lemma ShortestFits<M>(v: Volume<M>, n: u64, j: nat)
    requires WellFormed(v) && IsShortest(v, n, j) && CounterSuffices(v, n)
    ensures Sizes(v, Candidates(v)[..j]) < TWO64
  {
    hide WellFormed, Candidates, SpaceBefore;
    var c := Candidates(v);
    CandidatesBefore(v, j - 1);
    var r := c[j - 1];
    assert r in c && r in Reclaimable(v, v.counter) by { RankBelow(v, r); }
    assert c[..j] == c[..j - 1] + [r];
    SizesAppend(v, c[..j - 1], [r]);
    SizesCons(v, r, []);
    assert [r] + [] == [r];
  }

  lemma RankBelow<M>(v: Volume<M>, r: nat)
    requires WellFormed(v) && r in v.priority
    ensures r < v.counter
  {
  }

  lemma InShortest<M>(v: Volume<M>, n: u64, j: nat, r: nat)
    requires WellFormed(v) && IsShortest(v, n, j) && r in v.priority
    ensures var f := v.meta[v.priority[r]];
            r in Candidates(v)[..j] <==> f.refs == 0 && f.evictable && SpaceBefore(v, r) < n
  {
    hide WellFormed, Sizes, SpaceBefore;
    var c := Candidates(v);
    CandidatesAscend(v);
    hide Candidates;
    if r in c {
      var i :| 0 <= i < |c| && c[i] == r;
      CandidatesBefore(v, i);
      if i < j {
        SizesPrefix(v, c, i, j - 1);
        assert c[..j][i] == r;
      } else {
        SizesPrefix(v, c, j, i);
      }
    }
  }

  // ------------------------------------------------------------------ making room

  // Making room is refused with no change, or evicts some victims and changes nothing else.
  ghost predicate RefusedOrEvicted<M>(v: Volume<M>, victims: seq<nat>, r: Reply<M>)
    requires WellFormed(v) && Listed(v, victims)
  {
    if r.outcome.Ok? then r.after == Without(v, victims)
    else r.outcome.NotEnoughSpace? && r.after == v
  }

  ghost function SpaceVictims<M>(v: Volume<M>, n: u64): (victims: seq<nat>)
    requires WellFormed(v)
    ensures AllVictims(v, victims)
  {
    SelectedAreVictims(v, n);
    Victims(v, n).0
  }

  // The victims of make-room, if it is not refused; this holds whatever the sizes.
  ghost function RoomVictims<M>(v: Volume<M>, needed: u64): (victims: seq<nat>)
    requires WellFormed(v)
    ensures AllVictims(v, victims)
  {
    if v.free < needed && !v.scheme.NoCaching? then SpaceVictims(v, needed - v.free) else []
  }

  lemma SpaceShape<M>(v: Volume<M>, n: u64)
    requires WellFormed(v) && Indexed(v) && !v.scheme.NoCaching?
    ensures RefusedOrEvicted(v, SpaceVictims(v, n), CreateSpace(v, n))
  {
    DeleteVictimsDeletesThem(v, SpaceVictims(v, n));
  }

  lemma RoomShape<M>(v: Volume<M>, needed: u64)
    requires WellFormed(v) && Indexed(v)
    ensures RefusedOrEvicted(v, RoomVictims(v, needed), MakeRoom(v, needed))
  {
    hide Indexed, WellFormed, DeleteVictims, Select, Victims;
    var r := MakeRoom(v, needed);
    if v.free < needed && !v.scheme.NoCaching? {
      SpaceShape(v, needed - v.free);
      assert r == CreateSpace(v, needed - v.free);
    } else {
      WithoutNothing(v);
    }
  }

  // A file made non-evictable outlives any room that is made.
  lemma PinnedFileStays<M>(v: Volume<M>, key: Key, needed: u64)
    requires WellFormed(v) && Indexed(v) && key in v.files
    ensures var w := MakeRoom(MakeEvictable(v, key, false).after, needed).after;
            key in w.files && w.files[key] == v.files[key]
  {
    var pinned := MakeEvictable(v, key, false).after;
    StepKeepsIndexUnlessBreaking(v, Op.SetEvictable(key, false));
    RoomShape(pinned, needed);
    var victims := RoomVictims(pinned, needed);
    if pinned.scheme.NoCaching? {
      WithoutNothing(pinned);
    } else {
      assert Ranked(pinned, pinned.files[key]);
      assert key in Without(pinned, victims).files;
    }
  }
}
