// Disk selection of a "just a bunch of disks" storage.
module Raid {
  import opened Words

  datatype Level = RAID0 | RAID1 | RAID2 | RAID3 | RAID4 | RAID5 | RAID6

  // static_cast<int> of an unsigned 64-bit count: its low 32 bits, as a signed number.
  function ToInt(n: u64): int {
    var low := n % TWO32;
    if low < TWO32 / 2 then low else low - TWO32
  }

  function NextParity(p: u64, n: u64): (q: u64)
    requires n > 0
    ensures q < n
  {
    Wrap64(p - 1) % n
  }

  predicate Supported(level: Level) {
    level.RAID0? || level.RAID1? || level.RAID4? || level.RAID5? || level.RAID6?
  }

  // set_raid_level asks for 3 disks under RAID 4 and 5 and for 4 disks under RAID 6.
  predicate EnoughDisks(level: Level, n: nat) {
    && ((level.RAID4? || level.RAID5?) ==> n >= 3)
    && (level.RAID6? ==> n >= 4)
  }

  // The disks, in their order, except those at the given places.
  function Except<D>(disks: seq<D>, from: nat, places: set<nat>): seq<D>
    requires from <= |disks|
    decreases |disks| - from
  {
    if from == |disks| then []
    else if from in places then Except(disks, from + 1, places)
    else [disks[from]] + Except(disks, from + 1, places)
  }

  // The places that hold no data when the parity index is p.
  function ParityPlaces(level: Level, n: nat, p: nat): set<nat>
    requires EnoughDisks(level, n)
  {
    match level
    case RAID4 => {n - 1}
    case RAID5 => {(p + 1) % n}
    case RAID6 => {p, (p + 1) % n}
    case _ => {}
  }

  // The test that picks out the case of the first and last disks under RAID 6.
  predicate LooksLast(n: u64, p: u64) {
    p + 1 == Wrap64(ToInt(n))
  }

  // The places a read under the given level leaves out.
  function DroppedPlaces(level: Level, n: u64, p: u64): set<nat>
    requires EnoughDisks(level, n) && n > 0
  {
    if level.RAID6? then (if LooksLast(n, p) then {0, n - 1} else {p, p + 1})
    else ParityPlaces(level, n, p)
  }

  // Erasing the range that starts at p stays inside the vector.
  predicate ErasesWithin(level: Level, n: u64, p: u64) {
    level.RAID6? && !LooksLast(n, p) ==> p + 1 < n
  }

  // Where the place after the parity index is.
  lemma ParityFacts(n: nat, p: nat)
    requires p < n
    ensures (p + 1) % n == if p + 1 < n then p + 1 else 0
  {
    if p + 1 < n {
      DivisionIsUnique(p + 1, n, 0, p + 1);
    } else {
      DivisionIsUnique(p + 1, n, 1, 0);
    }
  }

  // How many disks a request is spread over, unless it is mirrored.
  function Shares(level: Level, n: nat): nat
    requires EnoughDisks(level, n)
  {
    match level
    case RAID4 => n - 1
    case RAID5 => n - 1
    case RAID6 => n - 2
    case _ => n
  }

  // An equal share of a request; what does not divide evenly is dropped.
  function Share(size: u64, d: nat): (q: u64)
    requires d > 0
    ensures d * q <= size < d * q + d
  {
    DivideFacts(size, d);
    size / d
  }

  lemma DivideFacts(size: nat, d: nat)
    requires d > 0
    ensures 0 <= size / d <= size
    ensures d * (size / d) <= size < d * (size / d) + d
  {
    var q := size / d;
    assert size == d * q + size % d;
    QuotientIsSmall(size, d, q);
  }

  lemma QuotientIsSmall(size: nat, d: nat, q: int)
    requires d > 0 && d * q <= size < d * q + d
    ensures 0 <= q <= size
  {
    if q < 0 {
      ProductIsNonNegative(d, -q - 1);
    } else {
      ProductIsNonNegative(d - 1, q);
      assert (d - 1) * q == d * q - q;
    }
  }

  lemma ProductIsNonNegative(a: int, b: int)
    requires a >= 0 && b >= 0
    ensures a * b >= 0
  {
  }

  class JBODStorage<D> {
    const disks: seq<D>
    const numDisks: u64
    var level: Level
    var parityDiskIdx: u64
    var readDiskIdx: int

    ghost predicate Valid()
      reads this
    {
      && |disks| == numDisks > 0
      && EnoughDisks(level, numDisks)
      && parityDiskIdx < numDisks
      && -1 <= readDiskIdx
    }

    constructor (disks: seq<D>)
      requires 0 < |disks| < TWO64
      ensures Valid() && this.disks == disks && level == RAID0
      ensures parityDiskIdx == |disks| - 1 && readDiskIdx == -1
    {
      this.disks := disks;
      numDisks := |disks|;
      level := RAID0;
      parityDiskIdx := Wrap64(|disks| - 1);
      readDiskIdx := -1;
    }

    method SetRaidLevel(newLevel: Level) returns (ok: bool)
      requires Valid()
      modifies this`level
      ensures Valid()
      ensures ok <==>
                && (newLevel == RAID4 || newLevel == RAID5 ==> |disks| >= 3)
                && (newLevel == RAID6 ==> |disks| >= 4)
      ensures level == if ok then newLevel else old(level)
    {
      if (newLevel.RAID4? || newLevel.RAID5?) && numDisks < 3 {
        return false;
      }
      if newLevel.RAID6? && numDisks < 4 {
        return false;
      }
      level := newLevel;
      return true;
    }

    method UpdateParityDiskIdx()
      requires Valid()
      modifies this`parityDiskIdx
      ensures Valid() && parityDiskIdx == NextParity(old(parityDiskIdx), numDisks)
    {
      parityDiskIdx := Wrap64(parityDiskIdx - 1) % numDisks;
    }

    method GetNextReadDiskIdx() returns (idx: nat)
      requires Valid() && readDiskIdx + 1 < TWO64 / 2
      modifies this`readDiskIdx
      ensures Valid() && readDiskIdx == old(readDiskIdx) + 1
      ensures idx == readDiskIdx % numDisks < numDisks
    {
      readDiskIdx := readDiskIdx + 1;
      idx := readDiskIdx % numDisks;
    }

    // Which disks to read from, and how much from each.
    method ReadPlan(size: u64) returns (ok: bool, targets: seq<D>, readSize: u64)
      requires Valid() && readDiskIdx + 1 < TWO64 / 2
      requires ErasesWithin(level, numDisks, parityDiskIdx)
      modifies this`readDiskIdx
      ensures Valid() && parityDiskIdx == old(parityDiskIdx)
      ensures ok <==> level in {RAID0, RAID1, RAID4, RAID5, RAID6}
      ensures level.RAID1? ==>
                readDiskIdx == old(readDiskIdx) + 1 && targets == [disks[readDiskIdx % numDisks]] && readSize == size
      ensures !level.RAID1? ==> readDiskIdx == old(readDiskIdx)
      ensures ok && !level.RAID1? ==>
                && targets == Except(disks, 0, DroppedPlaces(level, numDisks, parityDiskIdx))
                && |targets| > 0 && |targets| * readSize <= size < |targets| * readSize + |targets|
    {
      hide Share, Except, Erase, ToInt, Wrap64;
      targets, readSize := [], 0;
      match level {
        case RAID0 =>
          readSize := Share(size, numDisks);
          targets := disks;
          ExceptNothing(disks);
        case RAID1 =>
          readSize := size;
          var idx := GetNextReadDiskIdx();
          targets := targets + [disks[idx]];
        case RAID4 =>
          readSize := Share(size, numDisks - 1);
          targets := disks;
          targets := targets[..|targets| - 1];
          ExceptLast(disks);
        case RAID5 =>
          readSize := Share(size, numDisks - 1);
          var at := (parityDiskIdx + 1) % numDisks;
          targets := Erase(disks, at);
          ExceptOne(disks, at);
        case RAID6 =>
          readSize := Share(size, numDisks - 2);
          targets := disks;
          // First and last disks of the JBOD, or two neighbours.
          if parityDiskIdx + 1 == Wrap64(ToInt(numDisks)) {
            targets := targets[..|targets| - 1];
            targets := Erase(targets, 0);
            ExceptEnds(disks);
          } else {
            targets := targets[..parityDiskIdx] + targets[parityDiskIdx + 2..];
            ExceptNeighbours(disks, parityDiskIdx);
          }
        case _ =>
          return false, targets, readSize;
      }
      if !level.RAID1? {
        PlanCoversSize(level, disks, parityDiskIdx, size);
      }
      return true, targets, readSize;
    }

    // How much to write to every disk; RAID 5 and 6 move the parity first.
    method WritePlan(size: u64) returns (ok: bool, writeSize: u64)
      requires Valid()
      modifies this`parityDiskIdx
      ensures Valid() && (ok <==> level in {RAID0, RAID1, RAID4, RAID5, RAID6})
      ensures parityDiskIdx ==
              if level.RAID5? || level.RAID6? then NextParity(old(parityDiskIdx), numDisks) else old(parityDiskIdx)
      ensures ok ==>
                var parity := if level == RAID6 then 2 else if level == RAID4 || level == RAID5 then 1 else 0;
                var shares := |disks| - parity;
                if level == RAID1 then writeSize == size
                else shares > 0 && shares * writeSize <= size < shares * writeSize + shares
    {
      hide Share;
      writeSize := 0;
      match level {
        case RAID0 => writeSize := Share(size, numDisks);
        case RAID1 => writeSize := size;
        case RAID4 => writeSize := Share(size, numDisks - 1);
        case RAID5 =>
          UpdateParityDiskIdx();
          writeSize := Share(size, numDisks - 1);
        case RAID6 =>
          UpdateParityDiskIdx();
          writeSize := Share(size, numDisks - 2);
        case _ => return false, 0;
      }
      return true, writeSize;
    }
  }

  // std::vector::erase of one element
  function Erase<D>(s: seq<D>, i: nat): seq<D>
    requires i < |s|
  {
    s[..i] + s[i + 1..]
  }

  // ------------------------------------------------------------------ read plans

  lemma {:induction false} ExceptNone<D>(disks: seq<D>, from: nat, places: set<nat>)
    requires from <= |disks| && forall i :: i in places ==> i < from || i >= |disks|
    ensures Except(disks, from, places) == disks[from..]
    decreases |disks| - from
  {
    if from < |disks| {
      ExceptNone(disks, from + 1, places);
      assert disks[from..] == [disks[from]] + disks[from + 1..];
    }
  }

  lemma ExceptNothing<D>(disks: seq<D>)
    ensures Except(disks, 0, {}) == disks
  {
    ExceptNone(disks, 0, {});
  }

  // Nothing is dropped before `at`.
  lemma {:induction false} ExceptUpTo<D>(disks: seq<D>, from: nat, at: nat, places: set<nat>)
    requires from <= at <= |disks| && forall i :: i in places ==> i < from || i >= at
    ensures Except(disks, from, places) == disks[from..at] + Except(disks, at, places)
    decreases at - from
  {
    if from < at {
      ExceptUpTo(disks, from + 1, at, places);
      var rest := Except(disks, at, places);
      assert disks[from..at] + rest == [disks[from]] + (disks[from + 1..at] + rest);
    }
  }

  // What is left when only the places from `at` up to `next` are dropped.
  lemma ExceptRange<D>(disks: seq<D>, at: nat, next: nat, places: set<nat>)
    requires at <= next <= |disks| && forall i :: i in places ==> at <= i < next
    requires Except(disks, at, places) == Except(disks, next, places)
    ensures Except(disks, 0, places) == disks[..at] + disks[next..]
  {
    hide Except;
    ExceptUpTo(disks, 0, at, places);
    ExceptNone(disks, next, places);
  }

  lemma ExceptOne<D>(disks: seq<D>, at: nat)
    requires at < |disks|
    ensures Except(disks, 0, {at}) == Erase(disks, at)
  {
    ExceptRange(disks, at, at + 1, {at});
  }

  lemma ExceptLast<D>(disks: seq<D>)
    requires |disks| > 0
    ensures Except(disks, 0, {|disks| - 1}) == disks[..|disks| - 1]
  {
    ExceptOne(disks, |disks| - 1);
  }

  lemma ExceptNeighbours<D>(disks: seq<D>, p: nat)
    requires p + 1 < |disks|
    ensures Except(disks, 0, {p, p + 1}) == disks[..p] + disks[p + 2..]
  {
    var places := {p, p + 1};
    assert Except(disks, p, places) == Except(disks, p + 1, places) == Except(disks, p + 2, places);
    ExceptRange(disks, p, p + 2, places);
  }

  lemma ExceptEnds<D>(disks: seq<D>)
    requires |disks| >= 2
    ensures var p := |disks| - 1;
            Except(disks, 0, {0, p}) == Erase(disks[..p], 0)
  {
    var p: nat := |disks| - 1;
    var places: set<nat> := {0, p};
    ExceptUpTo(disks, 1, p, places);
    assert Except(disks, p, places) == Except(disks, p + 1, places);
    assert disks[1..p] == Erase(disks[..p], 0);
  }

  // Who is read: every disk whose place is not dropped, once, in the original order.
  lemma {:induction false} ExceptIsOrderedSelection<D>(disks: seq<D>, from: nat, places: set<nat>)
      returns (chosen: seq<nat>)
    requires from <= |disks|
    ensures |chosen| == |Except(disks, from, places)|
    ensures forall j :: 0 <= j < |chosen| ==>
              from <= chosen[j] < |disks| && chosen[j] !in places && Except(disks, from, places)[j] == disks[chosen[j]]
    ensures forall j, k :: 0 <= j < k < |chosen| ==> chosen[j] < chosen[k]
    ensures forall i :: from <= i < |disks| && i !in places ==> i in chosen
    decreases |disks| - from
  {
    chosen := [];
    if from < |disks| {
      var rest := ExceptIsOrderedSelection(disks, from + 1, places);
      chosen := if from in places then rest else [from] + rest;
    }
  }

  // The places a read leaves out: none under level 0, the last under level 4, the one after the parity
  // index under level 5, and two under level 6, which are the ends or the parity index and the next.
  lemma DroppedAre(level: Level, n: u64, p: u64, i: nat)
    requires 0 < n && EnoughDisks(level, n) && p < n && i < n
    ensures level == RAID0 ==> i !in DroppedPlaces(level, n, p)
    ensures level == RAID4 ==> (i in DroppedPlaces(level, n, p) <==> i == n - 1)
    ensures level == RAID5 ==> (i in DroppedPlaces(level, n, p) <==> i == if p == n - 1 then 0 else p + 1)
    ensures level == RAID6 ==>
              (i in DroppedPlaces(level, n, p)
               <==> if p + 1 == Wrap64(ToInt(n)) then i == 0 || i == n - 1 else i == p || i == p + 1)
  {
    ParityFacts(n, p);
  }

  // So a read takes a disk, once, exactly if its place is not one of these.
  lemma ReadTakes<D>(level: Level, disks: seq<D>, p: u64) returns (chosen: seq<nat>)
    requires 0 < |disks| < TWO64 && EnoughDisks(level, |disks|) && p < |disks|
    requires level == RAID0 || level == RAID4 || level == RAID5
    ensures var targets := Except(disks, 0, DroppedPlaces(level, |disks|, p));
            && |chosen| == |targets|
            && (forall j :: 0 <= j < |chosen| ==> chosen[j] < |disks| && targets[j] == disks[chosen[j]])
            && (forall j, k :: 0 <= j < k < |chosen| ==> chosen[j] < chosen[k])
            && (forall i: nat :: i < |disks| ==>
                  (i in chosen <==>
                     && (level == RAID4 ==> i != |disks| - 1)
                     && (level == RAID5 ==> i != if p == |disks| - 1 then 0 else p + 1)))
  {
    hide DroppedPlaces, Except;
    chosen := ExceptIsOrderedSelection(disks, 0, DroppedPlaces(level, |disks|, p));
    forall i: nat | i < |disks|
      ensures i in chosen <==> (level == RAID4 ==> i != |disks| - 1)
                               && (level == RAID5 ==> i != if p == |disks| - 1 then 0 else p + 1)
    {
      DroppedAre(level, |disks|, p, i);
    }
  }

  lemma {:induction false} ExceptSize<D>(disks: seq<D>, from: nat, places: set<nat>)
    requires from <= |disks| && forall i :: i in places ==> from <= i < |disks|
    ensures |Except(disks, from, places)| == |disks| - from - |places|
    decreases |disks| - from
  {
    if from == |disks| {
      assert places == {};
    } else if from in places {
      ExceptSize(disks, from + 1, places - {from});
      SamePlaces(disks, from + 1, places, places - {from});
    } else {
      ExceptSize(disks, from + 1, places);
    }
  }

  lemma {:induction false} SamePlaces<D>(disks: seq<D>, from: nat, a: set<nat>, b: set<nat>)
    requires from <= |disks| && forall i :: i >= from ==> (i in a <==> i in b)
    ensures Except(disks, from, a) == Except(disks, from, b)
    decreases |disks| - from
  {
    if from < |disks| {
      SamePlaces(disks, from + 1, a, b);
    }
  }

  // A read plan has as many targets as there are data shares, so that the bytes scheduled are at
  // most the bytes asked for, and fewer than one per share are missing.
  lemma PlanCoversSize<D>(level: Level, disks: seq<D>, p: u64, size: u64)
    requires Supported(level) && !level.RAID1? && |disks| > 0 && EnoughDisks(level, |disks|)
    requires p < |disks| < TWO64 && ErasesWithin(level, |disks|, p)
    ensures var d, targets := Shares(level, |disks|), Except(disks, 0, DroppedPlaces(level, |disks|, p));
            && d > 0
            && |targets| * Share(size, d) <= size < |targets| * Share(size, d) + |targets|
  {
    var n, d := |disks|, Shares(level, |disks|);
    hide Share, Except, LooksLast;
    ParityFacts(n, p);
    ExceptSize(disks, 0, DroppedPlaces(level, n, p));
    PlaceCount(level, n, p);
  }

  lemma PlaceCount(level: Level, n: u64, p: u64)
    requires Supported(level) && !level.RAID1? && n > 0 && EnoughDisks(level, n) && p < n
    requires ErasesWithin(level, n, p)
    ensures |DroppedPlaces(level, n, p)| == n - Shares(level, n)
  {
    hide LooksLast;
    ParityFacts(n, p);
  }

  // ------------------------------------------------------------------ the cast to int

  // The disk count survives the cast to int exactly when its upper 33 bits are all equal.
  lemma CastIsExact(n: u64)
    ensures Wrap64(ToInt(n)) == n <==> (n < TWO32 / 2 || n >= TWO64 - TWO32 / 2)
  {
    var low, high := n % TWO32, n / TWO32;
    assert n == TWO32 * high + low && high < TWO32;
    if low < TWO32 / 2 {
      assert Wrap64(low) == low;
    } else {
      assert Wrap64(low - TWO32) == TWO64 + low - TWO32;
    }
  }

  // RAID 6 reads leave out the two parity disks, for every index, exactly when the cast keeps the
  // count; otherwise the last index makes the erased range run past the end.
  lemma ReadsAroundParityIff(n: u64)
    requires n >= 4
    ensures (forall p: u64 :: p < n ==>
               ErasesWithin(RAID6, n, p) && DroppedPlaces(RAID6, n, p) == ParityPlaces(RAID6, n, p))
            <==> (n < TWO32 / 2 || n >= TWO64 - TWO32 / 2)
  {
    hide ToInt, Wrap64;
    CastIsExact(n);
    forall p: u64 | p < n
      ensures ErasesWithin(RAID6, n, p) && DroppedPlaces(RAID6, n, p) == ParityPlaces(RAID6, n, p)
              <==> (LooksLast(n, p) <==> p + 1 == n)
    {
      ParityFacts(n, p);
      if LooksLast(n, p) && p + 1 != n {
        assert n - 1 in DroppedPlaces(RAID6, n, p);
        if p + 1 == n - 1 {
          assert 0 !in ParityPlaces(RAID6, n, p);
        }
      }
    }
    if Wrap64(ToInt(n)) != n {
      assert !ErasesWithin(RAID6, n, n - 1);
    }
  }

  // ------------------------------------------------------------------ rotation of the parity

  lemma DivisionIsUnique(x: int, n: nat, q: int, r: nat)
    requires n > 0 && r < n && x == n * q + r
    ensures x / n == q && x % n == r
  {
    var e := q - x / n;
    assert n * e == x % n - r by {
      assert x == n * (x / n) + x % n;
      assert n * e == n * q - n * (x / n);
    }
    if e >= 1 {
      ProductIsNonNegative(n, e - 1);
    } else if e <= -1 {
      ProductIsNonNegative(n, -e - 1);
    }
  }

  // One less, modulo n.
  lemma OneLess(x: int, n: nat)
    requires n > 0
    ensures (x - 1) % n == if x % n == 0 then n - 1 else x % n - 1
  {
    var q, r := x / n, x % n;
    assert x == n * q + r;
    if r == 0 {
      assert n * (q - 1) == n * q - n;
      DivisionIsUnique(x - 1, n, q - 1, n - 1);
    } else {
      DivisionIsUnique(x - 1, n, q, r - 1);
    }
  }

  lemma OneMore(x: nat, n: nat)
    requires n > 0
    ensures (x + 1) / n == if x % n == n - 1 then x / n + 1 else x / n
    ensures (x + 1) % n == if x % n == n - 1 then 0 else x % n + 1
  {
    var q, r := x / n, x % n;
    assert x == n * q + r;
    if r == n - 1 {
      assert n * (q + 1) == n * q + n;
      DivisionIsUnique(x + 1, n, q + 1, 0);
    } else {
      DivisionIsUnique(x + 1, n, q, r + 1);
    }
  }

  // Where an index of 0 goes.
  function Top(n: u64): (t: u64)
    requires n > 0
    ensures t < n
  {
    (TWO64 - 1) % n
  }

  predicate Divides(n: u64)
    requires n > 0
  {
    TWO64 % n == 0
  }

  lemma TopIsLastWhenDividing(n: u64)
    requires n > 0
    ensures Top(n) == n - 1 <==> Divides(n)
  {
    OneLess(TWO64, n);
  }

  lemma NextParityIs(p: u64, n: u64)
    requires p < n
    ensures NextParity(p, n) == if p == 0 then Top(n) else p - 1
  {
    if p == 0 {
      assert Wrap64(-1) == TWO64 - 1;
    } else {
      DivisionIsUnique(p - 1, n, 0, p - 1);
    }
  }

  // The update counts down modulo n, for every index, exactly when n divides 2^64.
  lemma UpdateIsDecrementIff(n: u64)
    requires n > 0
    ensures (forall p: u64 :: p < n ==> NextParity(p, n) == (p - 1) % n) <==> Divides(n)
  {
    TopIsLastWhenDividing(n);
    forall p: u64 | p < n
      ensures NextParity(p, n) == (p - 1) % n <==> (p > 0 || Divides(n))
    {
      NextParityIs(p, n);
      DivisionIsUnique(p, n, 0, p);
      OneLess(p, n);
    }
    assert NextParity(0, n) == (0 - 1) % n <==> Divides(n);
  }

  // The index after k RAID 5 or RAID 6 writes.
  function After(p: u64, n: u64, k: nat): (q: u64)
    requires p < n
    ensures q < n
  {
    if k == 0 then p else NextParity(After(p, n, k - 1), n)
  }

  lemma {:induction false} CountsDown(p: u64, n: u64, k: nat)
    requires p < n && Divides(n)
    ensures After(p, n, k) == (p - k) % n
  {
    if k == 0 {
      DivisionIsUnique(p, n, 0, p);
    } else {
      CountsDown(p, n, k - 1);
      NextParityIs(After(p, n, k - 1), n);
      TopIsLastWhenDividing(n);
      OneLess(p - (k - 1), n);
    }
  }

  // Which of the n writes after an index p stores its parity at disk i.
  function Turn(p: u64, n: u64, i: u64): (k: nat)
    requires p < n && i < n
    ensures 1 <= k <= n
  {
    if i < p then p - i else p + n - i
  }

  // n consecutive writes put the parity at every disk, once.
  lemma EveryDiskOnce(p: u64, n: u64, i: u64, k: nat)
    requires p < n && i < n && 1 <= k <= n && Divides(n)
    ensures After(p, n, k) == i <==> k == Turn(p, n, i)
  {
    CountsDown(p, n, k);
    if k <= p {
      DivisionIsUnique(p - k, n, 0, p - k);
    } else {
      DivisionIsUnique(p - k, n, -1, p - k + n);
    }
  }

  // Otherwise the index comes down to Top(n) in at most p writes, and never exceeds it again.
  lemma {:induction false} NeverAboveTopAgain(p: u64, n: u64, k: nat)
    requires p < n
    ensures After(p, n, k) <= Max(p - k, Top(n))
  {
    if k > 0 {
      NeverAboveTopAgain(p, n, k - 1);
      NextParityIs(After(p, n, k - 1), n);
    }
  }

  predicate Reaches(p: u64, n: u64, i: u64)
    requires p < n
  {
    exists k: nat :: 1 <= k <= n && After(p, n, k) == i
  }

  // Every run of n writes reaches every disk exactly when n divides 2^64; otherwise the run that
  // starts at index 0 leaves out the last disk.
  lemma RotationIsFairIff(n: u64)
    requires n > 0
    ensures (forall p: u64, i: u64 :: p < n && i < n ==> Reaches(p, n, i)) <==> Divides(n)
  {
    if Divides(n) {
      forall p: u64, i: u64 | p < n && i < n
        ensures Reaches(p, n, i)
      {
        EveryDiskOnce(p, n, i, Turn(p, n, i));
      }
    } else {
      TopIsLastWhenDividing(n);
      forall k: nat | k >= 1
        ensures After(0, n, k) != n - 1
      {
        NeverAboveTopAgain(0, n, k);
      }
      assert !Reaches(0, n, n - 1);
    }
  }

  // Three disks: from the second write on, the index stays 0.
  lemma ThreeDisksGetStuck(k: nat)
    ensures k >= 2 ==> After(2, 3, k) == 0
    ensures !Reaches(0, 3, 1) && !Reaches(0, 3, 2)
  {
    assert Top(3) == 0;
    NeverAboveTopAgain(2, 3, k);
    forall j: nat
      ensures After(0, 3, j) == 0
    {
      NeverAboveTopAgain(0, 3, j);
    }
  }

  // ------------------------------------------------------------------ RAID 1 reads

  // How many of the first k reads of a mirrored storage go to disk i: the j-th goes to j modulo n.
  function ReadsOf(i: nat, n: nat, k: nat): nat
    requires n > 0
  {
    if k == 0 then 0 else ReadsOf(i, n, k - 1) + (if (k - 1) % n == i then 1 else 0)
  }

  lemma {:induction false} ReadsOfIs(i: nat, n: nat, k: nat)
    requires i < n
    ensures ReadsOf(i, n, k) == k / n + (if i < k % n then 1 else 0)
  {
    if k == 0 {
      DivisionIsUnique(0, n, 0, 0);
    } else {
      ReadsOfIs(i, n, k - 1);
      OneMore(k - 1, n);
    }
  }

  // Reads are spread over the mirrors as evenly as they can be.
  lemma ReadsAreBalanced(i: nat, j: nat, n: nat, k: nat)
    requires i < n && j < n
    ensures -1 <= ReadsOf(i, n, k) - ReadsOf(j, n, k) <= 1
  {
    ReadsOfIs(i, n, k);
    ReadsOfIs(j, n, k);
  }
}
