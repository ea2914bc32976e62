// The mount table: which mount points are accepted, and which one a path resolves to.
module Mounts {
  import opened Volumes
  import opened Paths

  // is_at_mount_point is a test on raw strings.
  predicate IsAtMountPoint(path: string, mountPoint: string) {
    mountPoint <= path
  }

  // The order in which std::map keeps its keys.
  predicate Less(a: string, b: string) {
    if b == "" then false
    else if a == "" then true
    else if a[0] != b[0] then a[0] < b[0]
    else Less(a[1..], b[1..])
  }

  predicate Sorted(table: seq<string>) {
    forall i, j :: 0 <= i < j < |table| ==> Less(table[i], table[j])
  }

  // The first mount point, in map order, that the path is at.
  function Lookup(table: seq<string>, path: string): (i: nat)
    ensures i <= |table|
    ensures i < |table| ==> IsAtMountPoint(path, table[i])
    ensures forall j :: 0 <= j < i ==> !IsAtMountPoint(path, table[j])
  {
    if table == [] then 0
    else if IsAtMountPoint(path, table[0]) then 0
    else 1 + Lookup(table[1..], path)
  }

  // ------------------------------------------------------------------ mounting

  function InsertSorted(table: seq<string>, mountPoint: string): (t: seq<string>)
    ensures forall s :: s in t <==> s in table || s == mountPoint
  {
    if table == [] then [mountPoint]
    else if table[0] == mountPoint then table
    else if Less(mountPoint, table[0]) then [mountPoint] + table
    else [table[0]] + InsertSorted(table[1..], mountPoint)
  }

  // With a slash at the end of both, one is a prefix of the other.
  predicate Clash(a: string, b: string) {
    (a + "/") <= (b + "/") || (b + "/") <= (a + "/")
  }

  predicate Accepts(table: seq<string>, mountPoint: string) {
    Simplify(mountPoint) == StripTail(mountPoint) &&
    forall m :: m in table ==> !Clash(m, StripTail(mountPoint))
  }

  // mount_partition, as far as the table goes.
  function Mount(table: seq<string>, mountPoint: string): seq<string> {
    if Accepts(table, mountPoint) then InsertSorted(table, StripTail(StripTail(mountPoint) + "/")) else table
  }

  lemma StoredIsSimplified(table: seq<string>, mountPoint: string)
    requires Accepts(table, mountPoint)
    ensures StripTail(StripTail(mountPoint) + "/") == Simplify(mountPoint)
  {
    var m := Simplify(mountPoint);
    SimplifiedShape(mountPoint);
    assert (m + "/")[..|m|] == m;
    assert StripTail(m + "/") == StripTail(m) == m;
  }

  // ------------------------------------------------------------------ components

  // A is a list of leading components of B.
  predicate Leads(a: seq<string>, b: seq<string>) {
    a <= b
  }

  // With a slash at the end, string prefixes are component prefixes.
  lemma {:induction false} PrefixOfComponents(a: seq<string>, b: seq<string>)
    requires Proper(a) && Proper(b)
    ensures (Joined(a) + "/") <= (Joined(b) + "/") <==> a <= b
    decreases |a|
  {
    var x, y := Joined(a) + "/", Joined(b) + "/";
    if a == [] {
      assert y[0] == '/' by { if b != [] { JoinedEnd(b); } }
      assert x == "/" && x <= y;
    } else if b == [] {
      JoinedEnd(a);
      assert |x| > |y|;
    } else {
      var p, q := Joined(a[1..]) + "/", Joined(b[1..]) + "/";
      PrefixOfComponents(a[1..], b[1..]);
      assert x == "/" + (a[0] + p);
      assert y == "/" + (b[0] + q);
      assert p[0] == '/' by { if a[1..] != [] { JoinedEnd(a[1..]); } }
      assert q[0] == '/' by { if b[1..] != [] { JoinedEnd(b[1..]); } }
      NamesThenSlash(a[0], p, b[0], q);
      SlashBoth(a[0] + p, b[0] + q);
      HeadAndTail(a, b);
    }
  }

  lemma SlashBoth(p: string, q: string)
    ensures ("/" + p) <= ("/" + q) <==> p <= q
  {
    assert ("/" + p)[1..] == p && ("/" + q)[1..] == q;
    if p <= q {
      assert q == p + q[|p|..];
      assert "/" + q == "/" + p + q[|p|..];
    }
    if ("/" + p) <= ("/" + q) {
      forall i | 0 <= i < |p|
        ensures p[i] == q[i]
      {
        assert ("/" + p)[i + 1] == ("/" + q)[i + 1];
      }
    }
  }

  lemma HeadAndTail(a: seq<string>, b: seq<string>)
    requires a != [] && b != []
    ensures a <= b <==> a[0] == b[0] && a[1..] <= b[1..]
  {
    if a[0] == b[0] && a[1..] <= b[1..] {
      forall i | 0 <= i < |a|
        ensures a[i] == b[i]
      {
        assert i > 0 ==> a[1..][i - 1] == b[1..][i - 1];
      }
    }
  }

  lemma {:induction false} NamesThenSlash(m: string, p: string, n: string, q: string)
    requires NoSlash(m) && NoSlash(n) && |p| > 0 && p[0] == '/' && |q| > 0 && q[0] == '/'
    ensures (m + p) <= (n + q) <==> m == n && p <= q
    decreases |m|
  {
    if m == "" {
      assert m + p == p;
      if n == "" {
        assert n + q == q;
      } else {
        assert (m + p)[0] == '/' && (n + q)[0] == n[0];
      }
    } else if n == "" {
      assert n + q == q;
      assert (m + p)[0] == m[0] && (n + q)[0] == '/';
    } else {
      NamesThenSlash(m[1..], p, n[1..], q);
      assert m + p == [m[0]] + (m[1..] + p);
      assert n + q == [n[0]] + (n[1..] + q);
      SameHead(m[0], m[1..] + p, n[0], n[1..] + q);
      assert m == [m[0]] + m[1..] && n == [n[0]] + n[1..];
    }
  }

  lemma SameHead(c: char, p: string, d: char, q: string)
    ensures ([c] + p) <= ([d] + q) <==> c == d && p <= q
  {
    assert ([c] + p)[1..] == p && ([d] + q)[1..] == q;
    if c == d && p <= q {
      assert [d] + q == [c] + p + q[|p|..];
    }
    if ([c] + p) <= ([d] + q) {
      assert ([c] + p)[0] == ([d] + q)[0];
      forall i | 0 <= i < |p|
        ensures p[i] == q[i]
      {
        assert ([c] + p)[i + 1] == ([d] + q)[i + 1];
      }
    }
  }

  // ------------------------------------------------------------------ every sequence of mounts

  ghost function MountAll(mountPoints: seq<string>): seq<string> {
    if mountPoints == [] then []
    else Mount(MountAll(mountPoints[..|mountPoints| - 1]), mountPoints[|mountPoints| - 1])
  }

  // Every entry is simplified, and no entry leads another, component by component.
  ghost predicate WellMounted(table: seq<string>) {
    && (forall m :: m in table ==> m == Absolute(Meaning(m)))
    && (forall m, n :: m in table && n in table && m != n && m != "/" && n != "/" ==>
          !Leads(Meaning(m), Meaning(n)))
  }

  lemma NoClashMeansNoLead(m: string, n: string)
    requires m == Absolute(Meaning(m)) && n == Absolute(Meaning(n)) && m != "/" && n != "/"
    ensures Clash(m, n) <==> Leads(Meaning(m), Meaning(n)) || Leads(Meaning(n), Meaning(m))
  {
    PrefixOfComponents(Meaning(m), Meaning(n));
    PrefixOfComponents(Meaning(n), Meaning(m));
  }

  // Two mount points clash if they are equal, or one lies above the other and it is not the root: the
  // root with a slash at its end is no prefix of any other mount point.
  lemma ClashIff(m: string, n: string)
    requires m == Absolute(Meaning(m)) && n == Absolute(Meaning(n))
    ensures Clash(m, n) <==>
              m == n || (m != "/" && n != "/" && (Leads(Meaning(m), Meaning(n)) || Leads(Meaning(n), Meaning(m))))
  {
    if m != "/" && n != "/" {
      NoClashMeansNoLead(m, n);
    } else if m != n {
      NothingClashesWithRoot(if m == "/" then n else m);
    }
  }

  lemma NothingClashesWithRoot(m: string)
    requires m == Absolute(Meaning(m)) && m != "/"
    ensures !Clash(m, "/") && !Clash("/", m)
  {
    JoinedEnd(Meaning(m));
    JoinedHasNoDoubleSlash(Meaning(m));
    assert |m| > 1 && (m + "/")[1] == m[1] != '/';
    assert ("/" + "/")[1] == '/';
  }

  // What is accepted, in terms of components: a simplified path, trailing slashes aside, that is not
  // mounted yet and has no mount point other than the root above it, nor, unless it is the root, below it.
  lemma AcceptsIff(table: seq<string>, mountPoint: string)
    requires WellMounted(table)
    ensures Accepts(table, mountPoint) <==>
              && StripTail(mountPoint) == Simplify(mountPoint)
              && forall m :: m in table ==>
                   && m != Simplify(mountPoint)
                   && (m != "/" && Simplify(mountPoint) != "/" ==>
                         !Leads(Meaning(m), Meaning(mountPoint)) && !Leads(Meaning(mountPoint), Meaning(m)))
  {
    var s := Simplify(mountPoint);
    SimplifyMeans(mountPoint);
    MeaningOfAbsolute(Meaning(mountPoint));
    forall m | m in table
      ensures Clash(m, s) <==>
                m == s || (m != "/" && s != "/" && (Leads(Meaning(m), Meaning(s)) || Leads(Meaning(s), Meaning(m))))
    {
      ClashIff(m, s);
    }
  }

  lemma MountKeepsWellMounted(table: seq<string>, mountPoint: string)
    requires WellMounted(table)
    ensures WellMounted(Mount(table, mountPoint))
  {
    if Accepts(table, mountPoint) {
      var s := Simplify(mountPoint);
      StoredIsSimplified(table, mountPoint);
      SimplifyMeans(mountPoint);
      MeaningOfAbsolute(Meaning(mountPoint));
      var t := Mount(table, mountPoint);
      forall m, n | m in t && n in t && m != n && m != "/" && n != "/"
        ensures !Leads(Meaning(m), Meaning(n))
      {
        NoClashMeansNoLead(m, n);
      }
    }
  }

  // Whatever is mounted in whatever order, the table stays free of component-wise prefixes.
  lemma {:induction false} TableIsWellMounted(mountPoints: seq<string>)
    ensures WellMounted(MountAll(mountPoints))
  {
    if mountPoints != [] {
      TableIsWellMounted(mountPoints[..|mountPoints| - 1]);
      MountKeepsWellMounted(MountAll(mountPoints[..|mountPoints| - 1]), mountPoints[|mountPoints| - 1]);
    }
  }

  // A second mount under or above a mounted one is refused, whatever else is mounted.
  lemma NestedMountIsRefused(table: seq<string>, m: string, mountPoint: string)
    requires WellMounted(table) && m in table && m != "/" && Simplify(mountPoint) != "/"
    requires Leads(Meaning(m), Meaning(mountPoint)) || Leads(Meaning(mountPoint), Meaning(m))
    ensures Mount(table, mountPoint) == table
  {
    var s := Simplify(mountPoint);
    SimplifyMeans(mountPoint);
    MeaningOfAbsolute(Meaning(mountPoint));
    NoClashMeansNoLead(m, s);
  }

  // The root is the exception, in either order: a mounted root refuses nothing but itself, and is
  // refused only where it is mounted already.
  lemma RootNeitherRefusesNorIsRefused(table: seq<string>, mountPoint: string)
    requires WellMounted(table) && "/" in table && Simplify(mountPoint) != "/"
    ensures Accepts(table, mountPoint) <==>
              && StripTail(mountPoint) == Simplify(mountPoint)
              && forall m :: m in table && m != "/" ==> !Clash(m, StripTail(mountPoint))
    ensures !Accepts(table, "/")
  {
    var s := Simplify(mountPoint);
    SimplifyMeans(mountPoint);
    MeaningOfAbsolute(Meaning(mountPoint));
    NothingClashesWithRoot(s);
    assert Clash("/", StripTail("/"));
  }

  lemma RootIsNotRefused(table: seq<string>)
    requires WellMounted(table)
    ensures Accepts(table, "/") <==> "/" !in table
  {
    SimplifyMeans("/");
    MeaningOfAbsolute([]);
    forall m | m in table
      ensures Clash(m, "/") <==> m == "/"
    {
      if m != "/" {
        NothingClashesWithRoot(m);
      }
    }
  }

  lemma {:induction false} LessIsTotal(a: string, b: string)
    ensures Less(a, b) || a == b || Less(b, a)
    ensures !(Less(a, b) && Less(b, a)) && !Less(a, a)
    decreases |a|
  {
    if a != "" && b != "" {
      LessIsTotal(a[1..], b[1..]);
      LessIsTotal(a[1..], a[1..]);
      assert a == [a[0]] + a[1..] && b == [b[0]] + b[1..];
    } else if a != "" {
      LessIsTotal(a[1..], a[1..]);
    }
  }

  lemma {:induction false} LessIsTransitive(a: string, b: string, c: string)
    requires Less(a, b) && Less(b, c)
    ensures Less(a, c)
    decreases |a|
  {
    if a != "" && a[0] == b[0] && b[0] == c[0] {
      LessIsTransitive(a[1..], b[1..], c[1..]);
    }
  }

  // A proper prefix comes first.
  lemma {:induction false} PrefixIsLess(a: string, b: string)
    requires a <= b && a != b
    ensures Less(a, b)
    decreases |a|
  {
    if a != "" {
      HeadAndTailOfString(a, b);
      PrefixIsLess(a[1..], b[1..]);
    }
  }

  lemma HeadAndTailOfString(a: string, b: string)
    requires a != "" && a <= b && a != b
    ensures b != "" && a[0] == b[0] && a[1..] <= b[1..] && a[1..] != b[1..]
  {
    assert b == a + b[|a|..];
    assert b[1..] == a[1..] + b[|a|..];
    assert a == [a[0]] + a[1..] && b == [b[0]] + b[1..];
  }

  lemma {:induction false} InsertKeepsSorted(table: seq<string>, mountPoint: string)
    requires Sorted(table)
    ensures Sorted(InsertSorted(table, mountPoint))
  {
    var t := InsertSorted(table, mountPoint);
    if table == [] {
    } else if table[0] == mountPoint {
    } else if Less(mountPoint, table[0]) {
      forall j | 0 <= j < |table|
        ensures Less(mountPoint, table[j])
      {
        if j > 0 {
          LessIsTransitive(mountPoint, table[0], table[j]);
        }
      }
    } else {
      var rest := InsertSorted(table[1..], mountPoint);
      InsertKeepsSorted(table[1..], mountPoint);
      LessIsTotal(table[0], mountPoint);
      forall j | 0 <= j < |rest|
        ensures Less(table[0], rest[j])
      {
        assert rest[j] in rest;
      }
    }
  }

  lemma {:induction false} TableIsSorted(mountPoints: seq<string>)
    ensures Sorted(MountAll(mountPoints))
  {
    if mountPoints != [] {
      var table, m := MountAll(mountPoints[..|mountPoints| - 1]), mountPoints[|mountPoints| - 1];
      TableIsSorted(mountPoints[..|mountPoints| - 1]);
      InsertKeepsSorted(table, StripTail(StripTail(m) + "/"));
    }
  }

  // ------------------------------------------------------------------ resolution

  // Two prefixes of one string are prefixes of each other.
  lemma PrefixesAreOrdered(a: string, b: string, path: string)
    requires a <= path && b <= path && |a| <= |b|
    ensures a <= b
  {
    forall i | 0 <= i < |a|
      ensures a[i] == b[i]
    {
      assert a[i] == path[i] && b[i] == path[i];
    }
  }

  // A path resolves if and only if some mount point is a raw prefix of it.
  lemma ResolvesIff(table: seq<string>, path: string)
    ensures Lookup(table, path) < |table| <==> exists m :: m in table && m <= path
  {
    if Lookup(table, path) < |table| {
      assert table[Lookup(table, path)] in table;
    }
    if m :| m in table && m <= path {
      var j :| 0 <= j < |table| && table[j] == m;
      assert IsAtMountPoint(path, table[j]);
    }
  }

  // The lookup finds the shortest mount point that is a raw prefix of the path.
  lemma LookupIsShortest(table: seq<string>, path: string)
    requires Sorted(table) && Lookup(table, path) < |table|
    ensures table[Lookup(table, path)] <= path
    ensures forall m :: m in table && m <= path ==> table[Lookup(table, path)] <= m
  {
    var i := Lookup(table, path);
    forall m | m in table && m <= path
      ensures table[i] <= m
    {
      var j :| 0 <= j < |table| && table[j] == m;
      if |m| < |table[i]| {
        PrefixesAreOrdered(m, table[i], path);
        PrefixIsLess(m, table[i]);
        LessIsTotal(table[i], m);
        assert false;
      } else {
        PrefixesAreOrdered(table[i], m, path);
      }
    }
  }

  // A path below a mount point resolves to it exactly if no other mount point is a raw prefix of it.
  lemma ResolvesToOwnMountPoint(table: seq<string>, path: string, m: string)
    requires Sorted(table) && m in table
    requires path == m || (m + "/") <= path
    ensures Lookup(table, path) < |table|
    ensures table[Lookup(table, path)] == m <==> forall n :: n in table && n <= m ==> n == m
  {
    assert IsAtMountPoint(path, m) by {
      if (m + "/") <= path {
        assert (m + "/")[..|m|] == m;
      }
    }
    var j :| 0 <= j < |table| && table[j] == m;
    LookupIsShortest(table, path);
    var first := table[Lookup(table, path)];
    assert first <= m && first in table;
    forall n | n in table && n <= m
      ensures first <= n
    {
      assert path == m + path[|m|..];
      assert m == n + m[|n|..];
      assert IsAtMountPoint(path, n);
    }
    if first == m {
      forall n | n in table && n <= m
        ensures n == m
      {
        assert first <= n;
      }
    }
  }

  ghost predicate RawFree(table: seq<string>) {
    forall m, n :: m in table && n in table && m <= n ==> m == n
  }

  lemma MatchIsUnique(table: seq<string>, path: string)
    requires RawFree(table)
    ensures forall m, n :: m in table && n in table && m <= path && n <= path ==> m == n
  {
    forall m, n | m in table && n in table && m <= path && n <= path
      ensures m == n
    {
      if |m| <= |n| {
        PrefixesAreOrdered(m, n, path);
      } else {
        PrefixesAreOrdered(n, m, path);
      }
    }
  }

  // If no mount point is a raw prefix of another, at most one matches, so that the order of the
  // table does not matter; and the mount point followed by the rest is the path.
  lemma ResolutionIsUnique(table: seq<string>, other: seq<string>, path: string)
    requires Sorted(table) && RawFree(table)
    requires forall m :: m in table <==> m in other
    ensures forall m, n :: m in table && n in table && m <= path && n <= path ==> m == n
    ensures Lookup(table, path) < |table| <==> Lookup(other, path) < |other|
    ensures Lookup(table, path) < |table| ==>
              var m := table[Lookup(table, path)];
              && m == other[Lookup(other, path)]
              && m + path[|m|..] == path
  {
    MatchIsUnique(table, path);
    hide Sorted, RawFree;
    if Lookup(table, path) < |table| {
      assert table[Lookup(table, path)] in other;
    }
    if Lookup(other, path) < |other| {
      assert other[Lookup(other, path)] in table;
    }
  }

  // Two mount points that do not clash may still capture each other's paths.
  lemma SiblingCapturesPath(name: string, more: string, rest: string)
    requires ProperName(name) && ProperName(name + more) && more != ""
    ensures var a, b := Absolute([name]), Absolute([name + more]);
            && !Clash(a, b)
            && Sorted([a, b])
            && Lookup([a, b], b + "/" + rest) == 0
  {
    var a, b := Absolute([name]), Absolute([name + more]);
    assert Joined([name]) == "/" + name + Joined([]);
    assert Joined([name + more]) == "/" + (name + more) + Joined([]);
    assert b == a + more;
    PrefixIsLess(a, b);
    PrefixOfComponents([name], [name + more]);
    PrefixOfComponents([name + more], [name]);
    assert [name][0] != [name + more][0];
    assert b + "/" + rest == a + (more + "/" + rest);
  }

  // At one mount point, distinct simplified paths have distinct keys.
  lemma RemaindersHaveDistinctKeys(p: string, q: string, m: string)
    requires NoDoubleSlash(p) && NoDoubleSlash(q) && m <= p && m <= q
    requires SplitPath(p[|m|..]) == SplitPath(q[|m|..])
    ensures p == q
  {
    hide SplitPath;
    var x, y := p[|m|..], q[|m|..];
    assert forall i :: 0 <= i < |x| ==> x[i] == p[|m| + i];
    assert forall i :: 0 <= i < |y| ==> y[i] == q[|m| + i];
    KeysAreInjective(x, y);
    assert p == m + x && q == m + y;
  }
}
