// Path strings: normalisation, splitting, and what they mean as lists of components.
module Paths {
  import opened Volumes

  // ------------------------------------------------------------------ pieces of a string

  predicate NoSlash(s: string) {
    forall i :: 0 <= i < |s| ==> s[i] != '/'
  }

  // The parts between slashes, empty ones included.
  function Pieces(s: string): (pieces: seq<string>)
    ensures pieces != []
    ensures forall i :: 0 <= i < |pieces| ==> NoSlash(pieces[i])
  {
    if s == "" then [""]
    else
      var rest := Pieces(s[1..]);
      if s[0] == '/' then [""] + rest else [[s[0]] + rest[0]] + rest[1..]
  }

  // Every component after a slash.
  function Joined(names: seq<string>): string {
    if names == [] then "" else "/" + names[0] + Joined(names[1..])
  }

  function Absolute(names: seq<string>): string {
    if names == [] then "/" else Joined(names)
  }

  predicate ProperName(s: string) {
    NoSlash(s) && s != "" && s != "." && s != ".."
  }

  predicate Proper(names: seq<string>) {
    forall i :: 0 <= i < |names| ==> ProperName(names[i])
  }

  // ------------------------------------------------------------------ what a path means

  // A component pushed on the stack of directories below "/".
  function Step(stack: seq<string>, piece: string): seq<string> {
    if piece == "" || piece == "." then stack
    else if piece == ".." then if stack == [] then [] else stack[..|stack| - 1]
    else stack + [piece]
  }

  function Resolve(pieces: seq<string>): seq<string> {
    if pieces == [] then [] else Step(Resolve(pieces[..|pieces| - 1]), pieces[|pieces| - 1])
  }

  // ------------------------------------------------------------------ lexically_normal

  // The rules of section [fs.path.generic] of ISO/IEC 14882:2017 for a path that starts with "/",
  // on the list of its file names.
  function Without(pieces: seq<string>, unwanted: string): seq<string> {
    if pieces == [] then []
    else
      var rest := Without(pieces[..|pieces| - 1], unwanted);
      if pieces[|pieces| - 1] == unwanted then rest else rest + [pieces[|pieces| - 1]]
  }

  // A name that is not "..", followed by "..".
  predicate Redex(names: seq<string>, i: nat) {
    i + 1 < |names| && names[i] != ".." && names[i + 1] == ".."
  }

  function Cancelled(names: seq<string>, i: nat): seq<string>
    requires i + 1 < |names|
  {
    names[..i] + names[i + 2..]
  }

  function FirstRedex(names: seq<string>, from: nat): (i: nat)
    requires from <= |names|
    ensures i <= |names|
    ensures i < |names| ==> Redex(names, i)
    ensures i == |names| ==> forall j :: from <= j < |names| ==> !Redex(names, j)
    decreases |names| - from
  {
    if from == |names| then |names|
    else if Redex(names, from) then from
    else FirstRedex(names, from + 1)
  }

  // Cancels as long as there is something to cancel.
  function CancelAll(names: seq<string>): seq<string>
    decreases |names|
  {
    var i := FirstRedex(names, 0);
    if i == |names| then names else CancelAll(Cancelled(names, i))
  }

  // Rules 3 to 6: no empty name, no ".", no name before "..", no ".." at the root.
  function NormalNames(path: string): seq<string> {
    Without(CancelAll(Without(Without(Pieces(path), ""), ".")), "..")
  }

  // A path that ends in a separator, "." or ".." keeps a separator at its end.
  function LexicallyNormal(path: string): string {
    var pieces, names := Pieces(path), NormalNames(path);
    var last := pieces[|pieces| - 1];
    if names != [] && (last == "" || last == "." || last == "..") then Absolute(names) + "/"
    else Absolute(names)
  }

  function StripTail(path: string): string {
    if |path| > 1 && path[|path| - 1] == '/' then StripTail(path[..|path| - 1]) else path
  }

  // Only slashes go, all of those at the end, but the first character stays.
  lemma {:induction false} StripTailIs(path: string)
    ensures StripTail(path) <= path && (path != "" ==> StripTail(path) != "")
    ensures forall i :: |StripTail(path)| <= i < |path| ==> path[i] == '/'
    ensures |StripTail(path)| > 1 ==> StripTail(path)[|StripTail(path)| - 1] != '/'
  {
    if |path| > 1 && path[|path| - 1] == '/' {
      StripTailIs(path[..|path| - 1]);
    }
  }

  method RemoveTrailingSlashes(path: string) returns (stripped: string)
    ensures stripped == StripTail(path)
    ensures stripped <= path && (path != "" ==> stripped != "")
    ensures forall i :: |stripped| <= i < |path| ==> path[i] == '/'
    ensures |stripped| > 1 ==> stripped[|stripped| - 1] != '/'
  {
    StripTailIs(path);
    stripped := path;
    while |stripped| > 1 && stripped[|stripped| - 1] == '/'
      invariant StripTail(stripped) == StripTail(path)
    {
      stripped := stripped[..|stripped| - 1];
    }
  }

  // simplify_path_string
  function Simplify(path: string): string {
    StripTail(LexicallyNormal("/" + path))
  }

  // ------------------------------------------------------------------ cancelling in any order

  // The same machine for relative paths: ".." that finds nothing to cancel stays.
  function RelativeStep(stack: seq<string>, piece: string): seq<string> {
    if piece == ".." && stack != [] && stack[|stack| - 1] != ".." then stack[..|stack| - 1]
    else stack + [piece]
  }

  function Relative(names: seq<string>): seq<string> {
    if names == [] then [] else RelativeStep(Relative(names[..|names| - 1]), names[|names| - 1])
  }

  function RelativeFrom(stack: seq<string>, names: seq<string>): seq<string>
    decreases |names|
  {
    if names == [] then stack else RelativeFrom(RelativeStep(stack, names[0]), names[1..])
  }

  lemma {:induction false} RelativeConcat(a: seq<string>, b: seq<string>)
    ensures Relative(a + b) == RelativeFrom(Relative(a), b)
    decreases |b|
  {
    if b == [] {
      assert a + b == a;
    } else {
      RelativeConcat(a + [b[0]], b[1..]);
      assert a + [b[0]] + b[1..] == a + b;
      assert (a + [b[0]])[..|a|] == a;
    }
  }

  // Cancelling does not change the meaning.
  lemma CancelKeepsRelative(names: seq<string>, i: nat)
    requires Redex(names, i)
    ensures Relative(Cancelled(names, i)) == Relative(names)
  {
    var a, b := names[..i], names[i + 2..];
    assert names == a + ([names[i], ".."] + b);
    RelativeConcat(a, [names[i], ".."] + b);
    RelativeConcat(a, b);
    var s := Relative(a);
    assert ([names[i], ".."] + b)[1..] == [".."] + b;
    assert ([".."] + b)[1..] == b;
    assert (s + [names[i]])[..|s|] == s;
  }

  // What cannot be cancelled further is the outcome of the machine.
  predicate Irreducible(names: seq<string>) {
    forall i :: 0 <= i < |names| ==> !Redex(names, i)
  }

  lemma {:induction false} IrreducibleIsRelative(names: seq<string>)
    requires Irreducible(names)
    ensures Relative(names) == names
  {
    if names != [] {
      var init := names[..|names| - 1];
      forall i | 0 <= i < |init|
        ensures !Redex(init, i)
      {
        assert !Redex(names, i);
      }
      IrreducibleIsRelative(init);
      assert |names| > 1 ==> !Redex(names, |names| - 2);
    }
  }

  lemma {:induction false} CancelAllIsRelative(names: seq<string>)
    ensures CancelAll(names) == Relative(names)
    decreases |names|
  {
    var i := FirstRedex(names, 0);
    if i == |names| {
      IrreducibleIsRelative(names);
    } else {
      CancelKeepsRelative(names, i);
      CancelAllIsRelative(Cancelled(names, i));
    }
  }

  // The cancellations at the given places, in that order.
  predicate CanCancel(names: seq<string>, places: seq<nat>)
    decreases |places|
  {
    places == [] || (Redex(names, places[0]) && CanCancel(Cancelled(names, places[0]), places[1..]))
  }

  function CancelAt(names: seq<string>, places: seq<nat>): seq<string>
    requires CanCancel(names, places)
    decreases |places|
  {
    if places == [] then names else CancelAt(Cancelled(names, places[0]), places[1..])
  }

  // The standard leaves the order open; it does not matter.
  lemma {:induction false} OrderOfCancellationDoesNotMatter(names: seq<string>, places: seq<nat>)
    requires CanCancel(names, places)
    requires Irreducible(CancelAt(names, places))
    ensures CancelAt(names, places) == CancelAll(names)
    decreases |places|
  {
    if places == [] {
      IrreducibleIsRelative(names);
      CancelAllIsRelative(names);
    } else {
      CancelKeepsRelative(names, places[0]);
      OrderOfCancellationDoesNotMatter(Cancelled(names, places[0]), places[1..]);
      CancelAllIsRelative(names);
      CancelAllIsRelative(Cancelled(names, places[0]));
    }
  }

  // ------------------------------------------------------------------ the meaning of a simplified path

  lemma {:induction false} ResolveSkips(pieces: seq<string>, unwanted: string)
    requires unwanted == "" || unwanted == "."
    ensures Resolve(Without(pieces, unwanted)) == Resolve(pieces)
  {
    if pieces != [] {
      var init := pieces[..|pieces| - 1];
      ResolveSkips(init, unwanted);
      var w := Without(init, unwanted);
      assert (w + [pieces[|pieces| - 1]])[..|w|] == w;
    }
  }

  lemma {:induction false} WithoutMembers(pieces: seq<string>, unwanted: string)
    ensures forall s :: s in Without(pieces, unwanted) <==> s in pieces && s != unwanted
  {
    if pieces != [] {
      var init := pieces[..|pieces| - 1];
      WithoutMembers(init, unwanted);
      assert pieces == init + [pieces[|pieces| - 1]];
    }
  }

  lemma WithoutAppend(pieces: seq<string>, last: string, unwanted: string)
    ensures Without(pieces + [last], unwanted)
            == if last == unwanted then Without(pieces, unwanted) else Without(pieces, unwanted) + [last]
  {
    assert (pieces + [last])[..|pieces|] == pieces;
  }

  function Ups(k: nat): seq<string> { seq(k, _ => "..") }

  // A relative outcome is some ".." that found nothing to cancel, then the absolute meaning.
  lemma {:induction false} RelativeShape(names: seq<string>) returns (k: nat)
    requires "" !in names && "." !in names
    ensures Relative(names) == Ups(k) + Resolve(names)
    ensures ".." !in Resolve(names)
  {
    k := 0;
    if names != [] {
      var init, last := names[..|names| - 1], names[|names| - 1];
      assert names == init + [last];
      k := RelativeShape(init);
      var r, s := Relative(init), Resolve(init);
      if last != ".." {
        assert Ups(k) + s + [last] == Ups(k) + (s + [last]);
      } else if s == [] {
        assert r == Ups(k);
        assert Ups(k) + [".."] == Ups(k + 1);
        k := k + 1;
      } else {
        assert r[|r| - 1] == s[|s| - 1] && s[|s| - 1] in s;
        assert r[..|r| - 1] == Ups(k) + s[..|s| - 1];
      }
    }
  }

  lemma {:induction false} WithoutUps(k: nat, names: seq<string>)
    requires ".." !in names
    ensures Without(Ups(k) + names, "..") == names
    decreases k + |names|
  {
    if names != [] {
      var init, last := names[..|names| - 1], names[|names| - 1];
      assert Ups(k) + names == Ups(k) + init + [last];
      WithoutAppend(Ups(k) + init, last, "..");
      WithoutUps(k, init);
    } else if k > 0 {
      assert Ups(k) + names == Ups(k - 1) + [] + [".."];
      WithoutAppend(Ups(k - 1) + [], "..", "..");
      WithoutUps(k - 1, []);
    }
  }

  // Dropping the ".." left at the root gives the absolute meaning.
  lemma NormalNamesMeans(path: string)
    ensures NormalNames(path) == Resolve(Pieces(path))
  {
    var a := Without(Pieces(path), "");
    var names := Without(a, ".");
    WithoutMembers(Pieces(path), "");
    WithoutMembers(a, ".");
    CancelAllIsRelative(names);
    var k := RelativeShape(names);
    WithoutUps(k, Resolve(names));
    ResolveSkips(Pieces(path), "");
    ResolveSkips(a, ".");
  }

  lemma {:induction false} ResolveIsProper(pieces: seq<string>)
    requires forall i :: 0 <= i < |pieces| ==> NoSlash(pieces[i])
    ensures Proper(Resolve(pieces))
  {
    if pieces != [] {
      ResolveIsProper(pieces[..|pieces| - 1]);
    }
  }

  lemma {:induction false} JoinedEnd(names: seq<string>)
    requires Proper(names) && names != []
    ensures |Joined(names)| > 1 && Joined(names)[0] == '/' && Joined(names)[|Joined(names)| - 1] != '/'
  {
    if |names| == 1 {
      assert Joined(names[1..]) == "";
    } else {
      JoinedEnd(names[1..]);
    }
  }

  // The components a path string stands for.
  function Meaning(path: string): (names: seq<string>)
    ensures Proper(names)
  {
    ResolveIsProper(Pieces("/" + path));
    Resolve(Pieces("/" + path))
  }

  // Simplification computes the component-stack meaning of "/" followed by the path.
  lemma SimplifyMeans(path: string)
    ensures Simplify(path) == Absolute(Meaning(path))
  {
    var names := Meaning(path);
    NormalNamesMeans("/" + path);
    if names != [] {
      JoinedEnd(names);
      var a := Absolute(names);
      assert (a + "/")[..|a|] == a;
      assert StripTail(a) == a;
      assert StripTail(a + "/") == a;
    }
  }

  // ------------------------------------------------------------------ reading a simplified path back

  lemma {:induction false} PiecesOfName(name: string, rest: string)
    requires NoSlash(name) && (rest == "" || rest[0] == '/')
    ensures Pieces(name + rest) == if rest == "" then [name] else [name] + Pieces(rest[1..])
  {
    if name == "" {
      assert name + rest == rest;
    } else {
      assert name + rest == [name[0]] + (name[1..] + rest);
      assert (name + rest)[1..] == name[1..] + rest;
      PiecesOfName(name[1..], rest);
      assert [name[0]] + name[1..] == name;
    }
  }

  lemma {:induction false} PiecesOfJoined(names: seq<string>)
    requires Proper(names)
    ensures Pieces(Joined(names)) == [""] + names
  {
    if names != [] {
      var rest := Joined(names[1..]);
      PiecesOfJoined(names[1..]);
      PiecesOfName(names[0], rest);
      assert Joined(names) == "/" + (names[0] + rest);
      assert Joined(names)[1..] == names[0] + rest;
      if names[1..] != [] {
        assert Pieces(rest) == [""] + Pieces(rest[1..]);
        assert Pieces(rest)[1..] == names[1..];
        assert ([""] + Pieces(rest[1..]))[1..] == Pieces(rest[1..]);
        assert [names[0]] + names[1..] == names;
      } else {
        assert rest == "";
        assert names == [names[0]];
      }
    }
  }

  lemma {:induction false} ResolveProper(names: seq<string>)
    requires Proper(names)
    ensures Resolve(names) == names
  {
    if names != [] {
      ResolveProper(names[..|names| - 1]);
    }
  }

  lemma ResolvePrefix(extra: seq<string>, names: seq<string>)
    requires forall s :: s in extra ==> s == ""
    ensures Resolve(extra + names) == Resolve(names)
  {
    ResolveSkips(extra + names, "");
    ResolveSkips(names, "");
    WithoutPrefix(extra, names);
  }

  lemma {:induction false} WithoutPrefix(extra: seq<string>, names: seq<string>)
    requires forall s :: s in extra ==> s == ""
    ensures Without(extra + names, "") == Without(names, "")
    decreases |names| + |extra|
  {
    if names != [] {
      var init, last := names[..|names| - 1], names[|names| - 1];
      assert extra + names == extra + init + [last];
      WithoutPrefix(extra, init);
      WithoutAppend(extra + init, last, "");
    } else if extra != [] {
      var init, last := extra[..|extra| - 1], extra[|extra| - 1];
      assert last in extra;
      assert extra + names == init + [] + [last];
      assert forall s :: s in init ==> s in extra;
      WithoutPrefix(init, []);
      WithoutAppend(init + [], last, "");
    }
  }

  // A proper list of components is read back from its string.
  lemma MeaningOfAbsolute(names: seq<string>)
    requires Proper(names)
    ensures Meaning(Absolute(names)) == names
  {
    var a := Absolute(names);
    assert ("/" + a)[1..] == a;
    if names == [] {
      assert a[1..] == "";
      assert Pieces("") == [""];
      assert Pieces(a) == ["", ""];
      assert Pieces("/" + a) == ["", "", ""];
      ResolvePrefix(["", "", ""], []);
      assert ["", "", ""] + [] == ["", "", ""];
    } else {
      PiecesOfJoined(names);
      assert Pieces("/" + a) == [""] + ([""] + names);
      assert [""] + ([""] + names) == ["", ""] + names;
      ResolvePrefix(["", ""], names);
      ResolveProper(names);
    }
  }

  lemma SimplifyIsIdempotent(path: string)
    ensures Simplify(Simplify(path)) == Simplify(path)
  {
    SimplifyMeans(path);
    MeaningOfAbsolute(Meaning(path));
    SimplifyMeans(Simplify(path));
  }

  // Two inputs simplify to the same string exactly if they resolve to the same components.
  lemma SimplifyAgrees(p: string, q: string)
    ensures Simplify(p) == Simplify(q) <==> Meaning(p) == Meaning(q)
  {
    SimplifyMeans(p);
    SimplifyMeans(q);
    MeaningOfAbsolute(Meaning(p));
    MeaningOfAbsolute(Meaning(q));
  }

  // ------------------------------------------------------------------ the shape of a simplified path

  predicate NoDoubleSlash(s: string) {
    forall i :: 0 <= i < |s| - 1 ==> !(s[i] == '/' && s[i + 1] == '/')
  }

  lemma {:induction false} JoinedHasNoDoubleSlash(names: seq<string>)
    requires Proper(names)
    ensures NoDoubleSlash(Joined(names))
  {
    if names != [] {
      JoinedHasNoDoubleSlash(names[1..]);
      var head, rest := "/" + names[0], Joined(names[1..]);
      assert Joined(names) == head + rest;
    }
  }

  // Absolute, without empty components, and without a slash at the end unless it is "/".
  lemma SimplifiedShape(path: string)
    ensures var s := Simplify(path);
            && |s| > 0 && s[0] == '/' && NoDoubleSlash(s)
            && (s == "/" || s[|s| - 1] != '/')
            && (s == "/" <==> Meaning(path) == [])
  {
    SimplifyMeans(path);
    var names := Meaning(path);
    JoinedHasNoDoubleSlash(names);
    if names != [] {
      JoinedEnd(names);
    }
  }

  // ------------------------------------------------------------------ splitting

  lemma LastSlashUnique(s: string, i: nat)
    requires i < |s| && s[i] == '/' && NoSlash(s[i + 1..])
    ensures LastSlash(s) == i
  {
    forall j | i < j < |s|
      ensures s[j] != '/'
    {
      assert s[j] == s[i + 1..][j - i - 1];
    }
  }

  lemma {:induction false} JoinedConcat(a: seq<string>, b: seq<string>)
    ensures Joined(a + b) == Joined(a) + Joined(b)
  {
    if a == [] {
      assert a + b == b;
    } else {
      JoinedConcat(a[1..], b);
      assert (a + b)[1..] == a[1..] + b;
    }
  }

  // A path is split at its last slash, whatever stands before it; one without a slash has no directory.
  lemma SplitAtLastSlash(front: string, name: string)
    requires NoSlash(name)
    ensures SplitPath(front + "/" + name) == Key(if front == "" then "/" else front, name)
    ensures SplitPath(name) == Key("", name)
  {
    var path := front + "/" + name;
    assert path[|front|] == '/' && path[|front| + 1..] == name && path[..|front|] == front;
    LastSlashUnique(path, |front|);
  }

  // For a simplified path other than "/", the directory is the parent and the file the last component.
  lemma SplitIsParentAndName(names: seq<string>)
    requires Proper(names) && names != []
    ensures SplitPath(Absolute(names)) == Key(Absolute(names[..|names| - 1]), names[|names| - 1])
  {
    var init, name := names[..|names| - 1], names[|names| - 1];
    assert names == init + [name];
    JoinedConcat(init, [name]);
    assert Joined([name]) == "/" + name + Joined([]);
    var path := Absolute(names);
    var i := |Joined(init)|;
    assert path == Joined(init) + ("/" + name);
    assert path[i] == '/' && path[i + 1..] == name;
    LastSlashUnique(path, i);
    assert path[..i] == Joined(init);
    if init != [] {
      JoinedEnd(init);
    }
  }

  // Joining the two parts and simplifying gives the path back.
  lemma SplitThenJoin(names: seq<string>)
    requires Proper(names) && names != []
    ensures var key := SplitPath(Absolute(names));
            Simplify(key.dir + "/" + key.name) == Absolute(names)
  {
    hide *;
    var init, name := names[..|names| - 1], names[|names| - 1];
    LastComponent(names);
    SplitIsParentAndName(names);
    if init == [] {
      SimplifyTop(name);
    } else {
      ParentAndName(init, name);
      SimplifyMeans(Absolute(names));
      MeaningOfAbsolute(names);
    }
  }

  lemma LastComponent(names: seq<string>)
    requires Proper(names) && names != []
    ensures var init, name := names[..|names| - 1], names[|names| - 1];
            names == init + [name] && ProperName(name) && (init == [] ==> names == [name] && Absolute(init) == "/")
  {
  }

  lemma ParentAndName(init: seq<string>, name: string)
    requires init != []
    ensures Absolute(init) + "/" + name == Absolute(init + [name])
  {
    hide Joined;
    JoinedConcat(init, [name]);
    JoinedOne(name);
    assert Joined(init) + ("/" + name) == Joined(init) + "/" + name;
  }

  lemma JoinedOne(name: string)
    ensures Joined([name]) == "/" + name
  {
    assert Joined([name]) == "/" + name + Joined([]);
  }

  lemma PiecesAfterSlash(s: string)
    ensures Pieces("/" + s) == [""] + Pieces(s)
  {
    assert ("/" + s)[1..] == s;
  }

  lemma SimplifyTop(name: string)
    requires ProperName(name)
    ensures Simplify("/" + "/" + name) == Absolute([name])
  {
    hide Simplify, Resolve;
    var joined := "/" + "/" + name;
    SimplifyMeans(joined);
    PiecesOfName(name, "");
    assert name + "" == name;
    PiecesAfterSlash(name);
    PiecesAfterSlash("/" + name);
    PiecesAfterSlash(joined);
    assert joined == "/" + ("/" + name);
    assert Pieces("/" + joined) == ["", "", ""] + [name];
    ResolvePrefix(["", "", ""], [name]);
    ResolveProper([name]);
  }

  // Distinct paths inside a partition never share a key, in spite of the special case.
  lemma KeysAreInjective(p: string, q: string)
    requires NoDoubleSlash(p) && NoDoubleSlash(q)
    requires SplitPath(p) == SplitPath(q)
    ensures p == q
  {
    SplitRebuilds(p);
    SplitRebuilds(q);
  }

  lemma SplitRebuilds(p: string)
    requires NoDoubleSlash(p)
    ensures var key := SplitPath(p);
            p == if key.dir == "" then key.name else if key.dir == "/" then "/" + key.name else key.dir + "/" + key.name
  {
    var i := LastSlash(p);
    if i >= 0 {
      assert p == p[..i] + ['/'] + p[i + 1..];
      assert |p[..i]| == i;
    }
  }
}
