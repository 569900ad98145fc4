/** The parts of Go's `path/filepath` that `Heic2jpg` uses to name its output
    (`Base`, `Ext`, `Dir`, and `Clean` underneath `Dir`), for Unix, where the
    separator is '/' and there are no volume names. */
module FilePaths {

  const Separator: char := '/'

  /** Index of the last `c` in `p`, or -1. */
  function LastIndexOf(p: string, c: char): (i: int)
    ensures -1 <= i < |p|
    ensures i >= 0 ==> p[i] == c
    ensures forall j :: i < j < |p| ==> p[j] != c
    decreases |p|
  {
    if p == [] then -1
    else if p[|p| - 1] == c then |p| - 1
    else LastIndexOf(p[..|p| - 1], c)
  }

  /** `p` without its trailing separators. */
  function TrimTrailing(p: string): (q: string)
    ensures q <= p
    ensures q == [] || q[|q| - 1] != Separator
    ensures forall j :: |q| <= j < |p| ==> p[j] == Separator
    decreases |p|
  {
    if p != [] && p[|p| - 1] == Separator then TrimTrailing(p[..|p| - 1]) else p
  }

  /** A non-empty path made of separators only. */
  predicate OnlySeparators(p: string) {
    p != [] && forall j :: 0 <= j < |p| ==> p[j] == Separator
  }

  /** `filepath.Base`: the last element of the path, trailing separators
      ignored; "." for the empty path and "/" for a path of separators only. */
  function Base(p: string): (b: string)
    ensures b != []
    ensures p == [] ==> b == "."
    ensures OnlySeparators(p) ==> b == [Separator]
    ensures Separator in b ==> OnlySeparators(p)
    // Otherwise: the last element of the path once its trailing separators
    // are trimmed, that is, its longest suffix without a separator.
    ensures p != [] && !OnlySeparators(p) ==>
      var q := TrimTrailing(p);
      && |b| <= |q| && b == q[|q| - |b|..] && Separator !in b
      && (|b| == |q| || q[|q| - |b| - 1] == Separator)
    ensures p != [] && p[|p| - 1] != Separator ==> b == p[LastIndexOf(p, Separator) + 1..]
    ensures p != [] && p[|p| - 1] != Separator ==> |b| <= |p| && Separator !in b && b == p[|p| - |b|..]
  {
    if p == [] then "."
    else
      var q := TrimTrailing(p);
      if q == [] then [Separator] else q[LastIndexOf(q, Separator) + 1..]
  }

  /** `filepath.Ext`: the suffix from the last '.' of the last element, or ""
      when that element has no '.'. */
  function Ext(p: string): (e: string)
    ensures e == [] || (e[0] == '.' && |e| <= |p| && e == p[|p| - |e|..] && Separator !in e && '.' !in e[1..])
    ensures e == [] <==> forall j :: 0 <= j < |p| && p[j] == '.' ==> Separator in p[j + 1..]
  {
    var dot := LastIndexOf(p, '.');
    var sep := LastIndexOf(p, Separator);
    if dot > sep then
      LastDotAfterSeparator(p, dot, sep);
      p[dot..]
    else
      EveryDotBeforeSeparator(p, dot, sep);
      []
  }

  lemma LastDotAfterSeparator(p: string, dot: int, sep: int)
    requires dot == LastIndexOf(p, '.') && sep == LastIndexOf(p, Separator) && dot > sep
    ensures var e := p[dot..]; e[0] == '.' && Separator !in e && '.' !in e[1..]
    ensures Separator !in p[dot + 1..]
  {
    var e := p[dot..];
    forall k | 0 <= k < |e| ensures e[k] != Separator && (k > 0 ==> e[k] != '.') {
      assert e[k] == p[dot + k];
    }
    assert p[dot + 1..] == e[1..];
  }

  lemma EveryDotBeforeSeparator(p: string, dot: int, sep: int)
    requires dot == LastIndexOf(p, '.') && sep == LastIndexOf(p, Separator) && dot <= sep
    ensures forall j :: 0 <= j < |p| && p[j] == '.' ==> Separator in p[j + 1..]
  {
    forall j | 0 <= j < |p| && p[j] == '.' ensures Separator in p[j + 1..] {
      assert j <= dot < sep;
      assert p[j + 1..][sep - j - 1] == p[sep];
    }
  }

  /** The pieces of `p` between separators, empty ones included. */
  function Split(p: string): (parts: seq<string>)
    ensures |parts| >= 1
    decreases |p|
  {
    if p == [] then [[]]
    else
      var rest := Split(p[1..]);
      if p[0] == Separator then [[]] + rest
      else [[p[0]] + rest[0]] + rest[1..]
  }

  /** Pieces that name something: not empty (doubled separators) and not ".". */
  predicate Proper(x: string) {
    x != [] && x != "." && Separator !in x
  }

  function Significant(parts: seq<string>): (r: seq<string>)
    ensures forall x :: x in r ==> x in parts && x != [] && x != "."
    decreases |parts|
  {
    if parts == [] then []
    else if parts[0] == [] || parts[0] == "." then Significant(parts[1..])
    else [parts[0]] + Significant(parts[1..])
  }

  /** Process the remaining elements left to right against a stack of kept
      ones: ".." removes the last kept element unless that is itself "..";
      a ".." that has nothing to remove is dropped at the root of a rooted
      path and kept otherwise. */
  function Resolve(rooted: bool, stack: seq<string>, rest: seq<string>): seq<string>
    decreases |rest|
  {
    if rest == [] then stack
    else
      var e := rest[0];
      var next :=
        if e != ".." then stack + [e]
        else if stack != [] && stack[|stack| - 1] != ".." then stack[..|stack| - 1]
        else if rooted then stack
        else stack + [".."];
      Resolve(rooted, next, rest[1..])
  }

  /** Elements joined with single separators. */
  function Join(xs: seq<string>): string
    decreases |xs|
  {
    if xs == [] then []
    else if |xs| == 1 then xs[0]
    else xs[0] + [Separator] + Join(xs[1..])
  }

  /** `filepath.Clean`: the shortest lexically equivalent path — repeated
      separators and "." elements removed, each ".." cancelled against the
      element before it, ".." at the root dropped; "." if nothing is left. */
  function Clean(p: string): (c: string)
    // Never empty, and rooted exactly when the input is.
    ensures c != [] && (c[0] == Separator <==> |p| > 0 && p[0] == Separator)
  {
    KeptNormal(p);
    RenderRelativeStart(Kept(p));
    Render(|p| > 0 && p[0] == Separator, Kept(p))
  }

  /** The elements `Clean` keeps. */
  function Kept(p: string): seq<string> {
    Resolve(|p| > 0 && p[0] == Separator, [], Significant(Split(p)))
  }

  /** Kept elements written out: behind the root for a rooted path, "." when
      a relative path keeps nothing. */
  function Render(rooted: bool, s: seq<string>): string {
    if rooted then [Separator] + Join(s)
    else if Join(s) == [] then "."
    else Join(s)
  }

  /** `filepath.Dir`: everything up to the last separator, cleaned. */
  function Dir(p: string): (d: string)
    ensures Separator !in p ==> d == "."
    ensures d != [] && (d[0] == Separator <==> |p| > 0 && p[0] == Separator)
  {
    var prefix := p[..LastIndexOf(p, Separator) + 1];
    assert Separator !in p ==> prefix == [] && Kept(prefix) == [];
    Clean(prefix)
  }

  /** Paths kept by `Clean`'s element processing: every element proper, no
      ".." in a rooted path, and in a relative path the ".." elements all
      at the front. */
  predicate Normal(rooted: bool, s: seq<string>) {
    && (forall i :: 0 <= i < |s| ==> Proper(s[i]))
    && (forall i :: 0 <= i < |s| && s[i] == ".." ==> !rooted && forall j :: 0 <= j < i ==> s[j] == "..")
  }

  lemma {:induction false} SplitNoSeparator(x: string)
    requires Separator !in x
    ensures Split(x) == [x]
    decreases |x|
  {
    if x != [] {
      assert Separator !in x[1..];
      SplitNoSeparator(x[1..]);
      assert x == [x[0]] + x[1..];
    }
  }

  /** No piece holds a separator. */
  lemma {:induction false} SplitPieces(p: string)
    ensures forall x :: x in Split(p) ==> Separator !in x
    decreases |p|
  {
    if p != [] {
      SplitPieces(p[1..]);
      var rest := Split(p[1..]);
      assert rest[0] in rest;
      assert forall x :: x in rest[1..] ==> x in rest;
    }
  }

  /** Splitting a path that starts with an ordinary character: the character
      joins the first piece of the rest. */
  lemma SplitCons(c: char, q: string)
    requires c != Separator
    ensures Split([c] + q) == [[c] + Split(q)[0]] + Split(q)[1..]
  {
    assert ([c] + q)[1..] == q;
  }

  /** Splitting at a separator splits the pieces on either side of it. */
  lemma {:induction false} SplitAround(a: string, b: string)
    ensures Split(a + [Separator] + b) == Split(a) + Split(b)
    decreases |a|
  {
    if a == [] {
      assert a + [Separator] + b == [Separator] + b;
      SplitSeparator(b);
    } else {
      var q := a[1..] + [Separator] + b;
      assert a + [Separator] + b == [a[0]] + q;
      assert a == [a[0]] + a[1..];
      SplitAround(a[1..], b);
      if a[0] == Separator {
        SeparatorAround(q, a[1..], b);
      } else {
        ConsAround(a[0], a[1..], b);
      }
    }
  }

  lemma SplitSeparator(q: string)
    ensures Split([Separator] + q) == [[]] + Split(q)
  {
    assert ([Separator] + q)[1..] == q;
  }

  /** The inductive step of `SplitAround` for a leading separator. */
  lemma SeparatorAround(x: string, a: string, b: string)
    requires Split(x) == Split(a) + Split(b)
    ensures Split([Separator] + x) == Split([Separator] + a) + Split(b)
  {
    SplitSeparator(x);
    SplitSeparator(a);
    PrependAssoc([], Split(a), Split(b));
  }

  lemma PrependAssoc(h: string, xs: seq<string>, ys: seq<string>)
    ensures [h] + (xs + ys) == [h] + xs + ys
  {
  }

  /** The inductive step of `SplitAround` for a first character that is not a separator. */
  lemma ConsAround(c: char, a: string, b: string)
    requires c != Separator
    requires Split(a + [Separator] + b) == Split(a) + Split(b)
    ensures Split([c] + (a + [Separator] + b)) == Split([c] + a) + Split(b)
  {
    SplitCons(c, a + [Separator] + b);
    SplitCons(c, a);
    MergeFirst([c], Split(a), Split(b));
  }

  /** Prefixing the first piece commutes with appending further pieces. */
  lemma MergeFirst(h: string, inner: seq<string>, tail: seq<string>)
    requires inner != []
    ensures [h + (inner + tail)[0]] + (inner + tail)[1..] == [h + inner[0]] + inner[1..] + tail
  {
    assert (inner + tail)[1..] == inner[1..] + tail;
  }

  /** Splitting joined elements gives the elements back. */
  lemma {:induction false} SplitJoin(xs: seq<string>)
    requires xs != []
    requires forall i :: 0 <= i < |xs| ==> Separator !in xs[i]
    ensures Split(Join(xs)) == xs
    decreases |xs|
  {
    if |xs| == 1 {
      SplitNoSeparator(xs[0]);
    } else {
      SplitAround(xs[0], Join(xs[1..]));
      SplitNoSeparator(xs[0]);
      SplitJoin(xs[1..]);
      assert xs == [xs[0]] + xs[1..];
    }
  }

  lemma {:induction false} SignificantAppend(a: seq<string>, b: seq<string>)
    ensures Significant(a + b) == Significant(a) + Significant(b)
    decreases |a|
  {
    if a == [] {
      assert a + b == b;
    } else {
      assert (a + b)[1..] == a[1..] + b;
      SignificantAppend(a[1..], b);
    }
  }

  lemma {:induction false} SignificantDropsAll(xs: seq<string>)
    requires forall i :: 0 <= i < |xs| ==> xs[i] == [] || xs[i] == "."
    ensures Significant(xs) == []
    decreases |xs|
  {
    if xs != [] {
      SignificantDropsAll(xs[1..]);
    }
  }

  lemma {:induction false} SignificantKeepsProper(xs: seq<string>)
    requires forall i :: 0 <= i < |xs| ==> Proper(xs[i])
    ensures Significant(xs) == xs
    decreases |xs|
  {
    if xs != [] {
      SignificantKeepsProper(xs[1..]);
    }
  }

  /** Processing proper elements keeps the stack normal. */
  lemma {:induction false} ResolveNormal(rooted: bool, stack: seq<string>, rest: seq<string>)
    requires Normal(rooted, stack)
    requires forall x :: x in rest ==> Proper(x)
    ensures Normal(rooted, Resolve(rooted, stack, rest))
    decreases |rest|
  {
    if rest != [] {
      var e := rest[0];
      assert Proper(e);
      var n := |stack|;
      var next :=
        if e != ".." then stack + [e]
        else if stack != [] && stack[n - 1] != ".." then stack[..n - 1]
        else if rooted then stack
        else stack + [".."];
      if e != ".." {
        PushNormal(rooted, stack, e);
      } else if stack != [] && stack[n - 1] != ".." {
        PopNormal(rooted, stack);
      } else if !rooted {
        PushParentNormal(stack);
      }
      assert forall x :: x in rest[1..] ==> x in rest;
      ResolveNormal(rooted, next, rest[1..]);
    }
  }

  lemma PushNormal(rooted: bool, stack: seq<string>, e: string)
    requires Normal(rooted, stack) && Proper(e) && e != ".."
    ensures Normal(rooted, stack + [e])
  {
    var s := stack + [e];
    forall i | 0 <= i < |s| && s[i] == ".."
      ensures !rooted && forall j :: 0 <= j < i ==> s[j] == ".."
    {
      assert i < |stack| && s[i] == stack[i];
      assert forall j :: 0 <= j < i ==> s[j] == stack[j];
    }
  }

  lemma PopNormal(rooted: bool, stack: seq<string>)
    requires Normal(rooted, stack) && stack != []
    ensures Normal(rooted, stack[..|stack| - 1])
  {
  }

  /** An unrooted stack with no element to cancel is all "..", so one more stays normal. */
  lemma PushParentNormal(stack: seq<string>)
    requires Normal(false, stack) && (stack == [] || stack[|stack| - 1] == "..")
    ensures Normal(false, stack + [".."])
  {
    var s := stack + [".."];
    if stack != [] {
      var m := |stack| - 1;
      assert stack[m] == "..";
      assert forall j :: 0 <= j < m ==> stack[j] == "..";
    }
    assert forall j :: 0 <= j < |stack| ==> s[j] == "..";
  }

  /** A normal list of elements goes through processing unchanged. */
  lemma {:induction false} ResolveKeepsNormal(rooted: bool, acc: seq<string>, s: seq<string>)
    requires Normal(rooted, acc + s)
    ensures Resolve(rooted, acc, s) == acc + s
    decreases |s|
  {
    if s != [] {
      var all := acc + s;
      assert all[|acc|] == s[0];
      if s[0] == ".." && acc != [] {
        assert all[|acc| - 1] == acc[|acc| - 1];
      }
      assert (acc + [s[0]]) + s[1..] == all;
      ResolveKeepsNormal(rooted, acc + [s[0]], s[1..]);
    }
  }

  lemma {:induction false} SplitOnlySeparators(p: string)
    requires forall j :: 0 <= j < |p| ==> p[j] == Separator
    ensures Significant(Split(p)) == []
    decreases |p|
  {
    if p != [] {
      SplitOnlySeparators(p[1..]);
    }
  }

  /** A path of separators only cleans to the root. */
  lemma CleanOnlySeparators(p: string)
    requires OnlySeparators(p)
    ensures Clean(p) == [Separator]
  {
    SplitOnlySeparators(p);
  }

  lemma KeptNormal(p: string)
    ensures Normal(|p| > 0 && p[0] == Separator, Kept(p))
  {
    var parts := Split(p);
    var sig := Significant(parts);
    SplitPieces(p);
    forall x | x in sig
      ensures Proper(x)
    {
      assert x in parts;
    }
    ResolveNormal(|p| > 0 && p[0] == Separator, [], sig);
  }

  /** Re-cleaning a rendered root path with a separator added. */
  lemma KeptRenderRooted(s: seq<string>)
    requires Normal(true, s)
    ensures Kept(Render(true, s) + [Separator]) == s
  {
    var c' := Render(true, s) + [Separator];
    if s == [] {
      assert c' == [Separator, Separator];
      KeptRootSeparator();
    } else {
      assert c' == [] + [Separator] + (Join(s) + [Separator] + []);
      SplitAround([], Join(s) + [Separator] + []);
      SplitAround(Join(s), []);
      KeptAroundJoin(s);
      assert Significant(Split(c')) == s;
      ResolveKeepsNormal(true, [], s);
    }
  }

  /** "//" cleans to "/". */
  lemma KeptRootSeparator()
    ensures Kept([Separator, Separator]) == []
  {
    var parts := Split([Separator, Separator]);
    assert [Separator, Separator] == [Separator] + [Separator] && [Separator] == [Separator] + [];
    SplitSeparator([Separator]);
    SplitSeparator([]);
    assert parts == [[], [], []];
    SignificantDropsAll(parts);
  }

  /** The empty pieces on either side of joined proper elements are not significant. */
  lemma KeptAroundJoin(s: seq<string>)
    requires s != [] && Normal(true, s)
    ensures Significant(Split([]) + (Split(Join(s)) + Split([]))) == s
  {
    SplitJoin(s);
    SignificantKeepsProper(s);
    assert Split([]) == [""];
    SignificantAppend([""], s + [""]);
    SignificantAppend(s, [""]);
  }

  /** "./" cleans to ".". */
  lemma KeptDotSeparator()
    ensures Kept("." + [Separator]) == []
  {
    var c' := "." + [Separator];
    assert c' == "." + [Separator] + [];
    SplitAround(".", []);
    SplitNoSeparator(".");
    assert Split([]) == [[]];
    var parts := Split(c');
    assert parts == [".", []];
    SignificantDropsAll(parts);
  }

  /** Joined relative elements with a separator added clean back to themselves. */
  lemma KeptJoinSeparator(s: seq<string>)
    requires s != [] && Normal(false, s)
    ensures |Join(s)| > 0 && Join(s)[0] != Separator
    ensures Kept(Join(s) + [Separator]) == s
  {
    var c' := Join(s) + [Separator];
    assert Proper(s[0]) && s[0][0] in s[0];
    JoinStartsWith(s);
    assert c'[0] != Separator;
    assert c' == Join(s) + [Separator] + [];
    SplitAround(Join(s), []);
    SplitJoin(s);
    SignificantKeepsProper(s);
    assert Split([]) == [[]];
    SignificantAppend(s, [[]]);
    assert Significant(Split(c')) == s;
    ResolveKeepsNormal(false, [], s);
  }

  /** Re-cleaning a rendered relative path with a separator added. */
  lemma KeptRenderRelative(s: seq<string>)
    requires Normal(false, s)
    ensures |Render(false, s)| > 0 && Render(false, s)[0] != Separator
    ensures Kept(Render(false, s) + [Separator]) == s
  {
    if s == [] {
      KeptDotSeparator();
    } else {
      KeptJoinSeparator(s);
    }
  }

  /** A relative path renders as something that does not start with a
      separator. */
  lemma RenderRelativeStart(s: seq<string>)
    ensures Normal(false, s) ==> |Render(false, s)| > 0 && Render(false, s)[0] != Separator
  {
    if Normal(false, s) && s != [] {
      assert Proper(s[0]);
      JoinStartsWith(s);
      assert s[0][0] in s[0];
    }
  }

  /** A separator added to a cleaned path is cleaned away again. */
  lemma CleanTrailingSeparator(p: string)
    ensures Clean(Clean(p) + [Separator]) == Clean(p)
  {
    var rooted := |p| > 0 && p[0] == Separator;
    KeptNormal(p);
    if rooted {
      KeptRenderRooted(Kept(p));
    } else {
      KeptRenderRelative(Kept(p));
    }
  }

  /** Cleaning is idempotent: a cleaned path is already clean. */
  lemma CleanIdempotent(p: string)
    ensures Clean(Clean(p)) == Clean(p)
  {
    var c := Clean(p);
    var t := c + [Separator];
    SplitAround(c, []);
    assert c + [Separator] + [] == t;
    assert Split([]) == [[]] && Significant([[]]) == [];
    SignificantAppend(Split(c), [[]]);
    assert Significant(Split(t)) == Significant(Split(c));
    assert t[0] == c[0];
    assert Kept(t) == Kept(c);
    CleanTrailingSeparator(p);
  }

  /** In `dir + "/" + name` with no separator in `name`, the last separator
      is the one added. */
  lemma LastSeparatorAdded(dir: string, name: string)
    requires Separator !in name
    ensures LastIndexOf(dir + [Separator] + name, Separator) == |dir|
  {
    var out := dir + [Separator] + name;
    var i := LastIndexOf(out, Separator);
    assert out[|dir|] == Separator;
  }

  /** A name placed in a clean directory has that directory as its `Dir`. */
  lemma DirOfFileInCleanDir(c: string, n: string)
    requires Clean(c) == c && Separator !in n
    ensures Dir(c + [Separator] + n) == c
  {
    LastSeparatorAdded(c, n);
    assert (c + [Separator] + n)[..|c| + 1] == c + [Separator];
    CleanTrailingSeparator(c);
  }

  /** Ordinary elements: proper, and not "..". */
  predicate Ordinary(xs: seq<string>) {
    forall i :: 0 <= i < |xs| ==> Proper(xs[i]) && xs[i] != ".."
  }

  /** A relative path of ordinary elements is already clean. */
  lemma CleanKeepsRelative(xs: seq<string>)
    requires xs != [] && Ordinary(xs)
    ensures Clean(Join(xs)) == Join(xs)
  {
    var p := Join(xs);
    assert Proper(xs[0]) && xs[0][0] in xs[0];
    JoinStartsWith(xs);
    assert p[0] != Separator;
    SplitJoin(xs);
    SignificantKeepsProper(xs);
    ResolveKeepsNormal(false, [], xs);
    assert Kept(p) == xs;
    assert Render(false, xs) == p;
  }

  /** A rooted path of ordinary elements is already clean. */
  lemma CleanKeepsRooted(xs: seq<string>)
    requires xs != [] && Ordinary(xs)
    ensures Clean([Separator] + Join(xs)) == [Separator] + Join(xs)
  {
    var p := [Separator] + Join(xs);
    SplitSeparator(Join(xs));
    SplitJoin(xs);
    SignificantKeepsProper(xs);
    SignificantAppend([[]], xs);
    assert Significant([[]]) == [];
    assert Significant(Split(p)) == xs;
    ResolveKeepsNormal(true, [], xs);
    assert Kept(p) == xs;
  }

  /** The directory of a file under ordinary elements is those elements,
      rooted or not: `Dir("a/b/c") == "a/b"` and `Dir("/a/b/c") == "/a/b"`. */
  lemma DirOfOrdinaryPath(xs: seq<string>, n: string)
    requires xs != [] && Ordinary(xs) && Separator !in n
    ensures Dir(Join(xs) + [Separator] + n) == Join(xs)
    ensures Dir([Separator] + Join(xs) + [Separator] + n) == [Separator] + Join(xs)
  {
    CleanKeepsRelative(xs);
    DirOfFileInCleanDir(Join(xs), n);
    CleanKeepsRooted(xs);
    DirOfFileInCleanDir([Separator] + Join(xs), n);
  }

  lemma {:induction false} JoinStartsWith(xs: seq<string>)
    requires xs != [] && xs[0] != []
    ensures Join(xs) != [] && Join(xs)[0] == xs[0][0]
  {
  }
}
