/**
  Absolute POSIX paths, as text and as sequences of components.

  `Resolve` is the lexical part of `Path.resolve()`: a pass over the components with a stack.
  `CommonPath` is `os.path.commonpath` for two absolute paths. No symbolic links are modelled,
  so lexical resolution is the whole of resolution.
 */
module Paths {
  type Path = seq<string>

  const SLASH := '/'
  const CURDIR := "."
  const PARDIR := ".."

  /** A name that can stand as one component of a resolved path. */
  predicate CleanName(name: string) {
    name != "" && name != CURDIR && name != PARDIR && SLASH !in name
  }

  predicate Clean(p: Path) {
    forall c | c in p :: CleanName(c)
  }

  /** The text of a resolved absolute path: `str(path)`. */
  function Render(p: Path): string {
    [SLASH] + Join(p)
  }

  function Join(p: Path): string {
    if |p| == 0 then "" else if |p| == 1 then p[0] else p[0] + [SLASH] + Join(p[1..])
  }

  /** Length of the first component, up to the first slash or the end. */
  function HeadLength(s: string): (k: nat)
    ensures k <= |s|
    ensures SLASH !in s[..k]
    ensures k < |s| ==> s[k] == SLASH
  {
    if s == "" || s[0] == SLASH then 0
    else
      var k := 1 + HeadLength(s[1..]);
      assert s[..k] == [s[0]] + s[1..][..k - 1];
      k
  }

  /** `s.split("/")`: never empty, and empty components are kept. */
  function Split(s: string): (parts: Path)
    ensures |parts| > 0
    ensures forall c | c in parts :: SLASH !in c
    decreases |s|
  {
    var k := HeadLength(s);
    if k == |s| then [s] else [s[..k]] + Split(s[k + 1..])
  }

  /** One component of `resolve()`: empty and `.` are dropped, `..` pops and stops at the root. */
  function Push(stack: Path, name: string): Path {
    if name == "" || name == CURDIR then stack
    else if name == PARDIR then (if stack == [] then [] else stack[..|stack| - 1])
    else stack + [name]
  }

  function Walk(stack: Path, parts: Path): Path
    decreases |parts|
  {
    if parts == [] then stack else Walk(Push(stack, parts[0]), parts[1..])
  }

  function Resolve(text: string): Path {
    Walk([], Split(text))
  }

  /** `destination / name`: an absolute right operand replaces the left one. */
  function JoinPath(dest: string, name: string): string {
    if name != "" && name[0] == SLASH then name else dest + [SLASH] + name
  }

  /** The components `commonpath` compares: empty and `.` ones are filtered out. */
  function Comparable(parts: Path): Path
    decreases |parts|
  {
    if parts == [] then []
    else (if parts[0] == "" || parts[0] == CURDIR then [] else [parts[0]]) + Comparable(parts[1..])
  }

  function CommonPrefix(a: Path, b: Path): (r: Path)
    ensures r <= a && r <= b
    ensures |r| < |a| && |r| < |b| ==> a[|r|] != b[|r|]
  {
    if a == [] || b == [] || a[0] != b[0] then []
    else
      var r := [a[0]] + CommonPrefix(a[1..], b[1..]);
      assert a == [a[0]] + a[1..] && b == [b[0]] + b[1..];
      r
  }

  // ---- imperative forms -------------------------------------------------------------------

  /** `Path(text).resolve()` for an absolute text: a loop over the components with a stack. */
  method ResolvePath(text: string) returns (stack: Path)
    ensures stack == Resolve(text)
  {
    var parts := Split(text);
    stack := [];
    for i := 0 to |parts|
      invariant Walk(stack, parts[i..]) == Resolve(text)
    {
      assert parts[i..][0] == parts[i] && parts[i..][1..] == parts[i + 1..];
      var name := parts[i];
      if name == PARDIR {
        if stack != [] {
          stack := stack[..|stack| - 1];
        }
      } else if name != "" && name != CURDIR {
        stack := stack + [name];
      }
    }
  }

  /** Python's order on strings: by the first differing character, a proper prefix first. */
  predicate TextLess(a: string, b: string) {
    b != "" && (a == "" || a[0] < b[0] || (a[0] == b[0] && TextLess(a[1..], b[1..])))
  }

  /** Python's order on lists of strings. */
  predicate PathLess(a: Path, b: Path) {
    b != [] && (a == [] || TextLess(a[0], b[0]) || (a[0] == b[0] && PathLess(a[1..], b[1..])))
  }

  lemma {:induction false} TextLessIrreflexive(a: string)
    ensures !TextLess(a, a)
  {
    if a != "" { TextLessIrreflexive(a[1..]); }
  }

  /** The larger of two lists is never a proper prefix of the smaller: the index in the loop is safe. */
  lemma {:induction false} LargerIsNoProperPrefix(small: Path, large: Path)
    requires !PathLess(large, small)
    ensures !(large < small)
  {
    if large < small && large != [] {
      assert small[0] == large[0] && large[1..] < small[1..];
      TextLessIrreflexive(small[0]);
      LargerIsNoProperPrefix(small[1..], large[1..]);
    }
  }

  lemma IndexIsSafe(small: Path, large: Path, i: nat)
    requires !PathLess(large, small) && i <= |small| && i <= |large|
    requires forall j | 0 <= j < i :: small[j] == large[j]
    ensures i < |small| ==> i < |large|
  {
    LargerIsNoProperPrefix(small, large);
    if i == |large| {
      assert large == small[..i];
    }
  }

  lemma {:induction false} PathLessAsymmetric(a: Path, b: Path)
    requires PathLess(a, b)
    ensures !PathLess(b, a)
  {
    if a != [] {
      if TextLess(a[0], b[0]) {
        TextLessAsymmetric(a[0], b[0]);
        TextLessIrreflexive(a[0]);
      } else {
        PathLessAsymmetric(a[1..], b[1..]);
      }
    }
  }

  lemma {:induction false} TextLessAsymmetric(a: string, b: string)
    requires TextLess(a, b)
    ensures !TextLess(b, a)
  {
    if a != "" && a[0] == b[0] { TextLessAsymmetric(a[1..], b[1..]); }
  }

  /** `os.path.commonpath([a, b])` for absolute texts: smallest and largest list, first difference. */
  method CommonPath(a: string, b: string) returns (common: string)
    ensures common == Render(CommonPrefix(Comparable(Split(a)), Comparable(Split(b))))
  {
    var ca, cb := Comparable(Split(a)), Comparable(Split(b));
    var s1, s2 := ca, cb;
    if PathLess(cb, ca) {
      PathLessAsymmetric(cb, ca);
      s1, s2 := cb, ca;
    }
    IndexIsSafe(s1, s2, 0);
    var i := 0;
    while i < |s1| && s1[i] == s2[i]
      invariant i <= |s1| && i <= |s2|
      invariant i < |s1| ==> i < |s2|
      invariant forall j | 0 <= j < i :: s1[j] == s2[j]
    {
      i := i + 1;
      IndexIsSafe(s1, s2, i);
    }
    assert s1[..i] == s2[..i];
    CommonPrefixIs(s1, s2, i);
    CommonPrefixIs(s2, s1, i);
    common := Render(s1[..i]);
  }

  lemma CommonPrefixIs(a: Path, b: Path, i: nat)
    requires i <= |a| && i <= |b| && a[..i] == b[..i]
    requires i < |a| && i < |b| ==> a[i] != b[i]
    ensures CommonPrefix(a, b) == a[..i]
  {
    var r := CommonPrefix(a, b);
    assert forall j | 0 <= j < i :: a[j] == a[..i][j] == b[..i][j] == b[j];
    assert forall j | 0 <= j < |r| :: a[j] == r[j] == b[j];
  }

  // ---- properties -------------------------------------------------------------------------

  lemma {:induction false} SplitAt(a: string, b: string)
    ensures Split(a + [SLASH] + b) == Split(a) + Split(b)
    decreases |a|
  {
    var s := a + [SLASH] + b;
    var k := HeadLength(a);
    HeadLengthUnique(s, k);
    assert s[..k] == a[..k];
    if k == |a| {
      assert a[..k] == a && s[k + 1..] == b;
    } else {
      assert s[k + 1..] == a[k + 1..] + [SLASH] + b;
      SplitAt(a[k + 1..], b);
    }
  }

  lemma HeadLengthUnique(s: string, k: nat)
    requires if k < |s| then s[k] == SLASH && SLASH !in s[..k] else k == |s| && SLASH !in s
    ensures HeadLength(s) == k
  {
    var h := HeadLength(s);
    assert forall j | 0 <= j < k :: s[..k][j] != SLASH;
    assert forall j | 0 <= j < h :: s[..h][j] != SLASH;
  }

  /** Slash-free components come back from the joined text. */
  lemma {:induction false} SplitJoin(p: Path)
    requires p != [] && forall c | c in p :: SLASH !in c
    ensures Split(Join(p)) == p
  {
    HeadLengthUnique(p[0], |p[0]|);
    if |p| == 1 {
    } else {
      SplitJoin(p[1..]);
      SplitAt(p[0], Join(p[1..]));
      assert Split(p[0]) == [p[0]];
    }
  }

  lemma {:induction false} WalkAppend(stack: Path, a: Path, b: Path)
    ensures Walk(stack, a + b) == Walk(Walk(stack, a), b)
    decreases |a|
  {
    if a == [] {
      assert a + b == b;
    } else {
      assert (a + b)[0] == a[0] && (a + b)[1..] == a[1..] + b;
      WalkAppend(Push(stack, a[0]), a[1..], b);
    }
  }

  lemma {:induction false} WalkClean(stack: Path, p: Path)
    requires Clean(p)
    ensures Walk(stack, p) == stack + p
    decreases |p|
  {
    if p == [] {
    } else {
      assert CleanName(p[0]);
      WalkClean(stack + [p[0]], p[1..]);
      assert stack + [p[0]] + p[1..] == stack + p;
    }
  }

  lemma {:induction false} WalkStaysClean(stack: Path, parts: Path)
    requires Clean(stack) && forall c | c in parts :: SLASH !in c
    ensures Clean(Walk(stack, parts))
    decreases |parts|
  {
    if parts == [] {
    } else {
      WalkStaysClean(Push(stack, parts[0]), parts[1..]);
    }
  }

  lemma SplitRender(p: Path)
    requires Clean(p)
    ensures Split(Render(p)) == [""] + (if p == [] then [""] else p)
  {
    HeadLengthUnique("", 0);
    assert Split("") == [""];
    SplitAt("", Join(p));
    assert "" + [SLASH] + Join(p) == Render(p);
    if p != [] { SplitJoin(p); }
  }

  lemma {:induction false} ComparableClean(p: Path)
    requires Clean(p)
    ensures Comparable(p) == p
  {
    if p == [] {
    } else {
      assert CleanName(p[0]);
      ComparableClean(p[1..]);
      assert p == [p[0]] + p[1..];
    }
  }

  lemma ComparableRender(p: Path)
    requires Clean(p)
    ensures Comparable(Split(Render(p))) == p
  {
    SplitRender(p);
    ComparableClean(p);
    if p == [] {
      assert Split(Render(p)) == ["", ""];
    } else {
      assert Split(Render(p))[1..] == p;
    }
  }

  /** Rendering a clean path and resolving the text gives the path back. */
  lemma ResolveRender(p: Path)
    requires Clean(p)
    ensures Resolve(Render(p)) == p
  {
    SplitRender(p);
    if p == [] {
      assert Walk([], ["", ""]) == Walk([], [""]) == [];
    } else {
      WalkAppend([], [""], p);
      WalkClean([], p);
      assert Walk([], [""]) == [];
      assert [] + p == p;
    }
  }

  /** Resolution is idempotent, whatever the text. */
  lemma ResolveIdempotent(text: string)
    ensures Clean(Resolve(text))
    ensures Resolve(Render(Resolve(text))) == Resolve(text)
  {
    WalkStaysClean([], Split(text));
    ResolveRender(Resolve(text));
  }

  /** Distinct clean paths have distinct texts. */
  lemma RenderInjective(p: Path, q: Path)
    requires Clean(p) && Clean(q)
    ensures Render(p) == Render(q) <==> p == q
  {
    ComparableRender(p);
    ComparableRender(q);
  }

  /** Resolving `dest / name` walks the member name from `dest`, or from the root if it is absolute. */
  lemma ResolveJoined(dest: Path, name: string)
    requires Clean(dest)
    ensures Resolve(JoinPath(Render(dest), name))
         == Walk(if name != "" && name[0] == SLASH then [] else dest, Split(name))
  {
    if !(name != "" && name[0] == SLASH) {
      SplitAt(Render(dest), name);
      WalkAppend([], Split(Render(dest)), Split(name));
      ResolveRender(dest);
    }
  }

  /**
    The guard's string comparison decides containment: the text of the common path equals the text
    of the destination exactly when the destination's components are a prefix of the target's. So a
    sibling such as `/tmp/artifact-2` is told apart from something below `/tmp/artifact`.
   */
  lemma GuardDecidesContainment(dest: Path, target: Path)
    requires Clean(dest) && Clean(target)
    ensures Render(CommonPrefix(Comparable(Split(Render(dest))), Comparable(Split(Render(target))))) == Render(dest)
       <==> dest <= target
  {
    ComparableRender(dest);
    ComparableRender(target);
    var r := CommonPrefix(dest, target);
    assert forall c | c in r :: c in dest;
    RenderInjective(r, dest);
  }
}
