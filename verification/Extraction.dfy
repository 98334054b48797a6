/**
  `_safe_extract`: every member name is resolved against the destination and checked, then the
  members are written one by one. The ZIP library writes below the destination after dropping empty,
  `.` and `..` components, so the path it writes need not be the path that was checked.
 */
module Extraction {
  import opened Wrappers
  import opened Paths
  import opened Trees

  datatype Member = Member(name: string, data: Bytes)

  /** An environment failure while member `at` is written, and what it leaves of that member. */
  datatype WriteFault = NoWriteFault | WriteFault(at: nat, left: Remains)

  /** The first `count` directories on the way, or all of them and a file with the first `keep` bytes. */
  datatype Remains = Directories(count: nat) | Partial(keep: nat)

  datatype Verdict = Extracted | Unsafe | WriteFailed

  datatype Progress = Progress(ok: bool, tree: Tree)

  // ---- the checked path -------------------------------------------------------------------

  /** The path the guard looks at: the name joined to the destination and resolved. */
  function CheckedPath(dest: Path, name: string): Path {
    Resolve(JoinPath(Render(dest), name))
  }

  predicate SafeName(dest: Path, name: string) {
    dest <= CheckedPath(dest, name)
  }

  ghost predicate AllSafe(dest: Path, ms: seq<Member>) {
    forall m | m in ms :: SafeName(dest, m.name)
  }

  // ---- the written path -------------------------------------------------------------------

  /** The components the ZIP library keeps. */
  function Kept(parts: Path): (r: Path)
    ensures |r| <= |parts|
    decreases |parts|
  {
    if parts == [] then []
    else
      (if parts[0] == "" || parts[0] == CURDIR || parts[0] == PARDIR then [] else [parts[0]]) + Kept(parts[1..])
  }

  function WrittenPath(dest: Path, name: string): (p: Path)
    ensures dest <= p
  {
    dest + Kept(Split(name))
  }

  predicate IsDirectory(m: Member) {
    m.name != "" && m.name[|m.name| - 1] == SLASH
  }

  /** Where the last member with this name is, or -1. */
  function LastNamed(ms: seq<Member>, name: string): (k: int)
    ensures -1 <= k < |ms|
    ensures k >= 0 ==> ms[k].name == name
    ensures forall j | k < j < |ms| :: ms[j].name != name
  {
    if ms == [] then -1
    else if ms[|ms| - 1].name == name then |ms| - 1
    else LastNamed(ms[..|ms| - 1], name)
  }

  /** The library looks members up by name, so the data used is that of the last member so named. */
  function DataOf(ms: seq<Member>, name: string): Bytes {
    var k := LastNamed(ms, name);
    if k < 0 then [] else ms[k].data
  }

  /** One write of `extractall`: a directory to make or a file to fill. */
  datatype Write = Write(path: Path, directory: bool, data: Bytes)

  /** The writes `extractall` performs, in order. */
  function Plan(dest: Path, ms: seq<Member>): (ws: seq<Write>)
    ensures |ws| == |ms|
    ensures forall i | 0 <= i < |ms| :: ws[i] == PlannedWrite(dest, ms, ms[i])
  {
    seq(|ms|, i requires 0 <= i < |ms| => PlannedWrite(dest, ms, ms[i]))
  }

  function PlannedWrite(dest: Path, ms: seq<Member>, m: Member): Write {
    Write(WrittenPath(dest, m.name), IsDirectory(m), DataOf(ms, m.name))
  }

  ghost predicate AllBelow(dest: Path, ws: seq<Write>) {
    forall w | w in ws :: dest <= w.path
  }

  // ---- writing ----------------------------------------------------------------------------

  ghost function Placed(t: Tree, w: Write): Option<Tree> {
    if w.directory then MadeDirs(t, w.path) else Wrote(t, w.path, w.data)
  }

  /** The first `count` components of the directories that a write needs. */
  function DirPart(w: Write, count: nat): (p: Path)
    ensures p <= w.path
  {
    var whole := if w.directory || w.path == [] then w.path else Parent(w.path);
    if count < |whole| then whole[..count] else whole
  }

  function Cut(w: Write, keep: nat): Write {
    w.(data := if keep < |w.data| then w.data[..keep] else w.data)
  }

  /** What a fault during a write leaves; an obstacle on the way leaves nothing new. */
  ghost function Interrupted(t: Tree, w: Write, left: Remains): Tree {
    var r := match left
      case Directories(count) => MadeDirs(t, DirPart(w, count))
      case Partial(keep) => Placed(t, Cut(w, keep));
    if r.Some? then r.value else t
  }

  /** The `n`-th write, unless the environment breaks it. */
  ghost function PlaceNth(t: Tree, w: Write, n: nat, fault: WriteFault): Progress {
    if fault.WriteFault? && fault.at == n then Progress(false, Interrupted(t, w, fault.left))
    else
      var r := Placed(t, w);
      if r.Some? then Progress(true, r.value) else Progress(false, t)
  }

  /** The writes performed in order, stopping at the first failure. */
  ghost function PlaceAll(t: Tree, ws: seq<Write>, fault: WriteFault): Progress {
    if ws == [] then Progress(true, t)
    else
      var n := |ws| - 1;
      var before := PlaceAll(t, ws[..n], fault);
      if before.ok then PlaceNth(before.tree, ws[n], n, fault) else before
  }

  ghost function ExtractVerdict(t: Tree, dest: Path, ms: seq<Member>, fault: WriteFault): Verdict {
    if !AllSafe(dest, ms) then Unsafe
    else if PlaceAll(t, Plan(dest, ms), fault).ok then Extracted
    else WriteFailed
  }

  ghost function ExtractTree(t: Tree, dest: Path, ms: seq<Member>, fault: WriteFault): Tree {
    if !AllSafe(dest, ms) then t else PlaceAll(t, Plan(dest, ms), fault).tree
  }

  // ---- imperative form --------------------------------------------------------------------

  method CheckMember(dest: Path, name: string) returns (safe: bool)
    requires Clean(dest)
    ensures safe == SafeName(dest, name)
  {
    var text := Render(dest);
    var root := ResolvePath(text);
    var target := ResolvePath(JoinPath(text, name));
    var common := CommonPath(Render(root), Render(target));
    safe := common == Render(root);
    ResolveRender(dest);
    ResolveIdempotent(JoinPath(text, name));
    GuardDecidesContainment(dest, target);
  }

  method Place(fs: FileTree, w: Write) returns (ok: bool)
    requires fs.Valid()
    modifies fs
    ensures fs.Valid()
    ensures ok == Placed(old(fs.nodes), w).Some?
    ensures fs.nodes == if ok then Placed(old(fs.nodes), w).value else old(fs.nodes)
  {
    if w.directory {
      ok := fs.MakeDirs(w.path);
    } else {
      ok := fs.WriteFile(w.path, w.data);
    }
  }

  /** The guard loop: it reads the names only, before anything is written. */
  method CheckAll(dest: Path, ms: seq<Member>) returns (safe: bool)
    requires Clean(dest)
    ensures safe == AllSafe(dest, ms)
  {
    for i := 0 to |ms|
      invariant forall j | 0 <= j < i :: SafeName(dest, ms[j].name)
    {
      safe := CheckMember(dest, ms[i].name);
      if !safe {
        return false;
      }
    }
    return true;
  }

  method WriteMember(fs: FileTree, w: Write, n: nat, fault: WriteFault) returns (ok: bool)
    requires fs.Valid()
    modifies fs
    ensures fs.Valid()
    ensures Progress(ok, fs.nodes) == PlaceNth(old(fs.nodes), w, n, fault)
  {
    if fault.WriteFault? && fault.at == n {
      match fault.left {
        case Directories(count) => var _ := fs.MakeDirs(DirPart(w, count));
        case Partial(keep) => var _ := Place(fs, Cut(w, keep));
      }
      ok := false;
    } else {
      ok := Place(fs, w);
    }
  }

  /** The writing loop: one write after another, up to the first failure. */
  method WriteAll(fs: FileTree, ws: seq<Write>, fault: WriteFault) returns (ok: bool)
    requires fs.Valid()
    modifies fs
    ensures fs.Valid()
    ensures PlaceAll(old(fs.nodes), ws, fault) == Progress(ok, fs.nodes)
  {
    ghost var t := fs.nodes;
    var i := 0;
    ok := true;
    while i < |ws| && ok
      invariant fs.Valid() && i <= |ws|
      invariant PlaceAll(t, ws[..i], fault) == Progress(ok, fs.nodes)
    {
      PlaceOneMore(t, ws, i, fault);
      ok := WriteMember(fs, ws[i], i, fault);
      i := i + 1;
    }
    if ok {
      assert ws[..i] == ws;
    } else {
      FailureStays(t, ws, fault, i);
    }
  }

  lemma PlaceOneMore(t: Tree, ws: seq<Write>, i: nat, fault: WriteFault)
    requires i < |ws| && PlaceAll(t, ws[..i], fault).ok
    ensures PlaceAll(t, ws[..i + 1], fault) == PlaceNth(PlaceAll(t, ws[..i], fault).tree, ws[i], i, fault)
  {
    assert ws[..i + 1][..i] == ws[..i];
  }

  method SafeExtract(fs: FileTree, dest: Path, ms: seq<Member>, fault: WriteFault) returns (v: Verdict)
    requires fs.Valid() && Clean(dest)
    modifies fs
    ensures fs.Valid()
    ensures v == ExtractVerdict(old(fs.nodes), dest, ms, fault)
    ensures fs.nodes == ExtractTree(old(fs.nodes), dest, ms, fault)
  {
    var safe := CheckAll(dest, ms);
    if !safe {
      return Unsafe;
    }
    var ok := WriteAll(fs, Plan(dest, ms), fault);
    v := if ok then Extracted else WriteFailed;
  }

  lemma {:induction false} FailureStays(t: Tree, ws: seq<Write>, fault: WriteFault, k: nat)
    requires k <= |ws| && !PlaceAll(t, ws[..k], fault).ok
    ensures PlaceAll(t, ws, fault) == PlaceAll(t, ws[..k], fault)
    decreases |ws|
  {
    if k < |ws| {
      assert ws[..|ws| - 1][..k] == ws[..k];
      FailureStays(t, ws[..|ws| - 1], fault, k);
    } else {
      assert ws[..k] == ws;
    }
  }

  // ---- what a name stands for -------------------------------------------------------------

  /** The library drops the components that are empty, `.` or `..`, and keeps the others in their order. */
  lemma {:induction false} KeptIs(a: Path, b: Path, name: string)
    ensures Kept(a + b) == Kept(a) + Kept(b)
    ensures Kept([name]) == if name in ["", ".", ".."] then [] else [name]
    decreases |a|
  {
    assert [name][1..] == [];
    if a == [] {
      assert a + b == b;
    } else {
      assert (a + b)[1..] == a[1..] + b;
      KeptIs(a[1..], b, name);
    }
  }

  lemma {:induction false} LastPart(s: string)
    ensures Last(Split(s)) == "" <==> s == "" || s[|s| - 1] == SLASH
    decreases |s|
  {
    var k := HeadLength(s);
    if k < |s| {
      var rest := s[k + 1..];
      LastPart(rest);
      assert Last(Split(s)) == Last(Split(rest));
    } else if s != "" {
      assert s[|s| - 1] in s[..k];
    }
  }

  /** A member is a directory exactly when its name ends in an empty component, that is, in a slash. */
  lemma DirectoryNames(m: Member)
    ensures IsDirectory(m) <==> m.name != "" && Last(Split(m.name)) == ""
  {
    LastPart(m.name);
  }

  // ---- checked against written ------------------------------------------------------------

  ghost predicate Relative(name: string) {
    name == "" || name[0] != SLASH
  }

  /** Without `..` a walk keeps exactly the components the ZIP library keeps. */
  lemma {:induction false} WalkWithoutParents(stack: Path, parts: Path)
    requires PARDIR !in parts
    ensures Walk(stack, parts) == stack + Kept(parts)
    decreases |parts|
  {
    if parts == [] {
    } else {
      assert parts[0] != PARDIR && PARDIR !in parts[1..];
      WalkWithoutParents(Push(stack, parts[0]), parts[1..]);
      Associate(stack, [parts[0]], Kept(parts[1..]));
    }
  }

  /** A walk never ends up longer than what it started from plus what the library keeps. */
  lemma {:induction false} WalkNoLonger(stack: Path, parts: Path)
    ensures |Walk(stack, parts)| <= |stack| + |Kept(parts)|
    ensures PARDIR in parts && stack != [] ==> |Walk(stack, parts)| < |stack| + |Kept(parts)|
    decreases |parts|
  {
    if parts == [] {
    } else {
      WalkNoLonger(Push(stack, parts[0]), parts[1..]);
      if PARDIR in parts && parts[0] != PARDIR {
        assert PARDIR in parts[1..];
      }
    }
  }

  /**
    The path the guard checks is the path that is written exactly when the member name is relative
    and has no `..` component; in every other case the two differ.
   */
  lemma CheckedEqualsWritten(dest: Path, name: string)
    requires Clean(dest) && dest != []
    ensures CheckedPath(dest, name) == WrittenPath(dest, name)
       <==> Relative(name) && PARDIR !in Split(name)
  {
    ResolveJoined(dest, name);
    if !Relative(name) {
      WalkNoLonger([], Split(name));
    } else if PARDIR in Split(name) {
      WalkNoLonger(dest, Split(name));
    } else {
      WalkWithoutParents(dest, Split(name));
    }
  }

  /** A name that steps into a directory and out again: it is accepted, checked at one path and written at another. */
  lemma CheckedCanDiffer(dest: Path, a: string, b: string)
    requires Clean(dest) && dest != [] && CleanName(a) && CleanName(b)
    ensures var name := a + [SLASH] + PARDIR + [SLASH] + b;
      SafeName(dest, name) && CheckedPath(dest, name) == dest + [b] && WrittenPath(dest, name) == dest + [a, b]
  {
    var name := a + [SLASH] + PARDIR + [SLASH] + b;
    HeadLengthUnique(PARDIR, 2);
    SplitOfThree(a, PARDIR, b);
    assert name[0] == a[0] && a[0] in a;
    ResolveJoined(dest, name);
    WalkOutAgain(dest, a, b);
    assert Kept([a, PARDIR, b]) == [a, b] by { KeptOutAgain(a, b); }
  }

  lemma SplitOfThree(a: string, m: string, b: string)
    requires SLASH !in a && SLASH !in m && SLASH !in b
    ensures Split(a + [SLASH] + m + [SLASH] + b) == [a, m, b]
  {
    HeadLengthUnique(a, |a|);
    HeadLengthUnique(m, |m|);
    HeadLengthUnique(b, |b|);
    SplitAt(a + [SLASH] + m, b);
    SplitAt(a, m);
  }

  lemma WalkOutAgain(stack: Path, a: string, b: string)
    requires CleanName(a) && CleanName(b)
    ensures Walk(stack, [a, PARDIR, b]) == stack + [b]
  {
    assert [a, PARDIR, b][1..] == [PARDIR, b] && [PARDIR, b][1..] == [b] && [b][1..] == [];
    assert (stack + [a])[..|stack|] == stack;
    assert Walk(stack + [a], [PARDIR, b]) == Walk(stack, [b]);
  }

  lemma KeptOutAgain(a: string, b: string)
    requires CleanName(a) && CleanName(b)
    ensures Kept([a, PARDIR, b]) == [a, b]
  {
    assert [a, PARDIR, b][1..] == [PARDIR, b] && [PARDIR, b][1..] == [b] && [b][1..] == [];
    assert Kept([b]) == [b];
    assert Kept([PARDIR, b]) == [b];
  }

  // ---- containment ------------------------------------------------------------------------

  /** Making directories on the way to something at or below `dest` makes none outside it. */
  lemma DirsContained(t: Tree, dest: Path, p: Path, path: Path)
    requires WellFormed(t) && IsDir(t, dest) && dest <= path && p <= path && Passable(t, p)
    ensures SameOutside(t, WithDirs(t, p), dest)
    ensures WellFormed(WithDirs(t, p)) && IsDir(WithDirs(t, p), dest)
  {
    WithDirsWellFormed(t, p);
    forall q | q in Prefixes(p) && !(dest <= q) ensures q in t {
      assert q <= path && q <= dest;
      AncestorIsDir(t, dest, q);
    }
  }

  lemma PlacedContained(t: Tree, dest: Path, w: Write)
    requires WellFormed(t) && IsDir(t, dest) && dest <= w.path && Placed(t, w).Some?
    ensures SameOutside(t, Placed(t, w).value, dest)
    ensures WellFormed(Placed(t, w).value) && IsDir(Placed(t, w).value, dest)
  {
    if w.directory {
      DirsContained(t, dest, w.path, w.path);
    } else {
      WroteWellFormed(t, w.path, w.data);
      DirsContained(t, dest, Parent(w.path), w.path);
    }
  }

  /** However a write goes, it is contained. */
  lemma StepContained(t: Tree, dest: Path, w: Write, n: nat, fault: WriteFault)
    requires WellFormed(t) && IsDir(t, dest) && dest <= w.path
    ensures var u := PlaceNth(t, w, n, fault).tree; SameOutside(t, u, dest) && WellFormed(u) && IsDir(u, dest)
  {
    if fault.WriteFault? && fault.at == n {
      match fault.left {
        case Directories(count) =>
          if Passable(t, DirPart(w, count)) { DirsContained(t, dest, DirPart(w, count), w.path); }
        case Partial(keep) =>
          if Placed(t, Cut(w, keep)).Some? { PlacedContained(t, dest, Cut(w, keep)); }
      }
    } else if Placed(t, w).Some? {
      PlacedContained(t, dest, w);
    }
  }

  /** Whatever the writes and wherever they stop, nothing outside the destination changes. */
  lemma {:induction false} PlaceAllContained(t: Tree, dest: Path, ws: seq<Write>, fault: WriteFault)
    requires WellFormed(t) && IsDir(t, dest) && AllBelow(dest, ws)
    ensures SameOutside(t, PlaceAll(t, ws, fault).tree, dest)
    ensures WellFormed(PlaceAll(t, ws, fault).tree) && IsDir(PlaceAll(t, ws, fault).tree, dest)
  {
    if ws == [] {
    } else {
      var n := |ws| - 1;
      PlaceAllContained(t, dest, ws[..n], fault);
      var before := PlaceAll(t, ws[..n], fault);
      if before.ok { StepContained(before.tree, dest, ws[n], n, fault); }
    }
  }

  lemma DirsElsewhere(t: Tree, p: Path, g: Path, n: Node)
    requires !(g <= p)
    ensures Passable(t[g := n], p) <==> Passable(t, p)
    ensures WithDirs(t[g := n], p) == WithDirs(t, p)[g := n]
  {
    assert g !in Prefixes(p);
  }

  lemma SwapUpdates(t: Tree, p: Path, m: Node, q: Path, n: Node)
    requires p != q
    ensures t[p := m][q := n] == t[q := n][p := m]
  {
  }

  /** Writes that do not go through `g` and what stands at `g` do not depend on each other. */
  lemma PlacedElsewhere(t: Tree, w: Write, g: Path, n: Node)
    requires !(g <= w.path)
    ensures Placed(t[g := n], w).Some? <==> Placed(t, w).Some?
    ensures Placed(t, w).Some? ==> Placed(t[g := n], w).value == Placed(t, w).value[g := n]
  {
    if w.directory {
      DirsElsewhere(t, w.path, g, n);
    } else if w.path != [] {
      assert Parent(w.path) <= w.path && g != w.path;
      DirsElsewhere(t, Parent(w.path), g, n);
      SwapUpdates(WithDirs(t, Parent(w.path)), g, n, w.path, File(w.data));
    }
  }

  lemma {:induction false} PlaceAllElsewhere(t: Tree, ws: seq<Write>, g: Path, n: Node)
    requires forall w | w in ws :: !(g <= w.path)
    ensures PlaceAll(t[g := n], ws, NoWriteFault)
         == Progress(PlaceAll(t, ws, NoWriteFault).ok, PlaceAll(t, ws, NoWriteFault).tree[g := n])
  {
    if ws == [] {
    } else {
      var most, w := ws[..|ws| - 1], ws[|ws| - 1];
      PlaceAllElsewhere(t, most, g, n);
      PlacedElsewhere(PlaceAll(t, most, NoWriteFault).tree, w, g, n);
    }
  }

  /**
    Atomic rejection and containment: an unsafe member anywhere in the archive leaves the tree as it
    was, and on every other outcome, a failure part-way included, every path outside the destination
    is unchanged.
   */
  lemma ExtractContained(t: Tree, dest: Path, ms: seq<Member>, fault: WriteFault)
    requires WellFormed(t) && IsDir(t, dest)
    ensures !AllSafe(dest, ms) ==>
      ExtractVerdict(t, dest, ms, fault).Unsafe? && ExtractTree(t, dest, ms, fault) == t
    ensures SameOutside(t, ExtractTree(t, dest, ms, fault), dest)
    ensures WellFormed(ExtractTree(t, dest, ms, fault)) && IsDir(ExtractTree(t, dest, ms, fault), dest)
  {
    PlaceAllContained(t, dest, Plan(dest, ms), fault);
  }
}
