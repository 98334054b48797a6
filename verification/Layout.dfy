/**
  What extraction into an empty directory produces, stated without the order of the writes: which
  archives extract at all, which paths exist afterwards and what they hold, and what the search for
  an evidence file then finds.
 */
module Layout {
  import opened Paths
  import opened Trees
  import opened Extraction

  predicate WritesFile(w: Write, p: Path) {
    !w.directory && w.path == p
  }

  /** Where the last write to the file `p` is, or -1. */
  function LastWriter(ws: seq<Write>, p: Path): (k: int)
    ensures -1 <= k < |ws|
    ensures k >= 0 ==> WritesFile(ws[k], p)
    ensures forall j | k < j < |ws| :: !WritesFile(ws[j], p)
  {
    if ws == [] then -1
    else if WritesFile(ws[|ws| - 1], p) then |ws| - 1
    else LastWriter(ws[..|ws| - 1], p)
  }

  function NodeAt(ws: seq<Write>, p: Path): Node {
    var k := LastWriter(ws, p);
    if k >= 0 then File(ws[k].data) else Dir
  }

  /** Every path below the destination that some write fills or needs as a directory. */
  function Touched(dest: Path, ws: seq<Write>): set<Path> {
    set w, q | w in ws && q in Prefixes(w.path) && dest < q :: q
  }

  function Laid(t: Tree, dest: Path, ws: seq<Write>): Tree {
    t + map q | q in Touched(dest, ws) :: NodeAt(ws, q)
  }

  /** `a` is a file where the destination, a directory leading to `b`, or the directory `b` must be. */
  predicate Clash(dest: Path, a: Write, b: Write) {
    !a.directory && (a.path == dest || a.path < b.path || (a.path == b.path && b.directory))
  }

  ghost predicate ConflictFree(dest: Path, ws: seq<Write>) {
    forall a, b | a in ws && b in ws :: !Clash(dest, a, b)
  }

  /** The destination is an existing empty directory. */
  ghost predicate EmptyDir(t: Tree, dest: Path) {
    WellFormed(t) && IsDir(t, dest) && forall p | p in t :: !(dest < p)
  }

  lemma TouchedAt(dest: Path, ws: seq<Write>, q: Path)
    ensures q in Touched(dest, ws) <==> dest < q && exists w | w in ws :: q <= w.path
  {
    if dest < q && exists w | w in ws :: q <= w.path {
      var w :| w in ws && q <= w.path;
      assert q in Prefixes(w.path);
    }
  }

  /** In the laid-out tree a path below the destination is a file exactly when some write fills it. */
  lemma LaidAt(t: Tree, dest: Path, ws: seq<Write>, q: Path)
    requires EmptyDir(t, dest)
    ensures dest < q ==> (q in Laid(t, dest, ws) <==> q in Touched(dest, ws))
    ensures dest < q && q in Touched(dest, ws) ==> Laid(t, dest, ws)[q] == NodeAt(ws, q)
    ensures !(dest < q) ==> (q in Laid(t, dest, ws) <==> q in t) && (q in t ==> Laid(t, dest, ws)[q] == t[q])
    ensures q <= dest ==> IsDir(Laid(t, dest, ws), q)
    ensures NodeAt(ws, q).File? <==> exists a | a in ws :: WritesFile(a, q)
    ensures NodeAt(ws, q).File? && dest < q ==> q in Touched(dest, ws)
  {
    TouchedAt(dest, ws, q);
    if q <= dest && q != dest { AncestorIsDir(t, dest, q); }
    var k := LastWriter(ws, q);
    if k >= 0 {
      assert ws[k] in ws;
    }
  }

  /** Making the directories up to `p` works exactly when no file is on the way. */
  lemma LaidPassable(t: Tree, dest: Path, ws: seq<Write>, p: Path)
    requires EmptyDir(t, dest) && dest <= p && AllBelow(dest, ws) && ConflictFree(dest, ws)
    ensures Passable(Laid(t, dest, ws), p) <==> forall a | a in ws && !a.directory :: !(a.path <= p)
  {
    var u := Laid(t, dest, ws);
    if Passable(u, p) {
      forall a | a in ws && !a.directory ensures !(a.path <= p) {
        assert !Clash(dest, a, a);
        LaidAt(t, dest, ws, a.path);
        assert WritesFile(a, a.path);
        assert a.path in Prefixes(p) <==> a.path <= p;
      }
    } else {
      var q :| q in Prefixes(p) && q in u && !u[q].Dir?;
      LaidAt(t, dest, ws, q);
      assert q <= dest || dest < q;
      var a :| a in ws && WritesFile(a, q);
    }
  }

  lemma PlaceDirectory(t: Tree, dest: Path, ws: seq<Write>, w: Write)
    requires EmptyDir(t, dest) && AllBelow(dest, ws + [w]) && ConflictFree(dest, ws) && w.directory
    ensures Placed(Laid(t, dest, ws), w).Some? <==> ConflictFree(dest, ws + [w])
  {
    assert w in ws + [w];
    LaidPassable(t, dest, ws, w.path);
    if Placed(Laid(t, dest, ws), w).Some? {
      forall a, b | a in ws + [w] && b in ws + [w] ensures !Clash(dest, a, b) {
        if a in ws {
          assert !Clash(dest, a, a);
          if b in ws { assert !Clash(dest, a, b); }
        }
      }
    } else {
      var a :| a in ws && !a.directory && a.path <= w.path;
      assert a in ws + [w] && Clash(dest, a, w);
    }
  }

  lemma PlaceFile(t: Tree, dest: Path, ws: seq<Write>, w: Write)
    requires EmptyDir(t, dest) && AllBelow(dest, ws + [w]) && ConflictFree(dest, ws) && !w.directory
    ensures Placed(Laid(t, dest, ws), w).Some? ==> ConflictFree(dest, ws + [w])
  {
    if Placed(Laid(t, dest, ws), w).Some? {
      assert w in ws + [w];
      LaidAt(t, dest, ws, w.path);
      LaidPassable(t, dest, ws, Parent(w.path));
      forall a, b | a in ws + [w] && b in ws + [w] ensures !Clash(dest, a, b) {
        FileFits(t, dest, ws, w, a, b);
      }
    }
  }

  lemma FileFits(t: Tree, dest: Path, ws: seq<Write>, w: Write, a: Write, b: Write)
    requires EmptyDir(t, dest) && AllBelow(dest, ws) && dest < w.path && ConflictFree(dest, ws) && !w.directory
    requires Placed(Laid(t, dest, ws), w).Some?
    requires a in ws + [w] && b in ws + [w]
    ensures !Clash(dest, a, b)
  {
    LaidPassable(t, dest, ws, Parent(w.path));
    LaidAt(t, dest, ws, w.path);
    if a in ws {
      assert !Clash(dest, a, a);
      if b in ws {
        assert !Clash(dest, a, b);
      } else {
        assert a.path < w.path ==> a.path <= Parent(w.path);
      }
    } else if b in ws && w.path <= b.path {
      TouchedAt(dest, ws, w.path);
      var c :| c in ws && WritesFile(c, w.path);
      assert !Clash(dest, c, b);
    }
  }

  lemma FileBlocked(t: Tree, dest: Path, ws: seq<Write>, w: Write)
    requires EmptyDir(t, dest) && AllBelow(dest, ws + [w]) && ConflictFree(dest, ws) && !w.directory
    requires Placed(Laid(t, dest, ws), w).None?
    ensures !ConflictFree(dest, ws + [w])
  {
    var u := Laid(t, dest, ws);
    assert w in ws + [w] && dest <= w.path;
    if w.path == dest {
      assert Clash(dest, w, w);
    } else {
      LaidPassable(t, dest, ws, Parent(w.path));
      if !Passable(u, Parent(w.path)) {
        var a :| a in ws && !a.directory && a.path <= Parent(w.path);
        assert a in ws + [w] && Clash(dest, a, w);
      } else {
        LaidAt(t, dest, ws, w.path);
        TouchedAt(dest, ws, w.path);
        var b :| b in ws && w.path <= b.path;
        assert !WritesFile(b, w.path);
        assert b in ws + [w] && Clash(dest, w, b);
      }
    }
  }

  predicate SameAt(t: Tree, u: Tree, q: Path) {
    (q in t <==> q in u) && (q in t ==> t[q] == u[q])
  }

  lemma SameEverywhere(t: Tree, u: Tree)
    requires forall q :: SameAt(t, u, q)
    ensures t == u
  {
    forall q ensures q in t <==> q in u { assert SameAt(t, u, q); }
    forall q | q in t ensures t[q] == u[q] { assert SameAt(t, u, q); }
  }

  /** Performing a conflict-free write on top of a layout gives the layout of the longer plan. */
  lemma SameLayout(t: Tree, dest: Path, ws: seq<Write>, w: Write)
    requires EmptyDir(t, dest) && AllBelow(dest, ws + [w]) && ConflictFree(dest, ws + [w])
    requires Placed(Laid(t, dest, ws), w).Some?
    ensures Placed(Laid(t, dest, ws), w).value == Laid(t, dest, ws + [w])
  {
    assert w in ws + [w] && !Clash(dest, w, w) && dest <= w.path;
    forall q ensures SameAt(Placed(Laid(t, dest, ws), w).value, Laid(t, dest, ws + [w]), q) {
      SameLayoutAt(t, dest, ws, w, q);
    }
    SameEverywhere(Placed(Laid(t, dest, ws), w).value, Laid(t, dest, ws + [w]));
  }

  lemma SameLayoutAt(t: Tree, dest: Path, ws: seq<Write>, w: Write, q: Path)
    requires EmptyDir(t, dest) && dest <= w.path && (w.directory || dest < w.path)
    requires Placed(Laid(t, dest, ws), w).Some?
    ensures SameAt(Placed(Laid(t, dest, ws), w).value, Laid(t, dest, ws + [w]), q)
  {
    LaidAt(t, dest, ws, q);
    LaidAt(t, dest, ws + [w], q);
    LongerPlan(dest, ws, w, q);
    PlacedAt(Laid(t, dest, ws), w, q);
    assert q <= w.path ==> q <= dest || dest < q;
  }

  lemma LongerPlan(dest: Path, ws: seq<Write>, w: Write, q: Path)
    ensures NodeAt(ws + [w], q) == if WritesFile(w, q) then File(w.data) else NodeAt(ws, q)
    ensures q in Touched(dest, ws + [w]) <==> q in Touched(dest, ws) || (dest < q <= w.path)
  {
    assert (ws + [w])[..|ws|] == ws;
    TouchedAt(dest, ws, q);
    TouchedAt(dest, ws + [w], q);
    assert w in ws + [w] && forall v | v in ws :: v in ws + [w];
  }

  /** A write changes only the path it fills and the directories missing above it. */
  lemma PlacedAt(u: Tree, w: Write, q: Path)
    requires Placed(u, w).Some?
    ensures q in Placed(u, w).value <==> q in u || q <= w.path
    ensures q in Placed(u, w).value ==>
      Placed(u, w).value[q] == if WritesFile(w, q) then File(w.data) else if q in u then u[q] else Dir
  {
    if !w.directory { PrefixesGrow(w.path); }
  }

  /** Writing in order, characterised: which plans succeed, and what they leave. */
  lemma {:induction false} PlaceAllLays(t: Tree, dest: Path, ws: seq<Write>)
    requires EmptyDir(t, dest) && AllBelow(dest, ws)
    ensures PlaceAll(t, ws, NoWriteFault).ok <==> ConflictFree(dest, ws)
    ensures ConflictFree(dest, ws) ==> PlaceAll(t, ws, NoWriteFault).tree == Laid(t, dest, ws)
  {
    if ws == [] {
      assert Laid(t, dest, ws) == t;
    } else {
      var most, w := ws[..|ws| - 1], ws[|ws| - 1];
      assert ws == most + [w];
      PlaceAllLays(t, dest, most);
      if ConflictFree(dest, most) {
        if w.directory {
          PlaceDirectory(t, dest, most, w);
        } else {
          PlaceFile(t, dest, most, w);
          if Placed(Laid(t, dest, most), w).None? { FileBlocked(t, dest, most, w); }
        }
        if ConflictFree(dest, ws) { SameLayout(t, dest, most, w); }
      } else {
        var a, b :| a in most && b in most && Clash(dest, a, b);
        assert a in ws && b in ws;
      }
    }
  }

  /**
    Extraction of safe members into an empty directory succeeds exactly when no file stands where a
    directory must be, and then every path holds what its last writer gave it.
   */
  lemma ExtractLays(t: Tree, dest: Path, ms: seq<Member>)
    requires EmptyDir(t, dest)
    ensures ExtractVerdict(t, dest, ms, NoWriteFault).Extracted?
       <==> AllSafe(dest, ms) && ConflictFree(dest, Plan(dest, ms))
    ensures ExtractVerdict(t, dest, ms, NoWriteFault).Extracted? ==>
      ExtractTree(t, dest, ms, NoWriteFault) == Laid(t, dest, Plan(dest, ms))
  {
    PlaceAllLays(t, dest, Plan(dest, ms));
  }

  /**
    What becomes of each member of an archive that extracts: a name that ends in a slash is a directory
    afterwards, and every other name is a file that holds the data of the last member written to its path.
   */
  lemma MemberLaid(t: Tree, dest: Path, ms: seq<Member>, m: Member)
    requires EmptyDir(t, dest) && AllSafe(dest, ms) && ConflictFree(dest, Plan(dest, ms)) && m in ms
    ensures var u, p := ExtractTree(t, dest, ms, NoWriteFault), WrittenPath(dest, m.name);
      if m.name != "" && Last(Split(m.name)) == "" then IsDir(u, p)
      else LastWriter(Plan(dest, ms), p) >= 0 && p in u && u[p] == File(LastData(dest, ms, p))
  {
    var ws, p := Plan(dest, ms), WrittenPath(dest, m.name);
    var i :| 0 <= i < |ms| && ms[i] == m;
    var w := ws[i];
    assert w in ws && w.path == p && !Clash(dest, w, w);
    DirectoryNames(m);
    ExtractLays(t, dest, ms);
    LaidAt(t, dest, ws, p);
    TouchedAt(dest, ws, p);
    if w.directory {
      assert forall a | a in ws :: !Clash(dest, a, w);
      assert p == dest || dest < p by { assert |p| == |dest| ==> p == dest; }
    } else {
      assert WritesFile(w, p);
      assert p == dest || dest < p by { assert |p| == |dest| ==> p == dest; }
    }
  }

  // ---- extract, then find -----------------------------------------------------------------

  /** The distinct file paths written whose last component is `name`. */
  function WrittenFiles(ws: seq<Write>, name: string): set<Path> {
    set w | w in ws && !w.directory && w.path != [] && Last(w.path) == name :: w.path
  }

  /** The data of the last member written to `p`; looking members up by name makes no difference to it. */
  function LastData(dest: Path, ms: seq<Member>, p: Path): (data: Bytes)
    requires LastWriter(Plan(dest, ms), p) >= 0
    ensures data == Plan(dest, ms)[LastWriter(Plan(dest, ms), p)].data
  {
    var k := LastWriter(Plan(dest, ms), p);
    LastWriterIsLastNamed(dest, ms, p);
    ms[k].data
  }

  lemma LastWriterIsLastNamed(dest: Path, ms: seq<Member>, p: Path)
    requires LastWriter(Plan(dest, ms), p) >= 0
    ensures LastNamed(ms, ms[LastWriter(Plan(dest, ms), p)].name) == LastWriter(Plan(dest, ms), p)
  {
    var ws, k := Plan(dest, ms), LastWriter(Plan(dest, ms), p);
    var last := LastNamed(ms, ms[k].name);
    assert ws[last].path == ws[k].path && ws[last].directory == ws[k].directory;
    assert WritesFile(ws[last], p);
  }

  lemma LaidMatches(t: Tree, dest: Path, ws: seq<Write>, name: string)
    requires EmptyDir(t, dest) && AllBelow(dest, ws) && ConflictFree(dest, ws) && WellFormed(Laid(t, dest, ws))
    ensures Matches(Laid(t, dest, ws), dest, name) == WrittenFiles(ws, name)
  {
    var u := Laid(t, dest, ws);
    RecursiveGlobIs(u, dest, name);
    forall p | p in Matches(u, dest, name) ensures p in WrittenFiles(ws, name) {
      LaidAt(t, dest, ws, p);
      var w :| w in ws && WritesFile(w, p);
    }
    forall p | p in WrittenFiles(ws, name) ensures p in Matches(u, dest, name) {
      var w :| w in ws && WritesFile(w, p);
      assert !Clash(dest, w, w);
      LaidAt(t, dest, ws, p);
    }
  }

  /**
    After a successful extraction the search for `name` yields exactly the distinct file paths written
    with that last component, directories of that name ignored; it succeeds exactly when there is one,
    and the file found holds the data of the last member written to it.
   */
  lemma ExtractThenFind(t: Tree, dest: Path, ms: seq<Member>, name: string)
    requires EmptyDir(t, dest) && AllSafe(dest, ms) && ConflictFree(dest, Plan(dest, ms))
    ensures
      var after := ExtractTree(t, dest, ms, NoWriteFault);
      var files := WrittenFiles(Plan(dest, ms), name);
      && Matches(after, dest, name) == files
      && (FindExact(after, dest, name).Some? <==> |files| == 1)
      && (FindExact(after, dest, name).Some? ==>
            var p := FindExact(after, dest, name).value;
            && files == {p}
            && LastWriter(Plan(dest, ms), p) >= 0
            && p in after && after[p] == File(LastData(dest, ms, p)))
  {
    var ws, after := Plan(dest, ms), ExtractTree(t, dest, ms, NoWriteFault);
    ExtractLays(t, dest, ms);
    ExtractContained(t, dest, ms, NoWriteFault);
    LaidMatches(t, dest, ws, name);
    if |WrittenFiles(ws, name)| == 1 {
      var p := FindExact(after, dest, name).value;
      FoundHolds(t, dest, ws, name, p);
    }
  }

  lemma FoundHolds(t: Tree, dest: Path, ws: seq<Write>, name: string, p: Path)
    requires EmptyDir(t, dest) && AllBelow(dest, ws) && ConflictFree(dest, ws) && p in WrittenFiles(ws, name)
    ensures LastWriter(ws, p) >= 0
    ensures p in Laid(t, dest, ws) && Laid(t, dest, ws)[p] == File(ws[LastWriter(ws, p)].data)
  {
    var w :| w in ws && WritesFile(w, p);
    assert !Clash(dest, w, w);
    LaidAt(t, dest, ws, p);
  }

  // ---- order of the members ---------------------------------------------------------------

  ghost predicate DistinctPaths(dest: Path, ms: seq<Member>) {
    forall i, j | 0 <= i < j < |ms| :: WrittenPath(dest, ms[i].name) != WrittenPath(dest, ms[j].name)
  }

  /** The same members, in any order. */
  ghost predicate SameMembers(ms: seq<Member>, ns: seq<Member>) {
    forall m :: m in ms <==> m in ns
  }

  lemma DistinctData(dest: Path, ms: seq<Member>, i: nat)
    requires DistinctPaths(dest, ms) && i < |ms|
    ensures Plan(dest, ms)[i] == Write(WrittenPath(dest, ms[i].name), IsDirectory(ms[i]), ms[i].data)
  {
    var k := LastNamed(ms, ms[i].name);
    assert k >= i;
  }

  lemma PlanOf(dest: Path, ms: seq<Member>, w: Write)
    requires DistinctPaths(dest, ms)
    ensures w in Plan(dest, ms) <==> exists m | m in ms :: w == Write(WrittenPath(dest, m.name), IsDirectory(m), m.data)
  {
    if w in Plan(dest, ms) {
      var i :| 0 <= i < |ms| && Plan(dest, ms)[i] == w;
      DistinctData(dest, ms, i);
    }
    if m :| m in ms && w == Write(WrittenPath(dest, m.name), IsDirectory(m), m.data) {
      var i :| 0 <= i < |ms| && ms[i] == m;
      DistinctData(dest, ms, i);
    }
  }

  lemma PlanIsDistinct(dest: Path, ms: seq<Member>, i: nat, j: nat)
    requires DistinctPaths(dest, ms) && i < |ms| && j < |ms| && Plan(dest, ms)[i].path == Plan(dest, ms)[j].path
    ensures i == j
  {
  }

  lemma OnlyWriter(dest: Path, ms: seq<Member>, w: Write)
    requires DistinctPaths(dest, ms) && w in Plan(dest, ms) && !w.directory
    ensures NodeAt(Plan(dest, ms), w.path) == File(w.data)
  {
    var i :| 0 <= i < |ms| && Plan(dest, ms)[i] == w;
    assert WritesFile(Plan(dest, ms)[i], w.path);
    PlanIsDistinct(dest, ms, i, LastWriter(Plan(dest, ms), w.path));
  }

  /**
    When the written paths are pairwise distinct, reordering the members changes neither the verdict
    of an undisturbed extraction nor the tree a successful one leaves.
   */
  lemma OrderIrrelevant(t: Tree, dest: Path, ms: seq<Member>, ns: seq<Member>)
    requires EmptyDir(t, dest) && SameMembers(ms, ns)
    requires DistinctPaths(dest, ms) && DistinctPaths(dest, ns)
    ensures ExtractVerdict(t, dest, ms, NoWriteFault) == ExtractVerdict(t, dest, ns, NoWriteFault)
    ensures ExtractVerdict(t, dest, ms, NoWriteFault).Extracted? ==>
      ExtractTree(t, dest, ms, NoWriteFault) == ExtractTree(t, dest, ns, NoWriteFault)
  {
    SamePlan(dest, ms, ns);
    ExtractLays(t, dest, ms);
    ExtractLays(t, dest, ns);
    SameLaid(t, dest, ms, ns);
    assert AllSafe(dest, ms) <==> AllSafe(dest, ns);
  }

  lemma SamePlan(dest: Path, ms: seq<Member>, ns: seq<Member>)
    requires SameMembers(ms, ns) && DistinctPaths(dest, ms) && DistinctPaths(dest, ns)
    ensures forall w :: w in Plan(dest, ms) <==> w in Plan(dest, ns)
    ensures ConflictFree(dest, Plan(dest, ms)) <==> ConflictFree(dest, Plan(dest, ns))
  {
    forall w ensures w in Plan(dest, ms) <==> w in Plan(dest, ns) {
      PlanOf(dest, ms, w);
      PlanOf(dest, ns, w);
    }
  }

  lemma SameLaid(t: Tree, dest: Path, ms: seq<Member>, ns: seq<Member>)
    requires DistinctPaths(dest, ms) && DistinctPaths(dest, ns)
    requires forall w :: w in Plan(dest, ms) <==> w in Plan(dest, ns)
    ensures Laid(t, dest, Plan(dest, ms)) == Laid(t, dest, Plan(dest, ns))
  {
    forall p ensures NodeAt(Plan(dest, ms), p) == NodeAt(Plan(dest, ns), p) {
      SameNode(dest, ms, ns, p);
    }
    MoreTouched(dest, Plan(dest, ms), Plan(dest, ns));
    MoreTouched(dest, Plan(dest, ns), Plan(dest, ms));
    SameTree(t, dest, Plan(dest, ms), Plan(dest, ns));
  }

  lemma MoreTouched(dest: Path, ws: seq<Write>, vs: seq<Write>)
    requires forall w | w in ws :: w in vs
    ensures Touched(dest, ws) <= Touched(dest, vs)
  {
    forall q | q in Touched(dest, ws) ensures q in Touched(dest, vs) {
      TouchedAt(dest, ws, q);
      TouchedAt(dest, vs, q);
    }
  }

  lemma SameTree(t: Tree, dest: Path, ws: seq<Write>, vs: seq<Write>)
    requires Touched(dest, ws) == Touched(dest, vs) && forall p :: NodeAt(ws, p) == NodeAt(vs, p)
    ensures Laid(t, dest, ws) == Laid(t, dest, vs)
  {
  }

  lemma WriterTransfers(ws: seq<Write>, vs: seq<Write>, p: Path)
    requires forall w | w in ws :: w in vs
    ensures LastWriter(ws, p) >= 0 ==> LastWriter(vs, p) >= 0
  {
    var k := LastWriter(ws, p);
    if k >= 0 {
      assert ws[k] in vs;
    }
  }

  lemma SameNode(dest: Path, ms: seq<Member>, ns: seq<Member>, p: Path)
    requires DistinctPaths(dest, ms) && DistinctPaths(dest, ns)
    requires forall w :: w in Plan(dest, ms) <==> w in Plan(dest, ns)
    ensures NodeAt(Plan(dest, ms), p) == NodeAt(Plan(dest, ns), p)
  {
    var ws, vs := Plan(dest, ms), Plan(dest, ns);
    var i := LastWriter(ws, p);
    WriterTransfers(ws, vs, p);
    WriterTransfers(vs, ws, p);
    if i >= 0 {
      assert ws[i] in ws;
      OnlyWriter(dest, ms, ws[i]);
      OnlyWriter(dest, ns, ws[i]);
    }
  }
}
