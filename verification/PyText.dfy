/**
  Python's `strip`, `lstrip`, `splitlines` and `split()`, for any choice `sp` of white-space
  characters and `br` of line separators, with the facts that relate them.
 */
module PyText {
  predicate All(p: char -> bool, s: string) {
    forall i | 0 <= i < |s| :: p(s[i])
  }

  function Not(p: char -> bool): char -> bool {
    c => !p(c)
  }

  /** Every line separator is white space. */
  ghost predicate Agree(sp: char -> bool, br: char -> bool) {
    (forall c | br(c) :: sp(c)) && br('\n')
  }

  /** Not empty and free of white space. */
  predicate IsToken(sp: char -> bool, s: string) {
    s != "" && All(Not(sp), s)
  }

  /** Not empty, starting and ending with characters other than white space. */
  predicate IsTrim(sp: char -> bool, s: string) {
    s != "" && !sp(s[0]) && !sp(s[|s| - 1])
  }

  // ---- the functions ----------------------------------------------------------------------

  /** The first index from `from` on whose character does not satisfy `p`. */
  function SpanFrom(p: char -> bool, s: string, from: nat): (k: nat)
    requires from <= |s|
    ensures from <= k <= |s|
    ensures forall i | from <= i < k :: p(s[i])
    ensures k < |s| ==> !p(s[k])
    decreases |s| - from
  {
    if from == |s| || !p(s[from]) then from else SpanFrom(p, s, from + 1)
  }

  /** The length of the longest prefix whose characters all satisfy `p`. */
  function Span(p: char -> bool, s: string): nat {
    SpanFrom(p, s, 0)
  }

  /** `s.lstrip(...)` for the characters satisfying `p`. */
  function StripLeft(p: char -> bool, s: string): string {
    s[Span(p, s)..]
  }

  /** The length of `s[..k]` without its trailing white space. */
  function EndBefore(sp: char -> bool, s: string, k: nat): (n: nat)
    requires k <= |s|
    ensures n <= k
    ensures forall i | n <= i < k :: sp(s[i])
    ensures n > 0 ==> !sp(s[n - 1])
  {
    if k == 0 || !sp(s[k - 1]) then k else EndBefore(sp, s, k - 1)
  }

  /** `s.rstrip()`. */
  function StripRight(sp: char -> bool, s: string): string {
    s[..EndBefore(sp, s, |s|)]
  }

  /** `s.strip()`. */
  function Strip(sp: char -> bool, s: string): string {
    StripRight(sp, StripLeft(sp, s))
  }

  /** The separator at `k`: `\r\n` counts as one. */
  function BreakLength(s: string, k: nat): (n: nat)
    requires k < |s|
    ensures k + n <= |s| && 0 < n <= 2
    ensures n == 2 ==> s[k + 1] == '\n'
  {
    if s[k] == '\r' && k + 1 < |s| && s[k + 1] == '\n' then 2 else 1
  }

  /** `s.splitlines()`. */
  function SplitLines(br: char -> bool, s: string): seq<string>
    decreases |s|
  {
    if s == "" then []
    else
      var k := Span(Not(br), s);
      if k == |s| then [s] else [s[..k]] + SplitLines(br, s[k + BreakLength(s, k)..])
  }

  /** `s.split()`. */
  function Tokens(sp: char -> bool, s: string): seq<string>
    decreases |s|
  {
    var rest := StripLeft(sp, s);
    if rest == "" then []
    else
      var k := Span(Not(sp), rest);
      [rest[..k]] + Tokens(sp, rest[k..])
  }

  /** The lines that are not blank, stripped. */
  function Stripped(sp: char -> bool, lines: seq<string>): seq<string> {
    if lines == [] then [] else Core(sp, lines[0]) + Stripped(sp, lines[1..])
  }

  function Core(sp: char -> bool, line: string): seq<string> {
    if Strip(sp, line) == "" then [] else [Strip(sp, line)]
  }

  // ---- spans and stripping ----------------------------------------------------------------

  lemma SpanIs(p: char -> bool, s: string, k: nat)
    requires k <= |s| && (forall i | 0 <= i < k :: p(s[i])) && (k < |s| ==> !p(s[k]))
    ensures Span(p, s) == k
  {
  }

  /** A line is its stripped core between white space, and the core is trimmed. */
  lemma StripIs(sp: char -> bool, s: string) returns (a: string, b: string)
    ensures s == a + Strip(sp, s) + b && All(sp, a) && All(sp, b)
    ensures Strip(sp, s) != "" ==> IsTrim(sp, Strip(sp, s))
  {
    var k := Span(sp, s);
    var rest := s[k..];
    var n := EndBefore(sp, rest, |rest|);
    a, b := s[..k], rest[n..];
    assert Strip(sp, s) == rest[..n];
  }

  lemma StripRightSpaces(sp: char -> bool, s: string, w: string)
    requires All(sp, w) && (s != "" ==> !sp(s[|s| - 1]))
    ensures StripRight(sp, s + w) == s
  {
    var t := s + w;
    var n := EndBefore(sp, t, |t|);
    assert forall i | |s| <= i < |t| :: sp(t[i]) by {
      assert forall i | |s| <= i < |t| :: t[i] == w[i - |s|];
    }
    assert s != "" ==> t[|s| - 1] == s[|s| - 1];
    assert n == |s|;
  }

  lemma StripOf(sp: char -> bool, a: string, core: string, b: string)
    requires All(sp, a) && All(sp, b) && IsTrim(sp, core)
    ensures Strip(sp, a + core + b) == core
  {
    var s := a + core + b;
    SpanIs(sp, s, |a|);
    assert s[|a|..] == core + b;
    StripRightSpaces(sp, core, b);
  }

  lemma StripBlank(sp: char -> bool, s: string)
    ensures Strip(sp, s) == "" <==> All(sp, s)
  {
    if All(sp, s) {
      SpanIs(sp, s, |s|);
    } else {
      var a, b := StripIs(sp, s);
      assert Strip(sp, s) == "" ==> s == a + b;
    }
  }

  lemma StripAfterSpace(sp: char -> bool, c: char, s: string)
    requires sp(c)
    ensures Strip(sp, [c] + s) == Strip(sp, s)
  {
    SpanIs(sp, [c] + s, 1 + Span(sp, s));
    assert StripLeft(sp, [c] + s) == StripLeft(sp, s);
  }

  // ---- tokens -----------------------------------------------------------------------------

  lemma TokensAfterSpace(sp: char -> bool, a: string, s: string)
    requires All(sp, a)
    ensures Tokens(sp, a + s) == Tokens(sp, s)
  {
    var k := Span(sp, s);
    SpanIs(sp, a + s, |a| + k);
    assert (a + s)[|a| + k..] == s[k..];
  }

  lemma TokensOfSpace(sp: char -> bool, a: string)
    requires All(sp, a)
    ensures Tokens(sp, a) == []
  {
    SpanIs(sp, a, |a|);
  }

  /** A token that is followed by nothing or by white space is split off. */
  lemma TokensSplitOff(sp: char -> bool, t: string, s: string)
    requires IsToken(sp, t) && (s != "" ==> sp(s[0]))
    ensures Tokens(sp, t + s) == [t] + Tokens(sp, s)
  {
    SpanIs(sp, t + s, 0);
    assert (t + s)[0..] == t + s;
    SpanIs(Not(sp), t + s, |t|);
    assert (t + s)[..|t|] == t && (t + s)[|t|..] == s;
  }

  lemma TokensOfPair(sp: char -> bool, t: string, gap: string, u: string, trail: string)
    requires IsToken(sp, t) && IsToken(sp, u) && gap != "" && All(sp, gap) && All(sp, trail)
    ensures Tokens(sp, t + (gap + (u + trail))) == [t, u]
  {
    TokensOfSpace(sp, trail);
    TokensSplitOff(sp, u, trail);
    TokensAfterSpace(sp, gap, u + trail);
    TokensSplitOff(sp, t, gap + (u + trail));
  }

  lemma NoTokensMeansSpaces(sp: char -> bool, s: string)
    requires Tokens(sp, s) == []
    ensures All(sp, s)
  {
    assert Span(sp, s) == |s|;
  }

  /** A trimmed text of two tokens is the first, some white space, and the second. */
  lemma TokensArePair(sp: char -> bool, s: string) returns (gap: string)
    requires |Tokens(sp, s)| == 2 && IsTrim(sp, s)
    ensures s == Tokens(sp, s)[0] + gap + Tokens(sp, s)[1]
    ensures IsToken(sp, Tokens(sp, s)[0]) && IsToken(sp, Tokens(sp, s)[1]) && gap != "" && All(sp, gap)
  {
    SpanIs(sp, s, 0);
    assert s[0..] == s;
    var k := Span(Not(sp), s);
    var rest := s[k..];
    var j := Span(sp, rest);
    gap := rest[..j];
    var second := rest[j..];
    var n := Span(Not(sp), second);
    assert Tokens(sp, rest) == [second[..n]] + Tokens(sp, second[n..]);
    NoTokensMeansSpaces(sp, second[n..]);
    assert n == |second|;
    assert second[..n] == second;
    assert s == s[..k] + gap + second;
  }

  // ---- lines ------------------------------------------------------------------------------

  /** The stripped non-blank lines, taken one line at a time. */
  function NonBlank(sp: char -> bool, br: char -> bool, s: string): seq<string>
    decreases |s|
  {
    var k := Span(Not(br), s);
    if k == |s| then Core(sp, s) else Core(sp, s[..k]) + NonBlank(sp, br, s[k + BreakLength(s, k)..])
  }

  /** The first line, its separator and the rest of a text that has a separator. */
  lemma FirstLine(sp: char -> bool, br: char -> bool, s: string) returns (line: string, sep: string, rest: string)
    requires Agree(sp, br) && Span(Not(br), s) < |s|
    ensures s == line + sep + rest && |rest| < |s|
    ensures All(Not(br), line) && All(sp, sep) && sep != "" && br(sep[0])
    ensures NonBlank(sp, br, s) == Core(sp, line) + NonBlank(sp, br, rest)
    ensures SplitLines(br, s) == [line] + SplitLines(br, rest)
  {
    var k := Span(Not(br), s);
    var n := BreakLength(s, k);
    line, sep, rest := s[..k], s[k..k + n], s[k + n..];
  }

  lemma {:induction false} NonBlankIs(sp: char -> bool, br: char -> bool, s: string)
    requires Agree(sp, br)
    ensures NonBlank(sp, br, s) == Stripped(sp, SplitLines(br, s))
    decreases |s|
  {
    if Span(Not(br), s) == |s| {
      OneLine(sp, br, s);
    } else {
      var line, sep, rest := FirstLine(sp, br, s);
      NonBlankIs(sp, br, rest);
      StrippedCons(sp, line, SplitLines(br, rest));
    }
  }

  lemma OneLine(sp: char -> bool, br: char -> bool, s: string)
    requires Span(Not(br), s) == |s|
    ensures Core(sp, s) == Stripped(sp, SplitLines(br, s))
  {
    if s == "" {
      StripBlank(sp, s);
    } else {
      assert [s] + [] == [s];
      StrippedCons(sp, s, []);
    }
  }

  lemma StrippedCons(sp: char -> bool, line: string, lines: seq<string>)
    ensures Stripped(sp, [line] + lines) == Core(sp, line) + Stripped(sp, lines)
  {
    assert ([line] + lines)[1..] == lines;
  }

  lemma {:induction false} StrippedAreTrim(sp: char -> bool, lines: seq<string>)
    ensures forall l | l in Stripped(sp, lines) :: IsTrim(sp, l)
  {
    if lines != [] {
      var _, _ := StripIs(sp, lines[0]);
      StrippedAreTrim(sp, lines[1..]);
    }
  }

  /** White space in front of a text changes none of its stripped non-blank lines. */
  lemma NonBlankAfterSpace(sp: char -> bool, br: char -> bool, c: char, s: string)
    requires Agree(sp, br) && sp(c)
    ensures NonBlank(sp, br, [c] + s) == NonBlank(sp, br, s)
  {
    if br(c) { NonBlankAfterBreak(sp, br, c, s); } else { NonBlankAfterBlank(sp, br, c, s); }
  }

  lemma NonBlankAfterBlank(sp: char -> bool, br: char -> bool, c: char, s: string)
    requires sp(c) && !br(c)
    ensures NonBlank(sp, br, [c] + s) == NonBlank(sp, br, s)
  {
    var t, k := [c] + s, Span(Not(br), s);
    SpanIs(Not(br), t, k + 1);
    if k == |s| {
      SameCore(sp, c, s);
    } else {
      var n := BreakLength(s, k);
      SameCore(sp, c, s[..k]);
      assert BreakLength(t, k + 1) == n;
      assert t[..k + 1] == [c] + s[..k];
      assert t[k + 1 + n..] == s[k + n..];
    }
  }

  lemma SameCore(sp: char -> bool, c: char, line: string)
    requires sp(c)
    ensures Core(sp, [c] + line) == Core(sp, line)
  {
    StripAfterSpace(sp, c, line);
  }

  lemma NonBlankAfterBreak(sp: char -> bool, br: char -> bool, c: char, s: string)
    requires Agree(sp, br) && br(c)
    ensures NonBlank(sp, br, [c] + s) == NonBlank(sp, br, s)
  {
    var t := [c] + s;
    SpanIs(Not(br), t, 0);
    StripBlank(sp, "");
    assert t[..0] == "";
    if BreakLength(t, 0) == 2 {
      assert s[0] == '\n';
      SpanIs(Not(br), s, 0);
      assert s[..0] == "" && t[2..] == s[1..];
    } else {
      assert t[1..] == s;
    }
  }

  lemma {:induction false} NonBlankAfterSpaces(sp: char -> bool, br: char -> bool, a: string, s: string)
    requires Agree(sp, br) && All(sp, a)
    ensures NonBlank(sp, br, a + s) == NonBlank(sp, br, s)
    decreases |a|
  {
    if a == "" {
      assert a + s == s;
    } else {
      assert a + s == [a[0]] + (a[1..] + s);
      NonBlankAfterSpace(sp, br, a[0], a[1..] + s);
      NonBlankAfterSpaces(sp, br, a[1..], s);
    }
  }

  lemma NonBlankOfSpaces(sp: char -> bool, br: char -> bool, a: string)
    requires Agree(sp, br) && All(sp, a)
    ensures NonBlank(sp, br, a) == []
  {
    NonBlankAfterSpaces(sp, br, a, "");
    assert a + "" == a;
    StripBlank(sp, "");
  }

  /** A trimmed line followed by white space is the only non-blank line. */
  lemma NonBlankOfLine(sp: char -> bool, br: char -> bool, core: string, trail: string)
    requires Agree(sp, br) && IsTrim(sp, core) && All(Not(br), core) && All(sp, trail)
    ensures NonBlank(sp, br, core + trail) == [core]
  {
    var s := core + trail;
    if Span(Not(br), s) == |s| {
      CoreOf(sp, core, trail);
    } else {
      var line, sep, rest := FirstLine(sp, br, s);
      var spaces := LineOfCore(sp, br, core, trail, line, sep, rest);
      CoreOf(sp, core, spaces);
      NonBlankOfSpaces(sp, br, rest);
    }
  }

  lemma CoreOf(sp: char -> bool, core: string, b: string)
    requires All(sp, b) && IsTrim(sp, core)
    ensures Core(sp, core + b) == [core]
  {
    StripOf(sp, "", core, b);
    assert "" + core + b == core + b;
  }

  lemma LineOfCore(sp: char -> bool, br: char -> bool, core: string, trail: string,
                   line: string, sep: string, rest: string)
    returns (spaces: string)
    requires All(Not(br), core) && All(sp, trail) && core + trail == line + sep + rest
    requires sep != "" && br(sep[0])
    ensures line == core + spaces && All(sp, spaces) && All(sp, rest)
  {
    var s := core + trail;
    assert forall i | 0 <= i < |core| :: s[i] == core[i] && !br(s[i]);
    assert s[|line|] == sep[0];
    assert |line| >= |core|;
    spaces := trail[..|line| - |core|];
    assert line == s[..|line|] && rest == s[|line| + |sep|..];
    assert rest == trail[|line| + |sep| - |core|..];
  }

  lemma AllJoined(p: char -> bool, a: string, b: string, c: string)
    requires All(p, a) && All(p, b) && All(p, c)
    ensures All(p, a + b + c)
  {
  }

  /** A text without non-blank lines is white space. */
  lemma {:induction false} NoLineMeansSpaces(sp: char -> bool, br: char -> bool, s: string)
    requires Agree(sp, br) && NonBlank(sp, br, s) == []
    ensures All(sp, s)
    decreases |s|
  {
    if Span(Not(br), s) == |s| {
      StripBlank(sp, s);
    } else {
      var line, sep, rest := FirstLine(sp, br, s);
      StripBlank(sp, line);
      NoLineMeansSpaces(sp, br, rest);
      AllJoined(sp, line, sep, rest);
    }
  }

  /** A text with one non-blank line is that line between white space. */
  lemma {:induction false} OneLineBetweenSpaces(sp: char -> bool, br: char -> bool, s: string)
    returns (lead: string, trail: string)
    requires Agree(sp, br) && |NonBlank(sp, br, s)| == 1
    ensures var core := NonBlank(sp, br, s)[0];
      s == lead + core + trail && All(sp, lead) && All(sp, trail) && All(Not(br), core)
    decreases |s|
  {
    if Span(Not(br), s) == |s| {
      lead, trail := AroundCore(sp, br, s);
    } else {
      var line, sep, rest := FirstLine(sp, br, s);
      StripBlank(sp, line);
      if Strip(sp, line) == "" {
        var more;
        more, trail := OneLineBetweenSpaces(sp, br, rest);
        lead := LongerLead(sp, line, sep, more, NonBlank(sp, br, rest)[0], trail);
      } else {
        assert NonBlank(sp, br, rest) == [];
        lead, trail := CoreBetweenSpaces(sp, br, line, sep, rest);
      }
    }
  }

  lemma LongerLead(sp: char -> bool, line: string, sep: string, more: string, core: string, trail: string)
    returns (lead: string)
    requires All(sp, line) && All(sp, sep) && All(sp, more)
    ensures line + sep + (more + core + trail) == lead + core + trail && All(sp, lead)
  {
    lead := line + sep + more;
  }

  lemma CoreBetweenSpaces(sp: char -> bool, br: char -> bool, line: string, sep: string, rest: string)
    returns (lead: string, trail: string)
    requires Agree(sp, br) && NonBlank(sp, br, rest) == [] && All(sp, sep) && All(Not(br), line)
    ensures line + sep + rest == lead + Strip(sp, line) + trail && All(sp, lead) && All(sp, trail)
    ensures All(Not(br), Strip(sp, line))
  {
    NoLineMeansSpaces(sp, br, rest);
    lead, trail := AroundCore(sp, br, line);
    trail := trail + sep + rest;
  }

  lemma AroundCore(sp: char -> bool, br: char -> bool, line: string) returns (a: string, b: string)
    requires All(Not(br), line)
    ensures line == a + Strip(sp, line) + b && All(sp, a) && All(sp, b) && All(Not(br), Strip(sp, line))
  {
    a, b := StripIs(sp, line);
    assert forall i | 0 <= i < |Strip(sp, line)| :: Strip(sp, line)[i] == line[|a| + i];
  }
}
