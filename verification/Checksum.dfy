/**
  `_verify_checksum_file`: the text must have exactly one non-blank line, made of two tokens, the
  digest and the file name (the name possibly after the `*` of binary mode).

  The text is what reading the file as UTF-8 gave.
 */
module Checksum {
  import opened Wrappers
  import opened Ascii
  import opened PyText

  datatype Verdict = Accepted | NotOneLine | BadFormat | HashMismatch

  // ---- characters -------------------------------------------------------------------------

  /** The separators `splitlines` recognises; `\r\n` counts as one. */
  predicate IsBreak(c: char) {
    '\n' <= c <= '\r' || '\U{001c}' <= c <= '\U{001e}' || c == '\U{0085}' || c == '\U{2028}' || c == '\U{2029}'
  }

  /** `str.isspace`. */
  predicate IsSpace(c: char) {
    || '\t' <= c <= '\r' || '\U{001c}' <= c <= ' ' || c == '\U{0085}' || c == '\U{00a0}' || c == '\U{1680}'
    || '\U{2000}' <= c <= '\U{200a}' || c == '\U{2028}' || c == '\U{2029}' || c == '\U{202f}' || c == '\U{205f}'
    || c == '\U{3000}'
  }

  predicate IsStar(c: char) { c == '*' }

  /** `_verify_checksum_file` on the text of the file. */
  function Verify(text: string, name: string, actual: string): Verdict {
    var lines := Stripped(IsSpace, SplitLines(IsBreak, text));
    if |lines| != 1 then NotOneLine
    else
      var parts := Tokens(IsSpace, lines[0]);
      if |parts| != 2 || StripLeft(IsStar, parts[1]) != name then BadFormat
      else if Lower(parts[0]) != actual then HashMismatch
      else Accepted
  }

  // ---- the reference definition -----------------------------------------------------------

  datatype Sums = Sums(lead: string, hash: string, gap: string, file: string, trail: string)

  function Print(d: Sums): string {
    d.lead + (d.hash + d.gap + d.file + d.trail)
  }

  /** What may stand between the two tokens: white space, at least some, without a line separator. */
  predicate IsGap(s: string) {
    s != "" && All(IsSpace, s) && All(Not(IsBreak), s)
  }

  /** One line of two tokens, with any white space and blank lines around it. */
  predicate WellShaped(d: Sums) {
    && All(IsSpace, d.lead) && All(IsSpace, d.trail)
    && IsToken(IsSpace, d.hash) && IsGap(d.gap) && IsToken(IsSpace, d.file)
  }

  /** Any number of `*`, then the name. */
  predicate StarredName(file: string, name: string) {
    |name| <= |file| && file[|file| - |name|..] == name && All(IsStar, file[..|file| - |name|])
    && (name != "" ==> name[0] != '*')
  }

  /** The text is two tokens on one line, naming the file and giving this digest. */
  ghost predicate Attests(text: string, name: string, actual: string) {
    exists d: Sums ::
      && WellShaped(d) && text == Print(d)
      && Lower(d.hash) == actual && StarredName(d.file, name)
  }

  /** The text is two tokens on one line, naming the file, whatever the digest. */
  ghost predicate Names(text: string, name: string) {
    exists d: Sums :: WellShaped(d) && text == Print(d) && StarredName(d.file, name)
  }

  ghost predicate LineBetween(text: string, lead: string, line: string, trail: string) {
    && text == lead + (line + trail) && All(IsSpace, lead) && All(IsSpace, trail)
    && IsTrim(IsSpace, line) && All(Not(IsBreak), line)
  }

  /** Exactly one line of the text is not blank. */
  ghost predicate HasOneLine(text: string) {
    exists lead, line, trail :: LineBetween(text, lead, line, trail)
  }

  // ---- properties -------------------------------------------------------------------------

  /** The separators and the white space by code point. */
  lemma CodePoints(c: char)
    ensures IsBreak(c) <==> c as int in {10, 11, 12, 13, 28, 29, 30, 133, 8232, 8233}
    ensures IsSpace(c) <==> c as int in {
      9, 10, 11, 12, 13, 28, 29, 30, 31, 32, 133, 160, 5760, 8192, 8193, 8194, 8195, 8196, 8197, 8198, 8199, 8200,
      8201, 8202, 8232, 8233, 8239, 8287, 12288}
  {
  }

  lemma BreaksAreSpaces()
    ensures Agree(IsSpace, IsBreak)
  {
  }

  lemma StarsThenName(file: string, name: string)
    ensures StripLeft(IsStar, file) == name <==> StarredName(file, name)
  {
    var k := |file| - |name|;
    if StarredName(file, name) {
      assert forall i | 0 <= i < k :: file[i] == file[..k][i];
      assert name != "" ==> file[k] == file[k..][0];
      SpanIs(IsStar, file, k);
    }
  }

  lemma TokenHasNoBreak(s: string)
    requires IsToken(IsSpace, s)
    ensures All(Not(IsBreak), s) && IsTrim(IsSpace, s)
  {
    BreaksAreSpaces();
  }

  /** On any text of the printed shape the verdict depends on the name and the digest alone. */
  lemma VerdictOfPrinted(d: Sums, name: string, actual: string)
    requires WellShaped(d)
    ensures Verify(Print(d), name, actual)
         == if !StarredName(d.file, name) then BadFormat
            else if Lower(d.hash) != actual then HashMismatch
            else Accepted
  {
    BreaksAreSpaces();
    TokenHasNoBreak(d.hash);
    TokenHasNoBreak(d.file);
    OneLineOfTwo(IsSpace, IsBreak, d);
    StarsThenName(d.file, name);
  }

  lemma OneLineOfTwo(sp: char -> bool, br: char -> bool, d: Sums)
    requires Agree(sp, br) && All(sp, d.lead) && All(sp, d.trail)
    requires d.gap != "" && All(sp, d.gap) && IsToken(sp, d.hash) && IsToken(sp, d.file)
    requires All(Not(br), d.hash) && All(Not(br), d.gap) && All(Not(br), d.file)
    ensures Stripped(sp, SplitLines(br, Print(d))) == [d.hash + d.gap + d.file]
    ensures Tokens(sp, d.hash + d.gap + d.file) == [d.hash, d.file]
    ensures Tokens(sp, Print(d)) == [d.hash, d.file]
  {
    LineOfTwo(sp, br, d);
    TokensOfCore(sp, d.hash, d.gap, d.file);
    TokensOfPrinted(sp, d);
  }

  lemma TokensOfCore(sp: char -> bool, hash: string, gap: string, file: string)
    requires gap != "" && All(sp, gap) && IsToken(sp, hash) && IsToken(sp, file)
    ensures Tokens(sp, hash + gap + file) == [hash, file]
  {
    TokensOfPair(sp, hash, gap, file, "");
    Regroup(hash, gap, file, "");
    assert hash + gap + file + "" == hash + gap + file;
  }

  lemma Regroup(a: string, b: string, c: string, d: string)
    ensures a + b + c + d == a + (b + (c + d))
  {
  }

  lemma TokensOfPrinted(sp: char -> bool, d: Sums)
    requires All(sp, d.lead) && All(sp, d.trail)
    requires d.gap != "" && All(sp, d.gap) && IsToken(sp, d.hash) && IsToken(sp, d.file)
    ensures Tokens(sp, Print(d)) == [d.hash, d.file]
  {
    var tail := d.hash + (d.gap + (d.file + d.trail));
    TokensOfPair(sp, d.hash, d.gap, d.file, d.trail);
    TokensAfterSpace(sp, d.lead, tail);
    Regroup(d.hash, d.gap, d.file, d.trail);
  }

  lemma LineOfTwo(sp: char -> bool, br: char -> bool, d: Sums)
    requires Agree(sp, br) && All(sp, d.lead) && All(sp, d.trail) && IsToken(sp, d.hash) && IsToken(sp, d.file)
    requires All(Not(br), d.hash) && All(Not(br), d.gap) && All(Not(br), d.file)
    ensures Stripped(sp, SplitLines(br, Print(d))) == [d.hash + d.gap + d.file]
  {
    var core := d.hash + d.gap + d.file;
    TrimCore(sp, d.hash, d.gap, d.file);
    AllJoined(Not(br), d.hash, d.gap, d.file);
    NonBlankAfterSpaces(sp, br, d.lead, core + d.trail);
    NonBlankOfLine(sp, br, core, d.trail);
    NonBlankIs(sp, br, Print(d));
  }

  lemma TrimCore(sp: char -> bool, hash: string, gap: string, file: string)
    requires IsToken(sp, hash) && IsToken(sp, file)
    ensures IsTrim(sp, hash + gap + file)
  {
    var core := hash + gap + file;
    assert core[0] == hash[0] && core[|core| - 1] == file[|file| - 1];
  }

  /** The parts of a text whose one non-blank line has two tokens. */
  lemma Recover(sp: char -> bool, br: char -> bool, text: string) returns (d: Sums)
    requires Agree(sp, br) && |Stripped(sp, SplitLines(br, text))| == 1
    requires |Tokens(sp, Stripped(sp, SplitLines(br, text))[0])| == 2
    ensures text == Print(d) && [d.hash, d.file] == Tokens(sp, Stripped(sp, SplitLines(br, text))[0])
    ensures All(sp, d.lead) && All(sp, d.trail) && d.gap != "" && All(sp, d.gap) && All(Not(br), d.gap)
    ensures IsToken(sp, d.hash) && IsToken(sp, d.file)
  {
    var line := Stripped(sp, SplitLines(br, text))[0];
    NonBlankIs(sp, br, text);
    var lead, trail := OneLineBetweenSpaces(sp, br, text);
    StrippedAreTrim(sp, SplitLines(br, text));
    var gap := GapOf(sp, br, line);
    d := Sums(lead, Tokens(sp, line)[0], gap, Tokens(sp, line)[1], trail);
    Associate(lead, line, trail);
  }

  lemma GapOf(sp: char -> bool, br: char -> bool, line: string) returns (gap: string)
    requires |Tokens(sp, line)| == 2 && IsTrim(sp, line) && All(Not(br), line)
    ensures line == Tokens(sp, line)[0] + gap + Tokens(sp, line)[1]
    ensures IsToken(sp, Tokens(sp, line)[0]) && IsToken(sp, Tokens(sp, line)[1])
    ensures gap != "" && All(sp, gap) && All(Not(br), gap)
  {
    gap := TokensArePair(sp, line);
    assert forall i | 0 <= i < |gap| :: gap[i] == line[|Tokens(sp, line)[0]| + i];
  }

  /**
    Exact characterisation: a text is accepted exactly when it is one line of two tokens between
    white space, the first token lower-cases to the digest, and the second is any number of `*` and
    the name.
   */
  lemma AcceptsExactly(text: string, name: string, actual: string)
    ensures Verify(text, name, actual).Accepted? <==> Attests(text, name, actual)
  {
    if Attests(text, name, actual) {
      var d :| WellShaped(d) && text == Print(d) && Lower(d.hash) == actual && StarredName(d.file, name);
      VerdictOfPrinted(d, name, actual);
    }
    if Verify(text, name, actual).Accepted? {
      BreaksAreSpaces();
      var d := Recover(IsSpace, IsBreak, text);
      StarsThenName(d.file, name);
      assert WellShaped(d) && StarredName(d.file, name);
    }
  }

  lemma OneLineStripped(text: string, lead: string, line: string, trail: string)
    requires LineBetween(text, lead, line, trail)
    ensures Stripped(IsSpace, SplitLines(IsBreak, text)) == [line]
  {
    BreaksAreSpaces();
    NonBlankAfterSpaces(IsSpace, IsBreak, lead, line + trail);
    NonBlankOfLine(IsSpace, IsBreak, line, trail);
    NonBlankIs(IsSpace, IsBreak, text);
  }

  /** Counting the stripped lines is counting the lines of the text that are not blank. */
  lemma OneLineExactly(text: string)
    ensures |Stripped(IsSpace, SplitLines(IsBreak, text))| == 1 <==> HasOneLine(text)
  {
    if HasOneLine(text) {
      var lead, line, trail :| LineBetween(text, lead, line, trail);
      OneLineStripped(text, lead, line, trail);
    }
    if |Stripped(IsSpace, SplitLines(IsBreak, text))| == 1 {
      var line := Stripped(IsSpace, SplitLines(IsBreak, text))[0];
      BreaksAreSpaces();
      NonBlankIs(IsSpace, IsBreak, text);
      var lead, trail := OneLineBetweenSpaces(IsSpace, IsBreak, text);
      StrippedAreTrim(IsSpace, SplitLines(IsBreak, text));
      Associate(lead, line, trail);
      assert LineBetween(text, lead, line, trail);
    }
  }

  /** Each verdict on each text, stated on the text: no stripping, splitting or order of checks is involved. */
  lemma VerdictExactly(text: string, name: string, actual: string)
    ensures var v := Verify(text, name, actual);
      && (v.NotOneLine? <==> !HasOneLine(text))
      && (v.BadFormat? <==> HasOneLine(text) && !Names(text, name))
      && (v.HashMismatch? <==> Names(text, name) && !Attests(text, name, actual))
      && (v.Accepted? <==> Attests(text, name, actual))
    ensures Attests(text, name, actual) ==> Names(text, name)
    ensures Names(text, name) ==> HasOneLine(text)
  {
    OneLineExactly(text);
    AcceptsExactly(text, name, actual);
    NamesExactly(text, name, actual);
  }

  lemma NamesExactly(text: string, name: string, actual: string)
    ensures Names(text, name) <==> !Verify(text, name, actual).NotOneLine? && !Verify(text, name, actual).BadFormat?
  {
    if Names(text, name) {
      var d :| WellShaped(d) && text == Print(d) && StarredName(d.file, name);
      VerdictOfPrinted(d, name, actual);
    }
    if !Verify(text, name, actual).NotOneLine? && !Verify(text, name, actual).BadFormat? {
      BreaksAreSpaces();
      var d := Recover(IsSpace, IsBreak, text);
      StarsThenName(d.file, name);
      assert WellShaped(d) && StarredName(d.file, name);
    }
  }

  /**
    Round trip: a printed line is accepted for the digest it was printed with, in either case of each of
    its digits and in text or binary form, and rejected for every other digest.
   */
  lemma RoundTrip(d: Sums, stars: nat, name: string, actual: string)
    requires All(IsSpace, d.lead) && All(IsSpace, d.trail) && IsGap(d.gap)
    requires IsToken(IsSpace, name) && name[0] != '*'
    requires IsToken(IsSpace, d.hash) && d.file == seq(stars, _ => '*') + name
    ensures Verify(Print(d), name, actual) == if Lower(d.hash) == actual then Accepted else HashMismatch
    ensures (forall c | c in actual :: IsLowerHex(c)) ==>
      Verify(Print(d), name, actual) == if SameHex(d.hash, actual) then Accepted else HashMismatch
  {
    StarsPrefixed(stars, name);
    VerdictOfPrinted(d, name, actual);
    if forall c | c in actual :: IsLowerHex(c) { LowerIsSameHex(d.hash, actual); }
  }

  lemma StarsPrefixed(stars: nat, name: string)
    requires IsToken(IsSpace, name) && name[0] != '*'
    ensures IsToken(IsSpace, seq(stars, _ => '*') + name) && StarredName(seq(stars, _ => '*') + name, name)
  {
    var file := seq(stars, _ => '*') + name;
    assert forall i | 0 <= i < |file| :: file[i] == if i < stars then '*' else name[i - stars];
    assert !IsSpace('*');
  }

  /** Line by line or as a whole, an accepted text has the same two tokens. */
  lemma WholeTextTokens(text: string, name: string, actual: string)
    requires Verify(text, name, actual).Accepted?
    ensures Tokens(IsSpace, text) == Tokens(IsSpace, Stripped(IsSpace, SplitLines(IsBreak, text))[0])
  {
    BreaksAreSpaces();
    var d := Recover(IsSpace, IsBreak, text);
    TokenHasNoBreak(d.hash);
    TokenHasNoBreak(d.file);
    OneLineOfTwo(IsSpace, IsBreak, d);
  }
}
