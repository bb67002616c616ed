/**
 * The parser that turns the language model's timestamped chapter list into
 * section summaries. The model is asked for lines shaped like
 * `[31]: summary`; the parser splits its answer on newlines, matches each line
 * against the pattern `\s*\[(\d+(?:\.\d+)?)\]:\s+(.*)` from the start of the
 * line, and keeps one record per matching line, in order. The pattern is
 * written out here as an explicit matcher over characters.
 */
module SectionSummarizer {
  import opened Wrappers
  import opened Strings

  /** One chapter of the video: where it starts, in whole seconds, and what it says. */
  datatype SectionSummary = SectionSummary(timestampSeconds: int, text: string)

  /**
   * The pieces of a line that the pattern matches: the leading whitespace,
   * the digits before the decimal point, the point with the digits after it
   * (or nothing), the whitespace after `]:`, and the captured summary text.
   */
  datatype LineMatch = LineMatch(indent: string, whole: string, fraction: string, gap: string, text: string)
  {
    /**
     * What each part of the pattern admits. The whitespace run `\s+` is
     * greedy, so the captured text never begins with whitespace.
     */
    predicate Valid() {
      && AllSpaces(indent)
      && |whole| > 0 && AllDigits(whole)
      && IsFraction(fraction)
      && IsGapAndText(gap, text)
    }

    /** The line these pieces spell out. */
    function Line(): string {
      indent + ("[" + (whole + (fraction + ("]:" + (gap + text)))))
    }
  }

  /** What `(?:\.\d+)?` admits: nothing, or a point followed by at least one digit. */
  predicate IsFraction(fraction: string) {
    fraction == [] || (|fraction| > 1 && fraction[0] == '.' && AllDigits(fraction[1..]))
  }

  /** What `\s+(.*)` admits on one line, given that `\s+` takes all the whitespace it can. */
  predicate IsGapAndText(gap: string, text: string) {
    |gap| > 0 && AllSpaces(gap) && (text == [] || !IsSpace(text[0]))
  }

  /** The text a record can carry: one line, not beginning with whitespace. */
  predicate WellFormedText(text: string) {
    IsLine(text) && (text == [] || !IsSpace(text[0]))
  }

  /** The index of the first non-whitespace character of `s` at or after `i`. */
  function SkipSpaces(s: string, i: nat): (j: nat)
    requires i <= |s|
    ensures i <= j <= |s|
    decreases |s| - i
  {
    if i < |s| && IsSpace(s[i]) then SkipSpaces(s, i + 1) else i
  }

  /** The index of the first non-digit character of `s` at or after `i`. */
  function SkipDigits(s: string, i: nat): (j: nat)
    requires i <= |s|
    ensures i <= j <= |s|
    decreases |s| - i
  {
    if i < |s| && IsDigit(s[i]) then SkipDigits(s, i + 1) else i
  }

  /** SkipSpaces passes over whitespace only, and stops at the first other character. */
  lemma {:induction false} SkipSpacesSpec(s: string, i: nat)
    requires i <= |s|
    ensures forall k :: i <= k < SkipSpaces(s, i) ==> IsSpace(s[k])
    ensures SkipSpaces(s, i) == |s| || !IsSpace(s[SkipSpaces(s, i)])
    decreases |s| - i
  {
    if i < |s| && IsSpace(s[i]) {
      SkipSpacesSpec(s, i + 1);
    }
  }

  /** SkipDigits passes over digits only, and stops at the first other character. */
  lemma {:induction false} SkipDigitsSpec(s: string, i: nat)
    requires i <= |s|
    ensures forall k :: i <= k < SkipDigits(s, i) ==> IsDigit(s[k])
    ensures SkipDigits(s, i) == |s| || !IsDigit(s[SkipDigits(s, i)])
    decreases |s| - i
  {
    if i < |s| && IsDigit(s[i]) {
      SkipDigitsSpec(s, i + 1);
    }
  }

  /** A whitespace run from `i` that ends at `j` is exactly what SkipSpaces skips. */
  lemma {:induction false} SkipSpacesTo(s: string, i: nat, j: nat)
    requires i <= j <= |s|
    requires forall k :: i <= k < j ==> IsSpace(s[k])
    requires j == |s| || !IsSpace(s[j])
    ensures SkipSpaces(s, i) == j
    decreases j - i
  {
    if i < j {
      SkipSpacesTo(s, i + 1, j);
    }
  }

  /** A digit run from `i` that ends at `j` is exactly what SkipDigits skips. */
  lemma {:induction false} SkipDigitsTo(s: string, i: nat, j: nat)
    requires i <= j <= |s|
    requires forall k :: i <= k < j ==> IsDigit(s[k])
    requires j == |s| || !IsDigit(s[j])
    ensures SkipDigits(s, i) == j
    decreases j - i
  {
    if i < j {
      SkipDigitsTo(s, i + 1, j);
    }
  }

  /**
   * `re.match` of the line pattern against `line`: the pieces it matched, or
   * None. The matcher walks the line once, one stage per part of the
   * pattern: whitespace, `[`, digits, an optional point with digits, `]:`,
   * whitespace, and the rest is the text. On a line without a line break
   * (the only kind the parser gives it) this is exactly what the regular
   * expression does.
   */
  function MatchLine(line: string): Option<LineMatch> {
    MatchBracket(line, SkipSpaces(line, 0))
  }

  /** After the indent, ending at `a`: the opening bracket. */
  function MatchBracket(line: string, a: nat): Option<LineMatch>
    requires a <= |line|
  {
    if a == |line| || line[a] != '[' then None else MatchWhole(line, a, SkipDigits(line, a + 1))
  }

  /** After the bracket at `a`: at least one digit, ending at `b`. */
  function MatchWhole(line: string, a: nat, b: nat): Option<LineMatch>
    requires a < b <= |line|
  {
    if b == a + 1 then None else MatchClose(line, a, b, FractionEnd(line, b))
  }

  /** Where `(?:\.\d+)?` starting at `b` ends: after the digits of a fraction, or at `b` itself. */
  function FractionEnd(line: string, b: nat): (c: nat)
    requires b <= |line|
    ensures b <= c <= |line|
  {
    if b + 1 < |line| && line[b] == '.' && IsDigit(line[b + 1]) then SkipDigits(line, b + 1) else b
  }

  /** After the number, ending at `c`: the closing `]:`. */
  function MatchClose(line: string, a: nat, b: nat, c: nat): Option<LineMatch>
    requires a < b <= c <= |line|
  {
    if c + 1 >= |line| || line[c] != ']' || line[c + 1] != ':' then None
    else MatchGap(line, a, b, c, SkipSpaces(line, c + 2))
  }

  /** After `]:`: at least one whitespace character, ending at `e`; the rest is the text. */
  function MatchGap(line: string, a: nat, b: nat, c: nat, e: nat): Option<LineMatch>
    requires a < b <= c && c + 2 <= e <= |line|
  {
    if e == c + 2 then None
    else Some(LineMatch(line[..a], line[a + 1..b], line[b..c], line[c + 2..e], line[e..]))
  }

  /** Whatever the matcher accepts is spelled out by valid pieces. */
  lemma MatchLineSound(line: string)
    ensures MatchLine(line).Some? ==> MatchLine(line).value.Valid() && MatchLine(line).value.Line() == line
  {
    if MatchLine(line).Some? {
      var a := SkipSpaces(line, 0);
      var b := SkipDigits(line, a + 1);
      var c := FractionEnd(line, b);
      var e := SkipSpaces(line, c + 2);
      assert MatchLine(line) == MatchBracket(line, a) == MatchWhole(line, a, b);
      assert MatchWhole(line, a, b) == MatchClose(line, a, b, c) == MatchGap(line, a, b, c, e);
      var m := MatchLine(line).value;
      MatchedPiecesValid(line, m, a, b, c, e);
      MatchedPiecesSpell(line, m, a, b, c, e);
    }
  }

  /** The pieces cut at the stage boundaries satisfy what each part of the pattern admits. */
  lemma MatchedPiecesValid(line: string, m: LineMatch, a: nat, b: nat, c: nat, e: nat)
    requires a == SkipSpaces(line, 0) && a < |line| && line[a] == '['
    requires a + 1 <= |line| && b == SkipDigits(line, a + 1) && b > a + 1
    requires c == FractionEnd(line, b)
    requires c + 2 <= |line| && e == SkipSpaces(line, c + 2) && e > c + 2
    requires m == LineMatch(line[..a], line[a + 1..b], line[b..c], line[c + 2..e], line[e..])
    ensures m.Valid()
  {
    SkippedSpaces(line, 0);
    assert line[..a] == line[0..a];
    SkippedDigits(line, a + 1);
    FractionValid(line, b);
    SkippedSpaces(line, c + 2);
    assert e == |line| || !IsSpace(line[e..][0]);
  }

  /** The run SkipSpaces passes over is all whitespace, and what follows is not. */
  lemma SkippedSpaces(s: string, i: nat)
    requires i <= |s|
    ensures AllSpaces(s[i..SkipSpaces(s, i)])
    ensures SkipSpaces(s, i) == |s| || !IsSpace(s[SkipSpaces(s, i)])
  {
    SkipSpacesSpec(s, i);
    var j := SkipSpaces(s, i);
    forall k | 0 <= k < j - i ensures IsSpace(s[i..j][k]) {
      assert s[i..j][k] == s[i + k];
    }
  }

  /** The run SkipDigits passes over is all digits. */
  lemma SkippedDigits(s: string, i: nat)
    requires i <= |s|
    ensures AllDigits(s[i..SkipDigits(s, i)])
  {
    SkipDigitsSpec(s, i);
    var j := SkipDigits(s, i);
    forall k | 0 <= k < j - i ensures IsDigit(s[i..j][k]) {
      assert s[i..j][k] == s[i + k];
    }
  }

  /** What FractionEnd passes over is a fraction. */
  lemma FractionValid(s: string, b: nat)
    requires b <= |s|
    ensures IsFraction(s[b..FractionEnd(s, b)])
  {
    var c := FractionEnd(s, b);
    if c != b {
      SkippedDigits(s, b + 1);
      assert s[b..c][1..] == s[b + 1..c];
    }
  }

  /** The pieces cut at the stage boundaries spell the line back. */
  lemma MatchedPiecesSpell(line: string, m: LineMatch, a: nat, b: nat, c: nat, e: nat)
    requires a < |line| && line[a] == '['
    requires a + 1 <= b <= c && c + 2 <= e <= |line|
    requires line[c] == ']' && line[c + 1] == ':'
    requires m == LineMatch(line[..a], line[a + 1..b], line[b..c], line[c + 2..e], line[e..])
    ensures m.Line() == line
  {
    var r5 := Glue(line, c + 2, e, m.gap, m.text);
    assert line[c..c + 2] == "]:";
    var r4 := Glue(line, c, c + 2, "]:", r5);
    var r3 := Glue(line, b, c, m.fraction, r4);
    var r2 := Glue(line, a + 1, b, m.whole, r3);
    assert line[a..a + 1] == "[";
    var r1 := Glue(line, a, a + 1, "[", r2);
    TakeDrop(line, a);
  }

  /** A slice of `s` from `x` to `y` that equals `p`, followed by the tail `r`, gives the tail from `x`. */
  lemma Glue(s: string, x: nat, y: nat, p: string, r: string) returns (t: string)
    requires x <= y <= |s| && s[x..y] == p && s[y..] == r
    ensures t == p + r && s[x..] == t
  {
    DropSplit(s, x, y);
    t := p + r;
  }

  /** Where `s` continues at `x` with `p` and then `r`: `p` occupies `x` to `y`, and `r` follows. */
  lemma Segment(s: string, x: nat, y: nat, p: string, r: string)
    requires x <= |s| && s[x..] == p + r && y == x + |p|
    ensures y <= |s| && s[x..y] == p && s[y..] == r
  {
    assert s[y..] == s[x..][|p|..];
    assert s[x..y] == s[x..][..|p|];
  }

  /** A character inside a slice of `s` that is known to equal `p`. */
  lemma SliceChar(s: string, x: nat, y: nat, p: string, i: nat)
    requires x <= i < y <= |s| && s[x..y] == p
    ensures s[i] == p[i - x]
  {
    assert s[i] == s[x..y][i - x];
  }

  /** Every valid set of pieces is matched, and split up exactly as given. */
  lemma MatchLineComplete(m: LineMatch)
    requires m.Valid()
    ensures MatchLine(m.Line()) == Some(m)
  {
    var line := m.Line();
    var a := |m.indent|;
    var b := a + 1 + |m.whole|;
    var c := b + |m.fraction|;
    var e := c + 2 + |m.gap|;
    var r5 := m.gap + m.text;
    var r4 := "]:" + r5;
    var r3 := m.fraction + r4;
    var r2 := m.whole + r3;
    var r1 := "[" + r2;
    PiecesAt(line, m.indent, m.whole, m.fraction, m.gap, m.text, r1, r2, r3, r4, r5, a, b, c, e);
    MatchPieces(line, m, a, b, c, e);
  }

  /**
   * Where the pieces sit in the line they spell. The remainder after each
   * piece is named, so that no step looks at more than one piece.
   */
  lemma PiecesAt(line: string, indent: string, whole: string, fraction: string, gap: string, text: string,
                 r1: string, r2: string, r3: string, r4: string, r5: string, a: nat, b: nat, c: nat, e: nat)
    requires r5 == gap + text && r4 == "]:" + r5 && r3 == fraction + r4
    requires r2 == whole + r3 && r1 == "[" + r2 && line == indent + r1
    requires a == |indent| && b == a + 1 + |whole| && c == b + |fraction| && e == c + 2 + |gap|
    ensures e <= |line|
    ensures line[..a] == indent && line[a] == '[' && line[a + 1..b] == whole
    ensures line[b..c] == fraction && line[c] == ']' && line[c + 1] == ':'
    ensures line[c + 2..e] == gap && line[e..] == text
  {
    HeadPiecesAt(line, indent, whole, r1, r2, r3, a, b);
    TailPiecesAt(line, fraction, gap, text, r3, r4, r5, b, c, e);
  }

  /** The indent, the opening bracket and the integer digits, up to the remainder `r3` at `b`. */
  lemma HeadPiecesAt(line: string, indent: string, whole: string, r1: string, r2: string, r3: string, a: nat, b: nat)
    requires r2 == whole + r3 && r1 == "[" + r2 && line == indent + r1
    requires a == |indent| && b == a + 1 + |whole|
    ensures b <= |line|
    ensures line[..a] == indent && line[a] == '[' && line[a + 1..b] == whole && line[b..] == r3
  {
    Segment(line, 0, a, indent, r1);
    Segment(line, a, a + 1, "[", r2);
    Segment(line, a + 1, b, whole, r3);
    SliceChar(line, a, a + 1, "[", a);
    assert line[..a] == line[0..a];
  }

  /** From the remainder `r3` at `b`: the fraction, the closing `]:`, the gap and the text. */
  lemma TailPiecesAt(line: string, fraction: string, gap: string, text: string, r3: string, r4: string, r5: string,
                     b: nat, c: nat, e: nat)
    requires b <= |line| && line[b..] == r3
    requires r5 == gap + text && r4 == "]:" + r5 && r3 == fraction + r4
    requires c == b + |fraction| && e == c + 2 + |gap|
    ensures e <= |line|
    ensures line[b..c] == fraction && line[c] == ']' && line[c + 1] == ':'
    ensures line[c + 2..e] == gap && line[e..] == text
  {
    Segment(line, b, c, fraction, r4);
    Segment(line, c, c + 2, "]:", r5);
    Segment(line, c + 2, e, gap, text);
    SliceChar(line, c, c + 2, "]:", c);
    SliceChar(line, c, c + 2, "]:", c + 1);
  }

  /** The matcher on a line whose pieces sit at the given positions. */
  lemma MatchPieces(line: string, m: LineMatch, a: nat, b: nat, c: nat, e: nat)
    requires m.Valid()
    requires a < b <= c && c + 2 <= e <= |line|
    requires line[..a] == m.indent && line[a] == '[' && line[a + 1..b] == m.whole
    requires line[b..c] == m.fraction && line[c] == ']' && line[c + 1] == ':'
    requires line[c + 2..e] == m.gap && line[e..] == m.text
    ensures MatchLine(line) == Some(m)
  {
    IndentEndsAt(line, m.indent, a);
    WholeEndsAt(line, m, a, b, c);
    FractionEndAt(line, m, b, c);
    GapEndsAt(line, m, c, e);
    assert MatchLine(line) == MatchBracket(line, a) == MatchWhole(line, a, b);
    assert MatchWhole(line, a, b) == MatchClose(line, a, b, c) == MatchGap(line, a, b, c, e);
  }

  /** The leading whitespace stage stops right after a valid indent. */
  lemma IndentEndsAt(line: string, indent: string, a: nat)
    requires AllSpaces(indent)
    requires a < |line| && line[..a] == indent && line[a] == '['
    ensures SkipSpaces(line, 0) == a
  {
    forall k | 0 <= k < a ensures IsSpace(line[k]) {
      assert line[k] == line[..a][k];
    }
    SkipSpacesTo(line, 0, a);
  }

  /** The digit stage stops right after the integer part. */
  lemma WholeEndsAt(line: string, m: LineMatch, a: nat, b: nat, c: nat)
    requires AllDigits(m.whole) && IsFraction(m.fraction)
    requires a < b <= c < |line| && line[a + 1..b] == m.whole
    requires line[b..c] == m.fraction && line[c] == ']'
    ensures SkipDigits(line, a + 1) == b
  {
    forall k | a + 1 <= k < b ensures IsDigit(line[k]) {
      assert line[k] == line[a + 1..b][k - a - 1];
    }
    if b < c {
      assert line[b] == line[b..c][0];
    }
    SkipDigitsTo(line, a + 1, b);
  }

  /** The whitespace stage after `]:` stops right after the gap. */
  lemma GapEndsAt(line: string, m: LineMatch, c: nat, e: nat)
    requires IsGapAndText(m.gap, m.text)
    requires c + 2 <= e <= |line| && line[c + 2..e] == m.gap && line[e..] == m.text
    ensures SkipSpaces(line, c + 2) == e
  {
    forall k | c + 2 <= k < e ensures IsSpace(line[k]) {
      assert line[k] == line[c + 2..e][k - c - 2];
    }
    assert e == |line| || line[e] == m.text[0];
    SkipSpacesTo(line, c + 2, e);
  }

  /** The fraction stage stops right after the fraction piece. */
  lemma FractionEndAt(line: string, m: LineMatch, b: nat, c: nat)
    requires IsFraction(m.fraction)
    requires b <= c < |line| && line[b..c] == m.fraction && line[c] == ']'
    ensures FractionEnd(line, b) == c
  {
    if b < c {
      assert line[b] == m.fraction[0];
      assert line[b + 1] == m.fraction[1];
      forall k | b + 1 <= k < c ensures IsDigit(line[k]) {
        assert line[k] == line[b..c][k - b];
      }
      SkipDigitsTo(line, b + 1, c);
    }
  }

  /**
   * The matcher accepts exactly the lines that the pattern's pieces can
   * spell out, and splits each one in the only way possible.
   */
  lemma MatchLineExactly(line: string, m: LineMatch)
    ensures MatchLine(line) == Some(m) <==> m.Valid() && m.Line() == line
  {
    MatchLineSound(line);
    if m.Valid() && m.Line() == line {
      MatchLineComplete(m);
    }
  }

  /**
   * One line's record, if it matches: the timestamp is the integer part of
   * the number in brackets (`int(float(...))` of a non-negative number
   * truncates the fraction), the text is the rest of the line after the
   * whitespace that follows `]:`.
   */
  function ParseLine(line: string): Option<SectionSummary> {
    match MatchLine(line)
    case None => None
    case Some(m) =>
      MatchLineSound(line);
      Some(SectionSummary(DigitsValue(m.whole), m.text))
  }

  /**
   * A record's timestamp is a non-negative whole number of seconds, and its
   * text is a line that does not begin with whitespace.
   */
  lemma ParseLineRecord(line: string)
    requires IsLine(line)
    ensures ParseLine(line).Some? ==> ParseLine(line).value.timestampSeconds >= 0
    ensures ParseLine(line).Some? ==> WellFormedText(ParseLine(line).value.text)
  {
    MatchLineSound(line);
    if MatchLine(line).Some? {
      var m := MatchLine(line).value;
      assert line == m.indent + ("[" + (m.whole + (m.fraction + ("]:" + (m.gap + m.text)))));
      assert forall c :: c in m.text ==> c in line;
    }
  }

  /** A line built from valid pieces parses to its integer part and its text. */
  lemma ParseWellFormedLine(line: string, m: LineMatch)
    requires m.Valid() && m.Line() == line
    ensures ParseLine(line) == Some(SectionSummary(DigitsValue(m.whole), m.text))
  {
    MatchLineComplete(m);
  }

  /**
   * The line format the summarizing prompt asks the model for, `[31]: summary`,
   * parses back to the record it was written from.
   */
  lemma ParsePromptFormat(s: SectionSummary)
    requires s.timestampSeconds >= 0 && WellFormedText(s.text)
    ensures ParseLine("[" + NatToDecimal(s.timestampSeconds) + "]: " + s.text) == Some(s)
  {
    var digits := NatToDecimal(s.timestampSeconds);
    var m := LineMatch("", digits, "", " ", s.text);
    ParseWellFormedLine("[" + digits + "]: " + s.text, m);
    DigitsValueOfDecimal(s.timestampSeconds);
  }

  /** The records of the matching lines, in the order of the lines. */
  function ParseLines(lines: seq<string>): (r: seq<SectionSummary>)
    requires AllLines(lines)
    ensures |r| <= |lines|
    ensures forall k :: 0 <= k < |r| ==> r[k].timestampSeconds >= 0
    ensures forall k :: 0 <= k < |r| ==> WellFormedText(r[k].text)
  {
    if |lines| == 0 then []
    else
      var last := lines[|lines| - 1];
      var init := ParseLines(lines[..|lines| - 1]);
      ParseLineRecord(last);
      match ParseLine(last)
      case None => init
      case Some(s) => init + [s]
  }

  /**
   * Parsing distributes over concatenation of the input lines: records come
   * out grouped by the lines they came from, in the same order, with no
   * sorting and no removal of duplicates.
   */
  lemma {:induction false} ParseLinesAppend(a: seq<string>, b: seq<string>)
    requires AllLines(a)
    requires AllLines(b)
    ensures ParseLines(a + b) == ParseLines(a) + ParseLines(b)
    decreases |b|
  {
    if |b| == 0 {
      assert a + b == a;
    } else {
      var b' := b[..|b| - 1];
      assert (a + b)[..|a + b| - 1] == a + b';
      assert (a + b)[|a + b| - 1] == b[|b| - 1];
      ParseLinesAppend(a, b');
    }
  }

  /** A single line gives one record if it matches and none otherwise. */
  lemma ParseOneLine(line: string)
    requires IsLine(line)
    ensures ParseLines([line]) == if ParseLine(line).Some? then [ParseLine(line).value] else []
  {
    assert [line][..0] == [];
  }

  /**
   * `_parse_section_summaries_text`: split the text on newlines and append
   * the record of every matching line.
   */
  method ParseSectionSummariesText(text: string) returns (parsedLines: seq<SectionSummary>)
    ensures parsedLines == ParseLines(Split(text, '\n'))
    ensures |parsedLines| <= Count('\n', text) + 1
  {
    var lines := Split(text, '\n');
    parsedLines := [];
    for i := 0 to |lines|
      invariant parsedLines == ParseLines(lines[..i])
    {
      assert lines[..i + 1][..i] == lines[..i];
      var parsed := ParseLine(lines[i]);
      if parsed.Some? {
        parsedLines := parsedLines + [parsed.value];
      }
    }
    assert lines[..|lines|] == lines;
  }

  /** A line in the requested format is accepted. */
  lemma ParseExampleInteger()
    ensures ParseLine("[31]: Intro to topic") == Some(SectionSummary(31, "Intro to topic"))
  {
    IntegerPieces();
    IntegerSpelling();
    ParseWellFormedLine("[31]: Intro to topic", LineMatch("", "31", "", " ", "Intro to topic"));
  }

  /** The pieces of `[31]: Intro to topic`. */
  lemma IntegerPieces()
    ensures LineMatch("", "31", "", " ", "Intro to topic").Valid()
    ensures DigitsValue("31") == 31
  {
  }

  /** Those pieces spell `[31]: Intro to topic`. */
  lemma IntegerSpelling()
    ensures LineMatch("", "31", "", " ", "Intro to topic").Line() == "[31]: Intro to topic"
  {
  }

  /** Leading whitespace is skipped and a fractional timestamp is truncated. */
  lemma ParseExampleFraction()
    ensures ParseLine("  [45.7]: Something") == Some(SectionSummary(45, "Something"))
  {
    FractionPieces();
    FractionSpelling();
    ParseWellFormedLine("  [45.7]: Something", LineMatch("  ", "45", ".7", " ", "Something"));
  }

  /** The pieces of `  [45.7]: Something`. */
  lemma FractionPieces()
    ensures LineMatch("  ", "45", ".7", " ", "Something").Valid()
    ensures DigitsValue("45") == 45
  {
    assert ".7"[1..] == "7";
  }

  /** Those pieces spell `  [45.7]: Something`. */
  lemma FractionSpelling()
    ensures LineMatch("  ", "45", ".7", " ", "Something").Line() == "  [45.7]: Something"
  {
  }

  /** All whitespace after `]:` is skipped; a carriage return at the end stays in the text. */
  lemma ParseExampleSpacing()
    ensures ParseLine("[7]:  \tspaced\r") == Some(SectionSummary(7, "spaced\r"))
  {
    SpacingPieces();
    SpacingSpelling();
    ParseWellFormedLine("[7]:  \tspaced\r", LineMatch("", "7", "", "  \t", "spaced\r"));
  }

  /** The pieces of a line with a tab in its gap and a carriage return at its end. */
  lemma SpacingPieces()
    ensures LineMatch("", "7", "", "  \t", "spaced\r").Valid()
    ensures DigitsValue("7") == 7
  {
  }

  /** Those pieces spell the line. */
  lemma SpacingSpelling()
    ensures LineMatch("", "7", "", "  \t", "spaced\r").Line() == "[7]:  \tspaced\r"
  {
  }

  /** A line without a leading bracketed number is dropped. */
  lemma RejectExampleNoTimestamp()
    ensures ParseLine("no timestamp here") == None
  {
  }

  /** A line without whitespace after `]:` is dropped. */
  lemma RejectExampleNoGap()
    ensures ParseLine("[31]:x") == None
  {
    var line := "[31]:x";
    SkipDigitsTo(line, 1, 3);
    assert FractionEnd(line, 3) == 3;
    assert SkipSpaces(line, 5) == 5;
    assert MatchLine(line) == MatchWhole(line, 0, 3) == MatchClose(line, 0, 3, 3) == None;
  }

  /** A line with a point that no digit follows is dropped. */
  lemma RejectExampleBareFraction()
    ensures ParseLine("[45.]: x") == None
  {
    var line := "[45.]: x";
    SkipDigitsTo(line, 1, 3);
    assert FractionEnd(line, 3) == 3;
    assert MatchLine(line) == MatchWhole(line, 0, 3) == MatchClose(line, 0, 3, 3) == None;
  }
}
