/**
 * What the command prints about the chapters: `pretty_timestamp`, which
 * writes a number of seconds as `H:M:S` with Python's `divmod` and no
 * zero-padding; `get_pretty_section_summary_text`, which renders each chapter
 * as a console link to its second of the video followed by its text, one per
 * line; and the join in `generate_summary` that hands the chapter texts to the
 * overall summary.
 */
module Presentation {
  import opened Wrappers
  import opened Strings
  import opened SectionSummarizer

  /** Hours, minutes and seconds of a clock reading. */
  datatype Clock = Clock(hours: int, minutes: int, seconds: int)

  /**
   * `divmod(n, 3600)` and then `divmod(remainder, 60)`. With a positive
   * divisor Python's floor division and modulo agree with Dafny's `/` and
   * `%` for every integer, negative ones included.
   */
  function ClockOf(n: int): Clock {
    var hours := n / 3600;
    var remainder := n % 3600;
    Clock(hours, remainder / 60, remainder % 60)
  }

  /** The reading adds back up to `n`, with minutes and seconds below 60. */
  lemma ClockOfSound(n: int)
    ensures ClockOf(n).hours * 3600 + ClockOf(n).minutes * 60 + ClockOf(n).seconds == n
    ensures 0 <= ClockOf(n).minutes < 60 && 0 <= ClockOf(n).seconds < 60
  {
  }

  /** The decomposition is the only one with minutes and seconds in range. */
  lemma ClockOfUnique(n: int, clock: Clock)
    requires clock.hours * 3600 + clock.minutes * 60 + clock.seconds == n
    requires 0 <= clock.minutes < 60 && 0 <= clock.seconds < 60
    ensures ClockOf(n) == clock
  {
    var r := clock.minutes * 60 + clock.seconds;
    assert 0 <= r < 3600;
    assert n == clock.hours * 3600 + r;
    assert n / 3600 == clock.hours && n % 3600 == r;
    assert r / 60 == clock.minutes && r % 60 == clock.seconds;
  }

  /** `f"{hours}:{minutes}:{seconds}"`: each field as `str(int)` writes it. */
  function PrettyTimestamp(n: int): string {
    var clock := ClockOf(n);
    IntToDecimal(clock.hours) + ":" + IntToDecimal(clock.minutes) + ":" + IntToDecimal(clock.seconds)
  }

  /** The three fields, as the pieces between the two colons. */
  function ClockFields(clock: Clock): seq<string> {
    [IntToDecimal(clock.hours), IntToDecimal(clock.minutes), IntToDecimal(clock.seconds)]
  }

  /** The rendered clock is its three fields joined by colons, none of which holds a colon. */
  lemma ClockFieldsSplit(clock: Clock)
    ensures forall i :: 0 <= i < 3 ==> ':' !in ClockFields(clock)[i]
    ensures IntToDecimal(clock.hours) + ":" + IntToDecimal(clock.minutes) + ":" + IntToDecimal(clock.seconds)
         == Join(ClockFields(clock), ':')
    ensures Count(':', Join(ClockFields(clock), ':')) == 2
  {
    var parts := ClockFields(clock);
    forall i | 0 <= i < 3 ensures ':' !in parts[i] {
      var n := if i == 0 then clock.hours else if i == 1 then clock.minutes else clock.seconds;
      if ':' in parts[i] {
        NumeralCharacters(n, ':');
      }
    }
    assert parts[1..][1..] == [parts[2]];
    assert Join(parts[1..], ':') == parts[1] + ":" + parts[2];
    SplitJoin(parts, ':');
  }

  /**
   * Reads `H:M:S` back: exactly three colon-separated integers, combined as
   * hours, minutes and seconds.
   */
  function ReadTimestamp(t: string): Option<int> {
    var fields := Split(t, ':');
    if |fields| != 3 then None
    else
      match (ParseInt(fields[0]), ParseInt(fields[1]), ParseInt(fields[2]))
      case (Some(h), Some(m), Some(s)) => Some(h * 3600 + m * 60 + s)
      case _ => None
  }

  /** Every number of seconds, negative ones included, reads back from its rendering. */
  lemma ReadPrettyTimestamp(n: int)
    ensures ReadTimestamp(PrettyTimestamp(n)) == Some(n)
  {
    var clock := ClockOf(n);
    ClockFieldsSplit(clock);
    SplitJoin(ClockFields(clock), ':');
    ParseIntToDecimal(clock.hours);
    ParseIntToDecimal(clock.minutes);
    ParseIntToDecimal(clock.seconds);
  }

  /** Distinct numbers of seconds are rendered differently. */
  lemma PrettyTimestampInjective(n: int, n': int)
    requires PrettyTimestamp(n) == PrettyTimestamp(n')
    ensures n == n'
  {
    ReadPrettyTimestamp(n);
    ReadPrettyTimestamp(n');
  }

  /** The fields are not padded: zero is `0`, and a field below ten has one digit. */
  lemma PrettyTimestampSmallExamples()
    ensures PrettyTimestamp(0) == "0:0:0"
    ensures PrettyTimestamp(3661) == "1:1:1"
  {
    assert ClockOf(0) == Clock(0, 0, 0);
    assert ClockOf(3661) == Clock(1, 1, 1);
  }

  /** A field of two digits. */
  lemma PrettyTimestampTwoDigitExample()
    ensures PrettyTimestamp(59) == "0:0:59"
  {
    assert ClockOf(59) == Clock(0, 0, 59);
    assert NatToDecimal(5) == "5" && NatToDecimal(9) == "9";
    assert IntToDecimal(59) == NatToDecimal(5) + [DigitChar(9)];
  }

  /** A negative count floors into the previous hour, as `divmod` does. */
  lemma PrettyTimestampNegativeExample()
    ensures PrettyTimestamp(-1) == "-1:59:59"
  {
    assert ClockOf(-1) == Clock(-1, 59, 59);
    assert NatToDecimal(5) == "5" && NatToDecimal(9) == "9";
    assert IntToDecimal(59) == NatToDecimal(5) + [DigitChar(9)];
  }

  /**
   * One chapter as `[link=<url>&t=<seconds>]<H:M:S>[/link]: <text>`: the
   * link carries the raw number of seconds, the caption the same number as a
   * clock reading.
   */
  function PrettySummary(url: string, s: SectionSummary): string {
    var link := url + "&t=" + IntToDecimal(s.timestampSeconds);
    "[link=" + link + "]" + PrettyTimestamp(s.timestampSeconds) + "[/link]: " + s.text
  }

  /** Applies `f` to every element, keeping the order. */
  function MapSeq<A, B>(f: A -> B, s: seq<A>): (r: seq<B>)
    ensures |r| == |s|
  {
    if |s| == 0 then [] else MapSeq(f, s[..|s| - 1]) + [f(s[|s| - 1])]
  }

  /** The element at each position is the image of the element at that position. */
  lemma {:induction false} MapSeqAt<A, B>(f: A -> B, s: seq<A>, k: nat)
    requires k < |s|
    ensures MapSeq(f, s)[k] == f(s[k])
    decreases |s|
  {
    var n := |s| - 1;
    if k < n {
      assert s[..n][k] == s[k];
      MapSeqAt(f, s[..n], k);
    }
  }

  /** Mapping a concatenation maps each part in turn. */
  lemma {:induction false} MapSeqAppend<A, B>(f: A -> B, a: seq<A>, b: seq<A>)
    ensures MapSeq(f, a + b) == MapSeq(f, a) + MapSeq(f, b)
    decreases |b|
  {
    if |b| == 0 {
      assert a + b == a;
    } else {
      var b' := b[..|b| - 1];
      assert (a + b)[..|a + b| - 1] == a + b';
      assert (a + b)[|a + b| - 1] == b[|b| - 1];
      MapSeqAppend(f, a, b');
    }
  }

  /** The rendering of one chapter, for a fixed url. */
  function RenderWith(url: string): SectionSummary -> string {
    s => PrettySummary(url, s)
  }

  /** The rendered chapters, one per summary and in the same order. */
  function PrettySummaries(url: string, summaries: seq<SectionSummary>): (r: seq<string>)
    ensures |r| == |summaries|
  {
    MapSeq(RenderWith(url), summaries)
  }

  /** The entry at each position renders the summary at that position. */
  lemma PrettySummariesAt(url: string, summaries: seq<SectionSummary>, k: nat)
    requires k < |summaries|
    ensures PrettySummaries(url, summaries)[k] == PrettySummary(url, summaries[k])
  {
    MapSeqAt(RenderWith(url), summaries, k);
  }

  /** Rendering a concatenation of summary lists renders each list in turn: order is kept. */
  lemma PrettySummariesAppend(url: string, a: seq<SectionSummary>, b: seq<SectionSummary>)
    ensures PrettySummaries(url, a + b) == PrettySummaries(url, a) + PrettySummaries(url, b)
  {
    MapSeqAppend(RenderWith(url), a, b);
  }

  /** A rendered timestamp holds digits, minus signs and colons only. */
  lemma PrettyTimestampCharacters(n: int, c: char)
    requires c in PrettyTimestamp(n)
    ensures IsDigit(c) || c == '-' || c == ':'
  {
    var clock := ClockOf(n);
    var h, m, sec := IntToDecimal(clock.hours), IntToDecimal(clock.minutes), IntToDecimal(clock.seconds);
    assert PrettyTimestamp(n) == h + ":" + m + ":" + sec;
    if c in h {
      NumeralCharacters(clock.hours, c);
    } else if c in m {
      NumeralCharacters(clock.minutes, c);
    } else if c in sec {
      NumeralCharacters(clock.seconds, c);
    }
  }

  /** So a rendered timestamp never holds a line break. */
  lemma PrettyTimestampIsLine(n: int)
    ensures IsLine(PrettyTimestamp(n))
  {
    if '\n' in PrettyTimestamp(n) {
      PrettyTimestampCharacters(n, '\n');
    }
  }


  /** A chapter whose url and text are single lines renders as a single line. */
  lemma PrettySummaryIsLine(url: string, s: SectionSummary)
    requires IsLine(url) && IsLine(s.text)
    ensures IsLine(PrettySummary(url, s))
  {
    PrettyTimestampIsLine(s.timestampSeconds);
    if '\n' in IntToDecimal(s.timestampSeconds) {
      NumeralCharacters(s.timestampSeconds, '\n');
    }
  }

  /**
   * When the url and every text are single lines, the printed block has
   * exactly one line per chapter, in order.
   */
  lemma PrettyTextLines(url: string, summaries: seq<SectionSummary>)
    requires IsLine(url)
    requires forall k :: 0 <= k < |summaries| ==> IsLine(summaries[k].text)
    requires |summaries| > 0
    ensures Split(Join(PrettySummaries(url, summaries), '\n'), '\n') == PrettySummaries(url, summaries)
  {
    var lines := PrettySummaries(url, summaries);
    forall k | 0 <= k < |lines| ensures '\n' !in lines[k] {
      PrettySummariesAt(url, summaries, k);
      PrettySummaryIsLine(url, summaries[k]);
    }
    SplitJoin(lines, '\n');
  }

  /**
   * Reads a rendered chapter back, given the url it links to: the number in
   * the link, then the caption, which must read as a clock giving the same
   * number, then the text.
   */
  function ReadPrettySummary(url: string, entry: string): Option<SectionSummary> {
    var opening := "[link=" + url + "&t=";
    if |entry| < |opening| || entry[..|opening|] != opening then None
    else
      var rest := entry[|opening|..];
      var close := IndexOf(rest, ']');
      if close == |rest| then None
      else
        var seconds := ParseInt(rest[..close]);
        if seconds.None? then None
        else
          match ReadCaption(seconds.value, rest[close + 1..])
          case None => None
          case Some(text) => Some(SectionSummary(seconds.value, text))
  }

  /**
   * Reads `<H:M:S>[/link]: <text>`: the clock up to the first `[` must read
   * back as `seconds`; what follows the closing tag is the text.
   */
  function ReadCaption(seconds: int, tail: string): Option<string> {
    var open := IndexOf(tail, '[');
    var closing := "[/link]: ";
    var after := tail[open..];
    if ReadTimestamp(tail[..open]) != Some(seconds) || |after| < |closing| || after[..|closing|] != closing then None
    else Some(after[|closing|..])
  }

  /**
   * Every chapter reads back from its rendering: the link and the caption
   * carry the same number of seconds, and the text follows verbatim.
   */
  lemma ReadPrettySummaryInverse(url: string, s: SectionSummary)
    ensures ReadPrettySummary(url, PrettySummary(url, s)) == Some(s)
  {
    var numeral := IntToDecimal(s.timestampSeconds);
    var clock := PrettyTimestamp(s.timestampSeconds);
    EntryShape(url, numeral, clock, s.text);
    if ']' in numeral {
      NumeralCharacters(s.timestampSeconds, ']');
    }
    if '[' in clock {
      PrettyTimestampCharacters(s.timestampSeconds, '[');
    }
    ParseIntToDecimal(s.timestampSeconds);
    ReadPrettyTimestamp(s.timestampSeconds);
    ReadCaptionOf(clock, s.text, s.timestampSeconds);
    ReadEntry(url, PrettySummary(url, s), numeral, clock + ("[/link]: " + s.text), s);
  }

  /** A caption whose clock reads back as `seconds` gives back the text after it. */
  lemma ReadCaptionOf(clock: string, text: string, seconds: int)
    requires '[' !in clock && ReadTimestamp(clock) == Some(seconds)
    ensures ReadCaption(seconds, clock + ("[/link]: " + text)) == Some(text)
  {
    var after := "[/link]: " + text;
    assert after == ['['] + ("/link]: " + text);
    IndexOfAfter(clock, '[', "/link]: " + text);
    ConcatHalves(clock, after);
    ConcatHalves("[/link]: ", text);
  }

  /** The reader takes an entry apart at the pieces the rendering put together. */
  lemma ReadEntry(url: string, entry: string, numeral: string, tail: string, s: SectionSummary)
    requires entry == ("[link=" + url + "&t=") + (numeral + ("]" + tail))
    requires ']' !in numeral && ParseInt(numeral) == Some(s.timestampSeconds)
    requires ReadCaption(s.timestampSeconds, tail) == Some(s.text)
    ensures ReadPrettySummary(url, entry) == Some(s)
  {
    var opening := "[link=" + url + "&t=";
    var rest := numeral + ("]" + tail);
    ConcatHalves(opening, rest);
    IndexOfAfter(numeral, ']', tail);
    ConcatHalves(numeral, "]" + tail);
    AfterSeparator(numeral, ']', tail);
  }

  /** The rendering regrouped around the pieces the reader looks for. */
  lemma EntryShape(url: string, numeral: string, clock: string, text: string)
    ensures "[link=" + (url + "&t=" + numeral) + "]" + clock + "[/link]: " + text
         == ("[link=" + url + "&t=") + (numeral + ("]" + (clock + ("[/link]: " + text))))
  {
  }

  /**
   * `get_pretty_section_summary_text`: append the rendering of every
   * summary to a list, then join the list with newlines.
   */
  method GetPrettySectionSummaryText(url: string, sectionSummaries: seq<SectionSummary>) returns (text: string)
    ensures text == Join(PrettySummaries(url, sectionSummaries), '\n')
    ensures |sectionSummaries| == 0 ==> text == ""
  {
    var prettySummaries: seq<string> := [];
    for i := 0 to |sectionSummaries|
      invariant prettySummaries == PrettySummaries(url, sectionSummaries[..i])
    {
      assert sectionSummaries[..i + 1][..i] == sectionSummaries[..i];
      var timestampSeconds := sectionSummaries[i].timestampSeconds;
      var link := url + "&t=" + IntToDecimal(timestampSeconds);
      var timestampPretty := PrettyTimestamp(timestampSeconds);
      var summary := "[link=" + link + "]" + timestampPretty + "[/link]: " + sectionSummaries[i].text;
      prettySummaries := prettySummaries + [summary];
    }
    assert sectionSummaries[..|sectionSummaries|] == sectionSummaries;
    text := Join(prettySummaries, '\n');
  }

  /** The chapter texts, in order, without their timestamps. */
  function SectionTexts(summaries: seq<SectionSummary>): (texts: seq<string>)
    ensures |texts| == |summaries|
    ensures forall k :: 0 <= k < |texts| ==> texts[k] == summaries[k].text
  {
    if |summaries| == 0 then []
    else SectionTexts(summaries[..|summaries| - 1]) + [summaries[|summaries| - 1].text]
  }

  /** The input of the overall summary in `generate_summary`: the chapter texts joined by newlines. */
  function SerializeSectionSummaries(summaries: seq<SectionSummary>): string {
    Join(SectionTexts(summaries), '\n')
  }

  /**
   * When every chapter text is a single line, the serialized chapters split
   * back into exactly those texts, in order; no chapters give the empty
   * string.
   */
  lemma SerializedSectionLines(summaries: seq<SectionSummary>)
    requires forall k :: 0 <= k < |summaries| ==> IsLine(summaries[k].text)
    ensures |summaries| == 0 ==> SerializeSectionSummaries(summaries) == ""
    ensures |summaries| > 0 ==> Split(SerializeSectionSummaries(summaries), '\n') == SectionTexts(summaries)
  {
    if |summaries| > 0 {
      SplitJoin(SectionTexts(summaries), '\n');
    }
  }

  /**
   * A non-empty parse serializes back into its own texts, one per line,
   * because a parsed text never holds a line break.
   */
  lemma SerializeParsedSections(text: string)
    ensures var summaries := ParseLines(Split(text, '\n'));
      |summaries| > 0 ==> Split(SerializeSectionSummaries(summaries), '\n') == SectionTexts(summaries)
  {
    var summaries := ParseLines(Split(text, '\n'));
    SerializedSectionLines(summaries);
  }
}
