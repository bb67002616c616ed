/**
 * `get_transcripts`: fetch the English captions of a video and flatten them
 * into text for the summarizer. The caption service's answer is a parameter
 * here: captions are disabled, or listing failed with another error of the
 * service, which is passed on unchanged, or there is a list of transcripts
 * kept by language code, manually created ones apart from generated ones. A
 * manually created English transcript is preferred and the generated one is
 * the fallback; the cues of the chosen transcript, minus the ones that only
 * say `[Music]`, become `start: text` lines joined by newlines.
 */
module Transcript {
  import opened Wrappers
  import opened Strings

  /**
   * One caption cue as the caption service returns it: its start time, as
   * Python renders the float it is given in, and its text.
   */
  datatype Cue = Cue(start: string, text: string)

  /** A caption track in one language, with its cues in the order of the video. */
  datatype Transcript = Transcript(languageCode: string, isGenerated: bool, cues: seq<Cue>)

  /** The transcripts of a video by language code, manually created ones apart from generated ones. */
  datatype TranscriptList = TranscriptList(manuallyCreated: map<string, Transcript>, generated: map<string, Transcript>)

  /**
   * What listing a video's transcripts gives: the refusal for disabled
   * captions, any other error of the caption service (an unavailable video,
   * an invalid id, too many requests, ...), or the list.
   */
  datatype Listing = TranscriptsDisabled | ListingFailed(reason: string) | Listed(transcripts: TranscriptList)

  /**
   * Why no text came out: the exception raised with a message when captions
   * are disabled, an error of the caption service passed on unchanged, or
   * the caption service's own not-found error for the requested languages.
   */
  datatype TranscriptError =
    | Failure(message: string)
    | ServiceError(reason: string)
    | NoTranscriptFound(requestedLanguageCodes: seq<string>)

  const DisabledMessage: string := "Transcripts are disabled for this video"

  /** The cue text that is left out of the flattened captions. */
  const MusicCue: string := "[Music]"

  /** The languages asked for, in order of preference. */
  const RequestedLanguageCodes: seq<string> := ["en"]

  /** The transcript of the first requested language that is present, if any. */
  function FindTranscript(byLanguage: map<string, Transcript>, languageCodes: seq<string>): Option<Transcript> {
    if |languageCodes| == 0 then None
    else if languageCodes[0] in byLanguage then Some(byLanguage[languageCodes[0]])
    else FindTranscript(byLanguage, languageCodes[1..])
  }

  /**
   * A transcript is found exactly when some requested language is present,
   * and it is the one of the earliest such language.
   */
  lemma {:induction false} FindTranscriptSpec(byLanguage: map<string, Transcript>, languageCodes: seq<string>)
    ensures FindTranscript(byLanguage, languageCodes).Some? <==>
            exists i :: 0 <= i < |languageCodes| && languageCodes[i] in byLanguage
    ensures FindTranscript(byLanguage, languageCodes).Some? ==>
            exists i :: 0 <= i < |languageCodes| && languageCodes[i] in byLanguage
              && FindTranscript(byLanguage, languageCodes).value == byLanguage[languageCodes[i]]
              && forall j :: 0 <= j < i ==> languageCodes[j] !in byLanguage
    decreases |languageCodes|
  {
    if |languageCodes| > 0 {
      var rest := languageCodes[1..];
      FindTranscriptSpec(byLanguage, rest);
      if languageCodes[0] !in byLanguage {
        if exists i :: 0 <= i < |languageCodes| && languageCodes[i] in byLanguage {
          var i :| 0 <= i < |languageCodes| && languageCodes[i] in byLanguage;
          assert rest[i - 1] == languageCodes[i];
        }
        if FindTranscript(byLanguage, languageCodes).Some? {
          var i :| 0 <= i < |rest| && rest[i] in byLanguage
            && FindTranscript(byLanguage, rest).value == byLanguage[rest[i]]
            && forall j :: 0 <= j < i ==> rest[j] !in byLanguage;
          assert languageCodes[i + 1] == rest[i];
          forall j | 0 <= j < i + 1 ensures languageCodes[j] !in byLanguage {
            if j > 0 {
              assert languageCodes[j] == rest[j - 1];
            }
          }
        }
      }
    }
  }

  /** Asking for one language finds that language's transcript, or nothing. */
  lemma FindOneLanguage(byLanguage: map<string, Transcript>, languageCode: string)
    ensures FindTranscript(byLanguage, [languageCode])
         == if languageCode in byLanguage then Some(byLanguage[languageCode]) else None
  {
    assert [languageCode][1..] == [];
  }

  /**
   * The try/except fallback: the manually created English transcript if
   * there is one, otherwise the generated English one, otherwise the
   * not-found error of the second lookup.
   */
  function ChooseTranscript(list: TranscriptList): Result<Transcript, TranscriptError> {
    match FindTranscript(list.manuallyCreated, RequestedLanguageCodes)
    case Some(manual) => Ok(manual)
    case None =>
      match FindTranscript(list.generated, RequestedLanguageCodes)
      case Some(generated) => Ok(generated)
      case None => Err(NoTranscriptFound(RequestedLanguageCodes))
  }

  /**
   * The manual English transcript wins whenever it exists; the generated one
   * is taken only when there is no manual one; with neither, the error is
   * the not-found error for English.
   */
  lemma ChooseTranscriptSpec(list: TranscriptList)
    ensures "en" in list.manuallyCreated ==> ChooseTranscript(list) == Ok(list.manuallyCreated["en"])
    ensures "en" !in list.manuallyCreated && "en" in list.generated ==>
            ChooseTranscript(list) == Ok(list.generated["en"])
    ensures ChooseTranscript(list).Err? <==> "en" !in list.manuallyCreated && "en" !in list.generated
    ensures ChooseTranscript(list).Err? ==> ChooseTranscript(list).error == NoTranscriptFound(["en"])
  {
    FindOneLanguage(list.manuallyCreated, "en");
    FindOneLanguage(list.generated, "en");
  }

  /**
   * A list as the caption service builds it: each transcript is filed under
   * its own language code, manually created ones apart from generated ones.
   */
  predicate WellFormedList(list: TranscriptList) {
    && (forall code :: code in list.manuallyCreated ==>
          list.manuallyCreated[code].languageCode == code && !list.manuallyCreated[code].isGenerated)
    && (forall code :: code in list.generated ==>
          list.generated[code].languageCode == code && list.generated[code].isGenerated)
  }

  /**
   * From a well-formed list the chosen transcript is in English, and it is a
   * generated one exactly when no manually created English one exists.
   */
  lemma ChosenTranscriptIsEnglish(list: TranscriptList)
    requires WellFormedList(list)
    ensures ChooseTranscript(list).Ok? ==> ChooseTranscript(list).value.languageCode == "en"
    ensures ChooseTranscript(list).Ok? ==>
            (ChooseTranscript(list).value.isGenerated <==> "en" !in list.manuallyCreated)
  {
    ChooseTranscriptSpec(list);
  }

  /** The cues that are kept, in their order: all but those whose text is exactly `[Music]`. */
  function KeptCues(cues: seq<Cue>): (kept: seq<Cue>)
    ensures |kept| <= |cues|
  {
    if |cues| == 0 then []
    else (if cues[0].text == MusicCue then [] else [cues[0]]) + KeptCues(cues[1..])
  }

  /** A cue is kept exactly when it is one of the input cues and its text is not `[Music]`. */
  lemma {:induction false} KeptCuesMembership(cues: seq<Cue>, c: Cue)
    ensures c in KeptCues(cues) <==> c in cues && c.text != MusicCue
    decreases |cues|
  {
    if |cues| > 0 {
      KeptCuesMembership(cues[1..], c);
      assert cues == [cues[0]] + cues[1..];
    }
  }

  /** Filtering a concatenation filters each part in turn, so kept cues stay in their order. */
  lemma {:induction false} KeptCuesAppend(a: seq<Cue>, b: seq<Cue>)
    ensures KeptCues(a + b) == KeptCues(a) + KeptCues(b)
    decreases |a|
  {
    if |a| == 0 {
      assert a + b == b;
    } else {
      assert (a + b)[0] == a[0];
      assert (a + b)[1..] == a[1..] + b;
      KeptCuesAppend(a[1..], b);
    }
  }

  /** The match is exact: a cue that says more than `[Music]` is kept. */
  lemma KeptCuesExample()
    ensures KeptCues([Cue("0.0", "[Music]"), Cue("1.5", "[Music] la"), Cue("3.2", "hello")])
         == [Cue("1.5", "[Music] la"), Cue("3.2", "hello")]
  {
    var cues := [Cue("0.0", "[Music]"), Cue("1.5", "[Music] la"), Cue("3.2", "hello")];
    assert cues[1..][1..][1..] == [];
    assert cues[1..][1..] == [Cue("3.2", "hello")];
    assert cues[1..] == [Cue("1.5", "[Music] la"), Cue("3.2", "hello")];
  }

  /** `f"{start}: {text}"` for one cue. */
  function CueLine(c: Cue): string {
    c.start + ": " + c.text
  }

  /** The lines of the given cues, one per cue and in order. */
  function CueLines(cues: seq<Cue>): (lines: seq<string>)
    ensures |lines| == |cues|
    ensures forall k :: 0 <= k < |lines| ==> lines[k] == CueLine(cues[k])
  {
    if |cues| == 0 then [] else [CueLine(cues[0])] + CueLines(cues[1..])
  }

  /** The flattened captions: the lines of the kept cues joined by newlines. */
  function SerializeCues(cues: seq<Cue>): string {
    Join(CueLines(KeptCues(cues)), '\n')
  }

  /** `get_transcripts`, with the caption service's answer as its input. */
  function GetTranscripts(listing: Listing): Result<string, TranscriptError> {
    match listing
    case TranscriptsDisabled => Err(Failure(DisabledMessage))
    case ListingFailed(reason) => Err(ServiceError(reason))
    case Listed(list) =>
      match ChooseTranscript(list)
      case Err(e) => Err(e)
      case Ok(transcript) => Ok(SerializeCues(transcript.cues))
  }

  /**
   * What `get_transcripts` returns in each case: the refusal message when
   * captions are disabled, the manual English captions when they exist, the
   * generated ones otherwise, and the not-found error when there are none.
   */
  lemma GetTranscriptsSpec(listing: Listing)
    ensures listing.TranscriptsDisabled? ==> GetTranscripts(listing) == Err(Failure("Transcripts are disabled for this video"))
    ensures listing.ListingFailed? ==> GetTranscripts(listing) == Err(ServiceError(listing.reason))
    ensures listing.Listed? && "en" in listing.transcripts.manuallyCreated ==>
            GetTranscripts(listing) == Ok(SerializeCues(listing.transcripts.manuallyCreated["en"].cues))
    ensures listing.Listed? && "en" !in listing.transcripts.manuallyCreated && "en" in listing.transcripts.generated ==>
            GetTranscripts(listing) == Ok(SerializeCues(listing.transcripts.generated["en"].cues))
    ensures listing.Listed? && "en" !in listing.transcripts.manuallyCreated && "en" !in listing.transcripts.generated ==>
            GetTranscripts(listing) == Err(NoTranscriptFound(["en"]))
  {
    if listing.Listed? {
      ChooseTranscriptSpec(listing.transcripts);
    }
  }

  /** Reads one line back into a cue: the start is everything before the first colon. */
  function ReadCueLine(line: string): Option<Cue> {
    var colon := IndexOf(line, ':');
    if colon + 1 < |line| && line[colon + 1] == ' ' then Some(Cue(line[..colon], line[colon + 2..]))
    else None
  }

  /** A cue whose start holds no colon reads back from its line. */
  lemma ReadCueLineInverse(c: Cue)
    requires ':' !in c.start
    ensures ReadCueLine(CueLine(c)) == Some(c)
  {
    var rest := " " + c.text;
    assert CueLine(c) == c.start + ([':'] + rest);
    IndexOfAfter(c.start, ':', rest);
    ConcatHalves(c.start, [':'] + rest);
    assert CueLine(c)[|c.start| + 2..] == c.text;
  }

  /** Reads lines back into cues; fails if any line does not read. */
  function ReadCueLines(lines: seq<string>): Option<seq<Cue>> {
    if |lines| == 0 then Some([])
    else
      match (ReadCueLine(lines[0]), ReadCueLines(lines[1..]))
      case (Some(c), Some(rest)) => Some([c] + rest)
      case _ => None
  }

  /** Reads flattened captions back: the empty text holds no cue, any other text one cue per line. */
  function ReadTranscript(text: string): Option<seq<Cue>> {
    if text == [] then Some([]) else ReadCueLines(Split(text, '\n'))
  }

  /** Cues whose starts hold no colon read back from their lines. */
  lemma ReadCueLinesInverse(cues: seq<Cue>)
    requires forall k :: 0 <= k < |cues| ==> ':' !in cues[k].start
    ensures ReadCueLines(CueLines(cues)) == Some(cues)
  {
    var lines := CueLines(cues);
    forall k | 0 <= k < |lines| ensures ReadCueLine(lines[k]) == Some(cues[k]) {
      ReadCueLineInverse(cues[k]);
    }
    ReadEveryLine(lines, cues);
  }

  /** Lines that each read back to the cue at the same position read back to all those cues. */
  lemma {:induction false} ReadEveryLine(lines: seq<string>, cues: seq<Cue>)
    requires |lines| == |cues|
    requires forall k :: 0 <= k < |lines| ==> ReadCueLine(lines[k]) == Some(cues[k])
    ensures ReadCueLines(lines) == Some(cues)
    decreases |lines|
  {
    if |lines| > 0 {
      forall k | 0 <= k < |lines| - 1 ensures ReadCueLine(lines[1..][k]) == Some(cues[1..][k]) {
        assert lines[1..][k] == lines[k + 1];
      }
      ReadEveryLine(lines[1..], cues[1..]);
      assert [cues[0]] + cues[1..] == cues;
    }
  }

  /** A cue line is a single line when the cue's start and text are. */
  lemma CueLineIsLine(c: Cue)
    requires IsLine(c.start) && IsLine(c.text)
    ensures IsLine(CueLine(c))
  {
  }

  /**
   * When no start holds a colon and no cue holds a line break, the
   * flattened captions read back into exactly the kept cues, in order:
   * one line per kept cue, and the empty string when nothing is kept.
   */
  lemma ReadSerializedCues(cues: seq<Cue>)
    requires forall k :: 0 <= k < |cues| ==> ':' !in cues[k].start
    requires forall k :: 0 <= k < |cues| ==> IsLine(cues[k].start) && IsLine(cues[k].text)
    ensures |KeptCues(cues)| == 0 ==> SerializeCues(cues) == ""
    ensures |KeptCues(cues)| > 0 ==> Split(SerializeCues(cues), '\n') == CueLines(KeptCues(cues))
    ensures ReadTranscript(SerializeCues(cues)) == Some(KeptCues(cues))
  {
    var kept := KeptCues(cues);
    forall k | 0 <= k < |kept| ensures ':' !in kept[k].start && IsLine(kept[k].start) && IsLine(kept[k].text) {
      KeptCuesMembership(cues, kept[k]);
    }
    ReadCueLinesInverse(kept);
    if |kept| > 0 {
      var lines := CueLines(kept);
      forall k | 0 <= k < |lines| ensures '\n' !in lines[k] {
        CueLineIsLine(kept[k]);
      }
      SplitJoin(lines, '\n');
      assert |lines[0]| > 0;
      JoinFirstPart(lines, '\n');
    }
  }
}
