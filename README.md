# youtube-summary-cli: the text and arithmetic core in Dafny

`youtube-summary-cli` summarizes a YouTube video from its captions. It asks
a language model for a chapter list of timestamped lines, then prints each
chapter as a console link to its second of the video. Three pieces of
deterministic logic sit inside that orchestration, and this project models
them and proves their properties:

- **The chapter-line parser** (`section_summarizer.py`, in `section_summarizer.dfy`).
  - `_parse_section_summaries_text` splits the model's answer on `"\n"`.
  - It matches each line against `\s*\[(\d+(?:\.\d+)?)\]:\s+(.*)`.
  - It keeps one `SectionSummary(timestamp_seconds, text)` per matching line, in order.
  - The regular expression is written out as a staged matcher over characters.
    `MatchLineExactly` proves that the matcher accepts a line exactly when the line is spelled by pieces the pattern admits.
    It also proves the split into pieces is unique.
- **Chapter rendering** (`main.py`, in `presentation.dfy`).
  - `pretty_timestamp` writes seconds as `H:M:S` with two `divmod`s and no padding.
  - `get_pretty_section_summary_text` loops over the summaries, renders each as
    `[link=<url>&t=<n>]H:M:S[/link]: text` and joins the renderings with newlines.
  - The join in `generate_summary` hands the chapter texts to the overall summary.
- **Caption flattening** (`get_transcripts`, in `transcript.dfy`).
  - This function appears twice, as identical copies, in `transcript.py` and `main.py`.
  - It prefers the manually created English transcript and falls back to the generated one.
  - It drops cues whose text is exactly `[Music]`.
  - It joins the rest as `start: text` lines.
  - The table below cites either copy, since the two are line for line the same (`transcript.py` lines 8-29 and `main.py` lines 45-66).

Shared string and numeral helpers live in `strings.dfy`:

- `str.split` and `str.join` on one character;
- `str(int)`;
- a decimal reader used as the inverse in round-trip lemmas.

`wrappers.dfy` holds `Option` and `Result`.

Two loops are modelled as methods, and each is proved equal to a specification function:

- `ParseSectionSummariesText` is proved equal to `ParseLines`.
- `GetPrettySectionSummaryText` is proved equal to the join of `PrettySummaries`.

Every other piece of the core has no loop, and it is modelled as a function.

Two facts of the code shape the stated properties:

- `"".split("\n")` is `[""]`, one empty line, not zero lines.
  So the "one line per entry" properties are stated for non-empty lists.
  An empty list is stated separately: it gives the empty string.
- Python's `divmod` floors. A negative number of seconds therefore renders as, for example, `-1:59:59`.
  The reading back still gives the original number.

## Model

| member | source | states |
|---|---|---|
| SectionSummarizer.MatchLineExactly | youtube_summary/section_summarizer.py:76 | the matcher returns pieces `m` for a line if and only if `m` satisfies what every part of the pattern admits and `m` spells that line, so the match is both sound and complete and the split is unique |
| SectionSummarizer.MatchLineSound | youtube_summary/section_summarizer.py:76 | whatever the matcher accepts is made of valid pieces that spell the line back |
| SectionSummarizer.MatchLineComplete | youtube_summary/section_summarizer.py:76 | every line spelled by valid pieces is matched, and into exactly those pieces |
| SectionSummarizer.ParseLineRecord | youtube_summary/section_summarizer.py:76-81 | a record made from a line has a non-negative timestamp, and its text is a single line that does not start with whitespace, because `\s+` is greedy |
| SectionSummarizer.ParseWellFormedLine | youtube_summary/section_summarizer.py:76-81 | a line built from valid pieces parses to the integer part of its number and to its text verbatim |
| SectionSummarizer.ParsePromptFormat | youtube_summary/section_summarizer.py:21 | a line written in the requested `[31]: summary` format from a record with a non-negative timestamp and a single-line text that does not start with whitespace parses back to that record |
| SectionSummarizer.ParseLines | youtube_summary/section_summarizer.py:72-84 | there are no more records than lines, every timestamp is non-negative, and every text is a single line that does not start with whitespace |
| SectionSummarizer.ParseLinesAppend | youtube_summary/section_summarizer.py:72-82 | parsing distributes over concatenation of the lines: records keep the order of their lines, with no sorting or deduplication |
| SectionSummarizer.ParseOneLine | youtube_summary/section_summarizer.py:75-82 | a single line gives one record if it matches and nothing otherwise |
| SectionSummarizer.ParseSectionSummariesText | youtube_summary/section_summarizer.py:67-84 | the loop's result equals the records of the newline-separated lines, and there are at most one more records than `"\n"` characters |
| SectionSummarizer.ParseExampleInteger | youtube_summary/section_summarizer.py:76-81 | `[31]: Intro to topic` gives the record (31, `Intro to topic`) |
| SectionSummarizer.ParseExampleFraction | youtube_summary/section_summarizer.py:76-80 | `  [45.7]: Something` gives timestamp 45: leading whitespace is allowed and the fraction is truncated |
| SectionSummarizer.ParseExampleSpacing | youtube_summary/section_summarizer.py:70-76 | all whitespace after `]:` is skipped, and a trailing carriage return stays in the text |
| SectionSummarizer.RejectExampleNoTimestamp | youtube_summary/section_summarizer.py:75-82 | `no timestamp here` gives no record |
| SectionSummarizer.RejectExampleNoGap | youtube_summary/section_summarizer.py:76 | `[31]:x` gives no record: at least one whitespace character must follow `]:` |
| SectionSummarizer.RejectExampleBareFraction | youtube_summary/section_summarizer.py:76 | `[45.]: x` gives no record: a point must be followed by a digit |
| SectionSummarizer.MatchLine | youtube_summary/section_summarizer.py:76 | no contract of its own; characterised by MatchLineExactly, MatchLineSound and MatchLineComplete |
| SectionSummarizer.ParseLine | youtube_summary/section_summarizer.py:76-81 | no contract of its own; characterised by ParseLineRecord, ParseWellFormedLine, ParsePromptFormat and the examples |
| Strings.Join | youtube_summary/transcript.py:21 | `sep.join(parts)`: no contract of its own; characterised by JoinSplit, SplitJoin and JoinFirstPart |
| Strings.Split | youtube_summary/section_summarizer.py:70 | `str.split` on one character: one more piece than separators, and no piece holds the separator; SplitJoin and JoinSplit make it the inverse of Join |
| Presentation.ClockOfSound | youtube_summary/main.py:80-81 | hours*3600 + minutes*60 + seconds equals the input, with 0 <= minutes < 60 and 0 <= seconds < 60, for every integer |
| Presentation.ClockOfUnique | youtube_summary/main.py:80-81 | any decomposition with minutes and seconds in range is the one the two `divmod`s compute |
| Presentation.ClockFieldsSplit | youtube_summary/main.py:82 | the rendering is three colon-free decimal fields joined by exactly two colons |
| Presentation.ReadPrettyTimestamp | youtube_summary/main.py:79-82 | reading `H:M:S` back as hours, minutes and seconds gives the original number of seconds, negative numbers included |
| Presentation.PrettyTimestampInjective | youtube_summary/main.py:79-82 | different numbers of seconds render differently |
| Presentation.PrettyTimestampSmallExamples | youtube_summary/main.py:82 | 0 renders as `0:0:0` and 3661 as `1:1:1`, with no zero padding |
| Presentation.PrettyTimestampTwoDigitExample | youtube_summary/main.py:82 | 59 renders as `0:0:59` |
| Presentation.PrettyTimestampNegativeExample | youtube_summary/main.py:80-82 | -1 renders as `-1:59:59`, because `divmod` floors |
| Presentation.ClockOf | youtube_summary/main.py:80-81 | no contract of its own; characterised by ClockOfSound and ClockOfUnique |
| Presentation.PrettyTimestamp | youtube_summary/main.py:79-82 | no contract of its own; characterised by ClockFieldsSplit, ReadPrettyTimestamp, PrettyTimestampInjective, PrettyTimestampIsLine and the examples |
| Presentation.PrettySummary | youtube_summary/main.py:90-93 | no contract of its own; characterised by ReadPrettySummaryInverse and PrettySummaryIsLine |
| Presentation.PrettySummaries | youtube_summary/main.py:89-94 | there is one rendering per summary |
| Presentation.PrettySummariesAt | youtube_summary/main.py:89-94 | the rendering at each position is the rendering of the summary at that position, so the order is kept |
| Presentation.PrettySummariesAppend | youtube_summary/main.py:88-94 | rendering a concatenation renders each part in turn |
| Presentation.PrettyTimestampCharacters | youtube_summary/main.py:79-82 | a rendered timestamp holds only digits, minus signs and colons |
| Presentation.PrettyTimestampIsLine | youtube_summary/main.py:82 | a rendered timestamp never holds a line break |
| Presentation.PrettySummaryIsLine | youtube_summary/main.py:93 | a chapter whose url and text are single lines renders as a single line |
| Presentation.PrettyTextLines | youtube_summary/main.py:95 | when the url and texts are single lines, splitting the printed block on newlines gives back exactly the renderings, one per chapter and in order |
| Presentation.ReadPrettySummaryInverse | youtube_summary/main.py:90-93 | a rendering reads back to its summary: the link numeral reads back as the seconds, the `H:M:S` caption reads back (through ReadTimestamp) to the same seconds, and the text follows verbatim |
| Presentation.GetPrettySectionSummaryText | youtube_summary/main.py:85-95 | the loop's result is the renderings joined by single newlines, and an empty list gives the empty string |
| Presentation.SectionTexts | youtube_summary/main.py:71 | the chapter texts, one per summary, at the same positions, without timestamps |
| Presentation.SerializeSectionSummaries | youtube_summary/main.py:71 | no contract of its own; characterised by SectionTexts, SerializedSectionLines and SerializeParsedSections |
| Presentation.SerializedSectionLines | youtube_summary/main.py:71 | the overall-summary input is empty for no chapters; otherwise, when texts are single lines, it splits back into the texts in order |
| Presentation.SerializeParsedSections | youtube_summary/main.py:71 | for a non-empty parse, the parser's records serialize into one line per record, because a parsed text never holds a line break |
| Strings.IntToDecimal | youtube_summary/main.py:82 | `str(int)`: a non-empty numeral, starting with a minus sign exactly for negative numbers, and digits after it |
| Strings.ParseIntToDecimal | youtube_summary/main.py:82 | every integer reads back from its `str(int)` spelling |
| Transcript.FindTranscript | youtube_summary/transcript.py:15 | no contract of its own; characterised by FindTranscriptSpec and FindOneLanguage |
| Transcript.ChooseTranscript | youtube_summary/transcript.py:14-17 | no contract of its own; characterised by ChooseTranscriptSpec and ChosenTranscriptIsEnglish |
| Transcript.FindTranscriptSpec | youtube_summary/transcript.py:15 | a transcript is found if and only if some requested language is present, and it is the one of the earliest such language |
| Transcript.FindOneLanguage | youtube_summary/transcript.py:15 | asking for one language finds that language's transcript, or nothing |
| Transcript.ChooseTranscriptSpec | youtube_summary/main.py:52-55 | the manual English transcript is chosen whenever it exists; the generated one is chosen only when the manual lookup fails; the not-found error for `["en"]` is returned if and only if neither exists |
| Transcript.KeptCues | youtube_summary/transcript.py:24-25 | filtering never adds cues |
| Transcript.KeptCuesMembership | youtube_summary/transcript.py:24-25 | a cue is kept if and only if it is an input cue whose text is not exactly `[Music]` |
| Transcript.KeptCuesAppend | youtube_summary/main.py:58-64 | filtering distributes over concatenation, so kept cues stay in their relative order |
| Transcript.KeptCuesExample | youtube_summary/transcript.py:25 | the comparison is exact: `[Music]` is dropped and `[Music] la` is kept |
| Transcript.CueLine | youtube_summary/transcript.py:23 | no contract of its own; characterised by ReadCueLineInverse and CueLineIsLine |
| Transcript.SerializeCues | youtube_summary/transcript.py:21-27 | no contract of its own; characterised by ReadSerializedCues |
| Transcript.CueLines | youtube_summary/transcript.py:23 | one `start: text` line per cue, at the same position |
| Transcript.ReadCueLineInverse | youtube_summary/transcript.py:23 | a cue line reads back to its cue when the start holds no colon |
| Transcript.ReadCueLinesInverse | youtube_summary/transcript.py:23 | a sequence of cue lines reads back to its cues, when no start holds a colon |
| Transcript.CueLineIsLine | youtube_summary/transcript.py:23 | a cue with single-line start and text gives a single line |
| Transcript.ReadSerializedCues | youtube_summary/transcript.py:21-27 | when no cue start or text holds a line break and no start holds a colon: no kept cues gives `""`; otherwise splitting on newlines gives exactly one line per kept cue, and the text reads back to exactly the kept cues in order |
| Transcript.GetTranscripts | youtube_summary/transcript.py:8-29 | no contract of its own; characterised by GetTranscriptsSpec |
| Transcript.GetTranscriptsSpec | youtube_summary/transcript.py:8-29 | disabled captions fail with `Transcripts are disabled for this video`; any other listing error passes through unchanged; otherwise the manual English captions, or else the generated ones, are flattened; with neither, the not-found error propagates |
| Transcript.ChosenTranscriptIsEnglish | youtube_summary/transcript.py:14-17 | from a list where every transcript is filed under its own language and kind, the chosen transcript is English, and it is a generated one exactly when no manually created English one exists |

## Left out

- The language-model orchestration is not modelled: the map-reduce and stuff chains, the prompt templates and the chat-model calls in `summarize` and `generate_summary`. These are calls into foreign code.
- Chunk splitting by the text splitter is library code and is not part of this model.
- `video_infromation.py` is not part of this model. It is a thin wrapper around the video downloader.
- `overall_summarizer.py` is not part of this model. Its only logic is the join at its line 32, and that is the join of `main.py` line 71, modelled as `SerializeSectionSummaries`.
- The console and command-line layer is not modelled: console panels, the command parser, exception handling at exit and the usage callback.
- `setup.py` is packaging and is not modelled.
- Transcript.GetTranscripts: the caption service is a parameter. Its listing call becomes the `Listing` value, and the cues `fetch()` would download are stored in each `Transcript`.
  - Listing errors other than disabled captions pass through unchanged, and they are modelled only as an opaque reason string. Examples are an unavailable video, an invalid video id and too many requests. Which of them the service raises, and when, is not modelled.
  - Errors raised by `fetch()`, network errors among them, are not modelled: fetching always succeeds here.
  - The chaining of the disabled-captions exception to its cause is not modelled.
  - The not-found error carries only the requested language codes, not the video id or the available transcripts.
- Transcript.FindTranscript: the caption library's `find_manually_created_transcript` and `find_generated_transcript` are not part of this model. They are modelled as a lookup in a map from language code to transcript, one map per kind, trying the requested codes in order.
- Transcript.Cue: the `start` field is kept as the opaque string that Python's `str(float)` produces. Float formatting is not modelled.
- SectionSummarizer.ParseLine: `int(float(x))` is modelled as the value of the digits before the point. It differs from Python in these cases, which are not modelled:
  - a fraction of more than about sixteen nines rounds up to the next integer;
  - integers above 2^53 lose precision;
  - digit strings beyond the float range raise an overflow error.
- Strings.IsSpace and Strings.IsDigit: `\s` is the six ASCII whitespace characters and `\d` the ASCII digits. Python's Unicode classes also match other characters. For `\s` these include `\x1c`-`\x1f`, `\x85` and the no-break space. For `\d` they include non-ASCII decimal digits.
- SectionSummarizer.MatchLine: the matcher equals the regular expression only on lines without a line break. On other lines `.` would stop at the break, and the matcher does not model that. The parser only gives the matcher pieces of a split on `"\n"`.
- Presentation.PrettyTimestamp: a `None` duration passed from the command layer is out of scope, and the argument is an integer.
- Transcript.ReadSerializedCues: the round trip assumes that cue starts hold no colon and no line break, and that cue texts hold no line break. Python's float strings never hold either, but float formatting is not modelled. A cue text with a line break is written as more than one line, so the text no longer reads back cue by cue.
