# youtube-metadata-fetcher, modelled in Dafny

The fetcher takes a YouTube video or playlist URL. For every video it stores one file holding
the video's title, description and English transcript.

- The title and description are cleaned by `clean_text`: a missing or empty value becomes
  "N/A"; anything else has its whitespace runs collapsed and its ends stripped.
- The transcript comes from the first "vtt" caption format of the English track. The manual
  subtitles are used when they are non-empty; otherwise the automatic captions are.
- The caption file is fetched and cleaned by `clean_transcript`, which runs these passes:
  1. strip the WEBVTT header;
  2. strip timestamp lines;
  3. strip `<...>` tags;
  4. strip `[...]` labels;
  5. delete every '<';
  6. turn every newline into a space;
  7. collapse whitespace runs and strip the ends.
- When no English track or no VTT URL exists, a fixed message is stored instead.
- The file is `<id>.json` for the "json" format, in any case. For any other format it is
  `<id>.txt`, laid out as a title line, a description line, a heading line and the transcript.
  A playlist is walked entry by entry.

A second script, `test.py`, does the same for a single URL, with two differences:

- it stores the title and description as returned;
- its `clean_transcript` runs passes 1 to 4, collapses and strips, then tokenizes the text,
  drops stopwords and joins the remaining tokens with single spaces.

The modules are:

- `Text`: character classes, `re.sub(r"\s{2,}", " ", s)` and `str.strip()`, plus ASCII
  `lower()`.
- `Passes`: each `re.sub` pass of `clean_transcript` as a left-to-right scan, with the lazy
  match characterised exactly.
- `Cleaning`: `clean_text` and `clean_transcript` of `main.py`.
- `CleaningExamples`: a worked caption file and the counterexample to idempotence.
- `Fetcher`: the transcript selection, `fetch_transcript`, the record, the two file layouts,
  `process_video` and the `fetch_metadata` loop of `main.py`.
- `VariantCleaning` and `VariantFetcher`: the `test.py` script.

The yt-dlp extraction and the HTTP request are function parameters, and so are the NLTK
tokenizer and the stopword set. The files a run writes are modelled as the sequence of
`(name, content)` outputs it returns.

Two points where the code differs from how the program is sometimes described:

- Cleaning a transcript is not idempotent. A `[...]` label split by a newline survives the
  bracket pass. Its newline then becomes a space, so a second run deletes the label
  (`CleaningExamples.NotIdempotent`). The model follows the code. It proves exactly which
  texts are fixpoints (`Cleaning.CleanTranscriptFixpoint`) and that a second run is the
  `[...]` pass followed by the collapse and strip (`Cleaning.CleanTranscriptSecondRun`).
- A playlist writes one file per entry, not one document holding a list of records. The model
  follows the code.

## Model

| member | source | states |
|---|---|---|
| Text.Collapse | youtube_metadata_fetcher/main.py:13 | the result has no two adjacent whitespace characters, and starts with whitespace exactly when the input does (what a run becomes is Text.CollapseRun) |
| Text.CollapseNoDoubleSpace | youtube_metadata_fetcher/main.py:13 | text without adjacent whitespace is left unchanged by the run collapse |
| Text.Strip | youtube_metadata_fetcher/main.py:14 | `strip()` leaves no leading or trailing whitespace; Text.StripSlice says what is cut |
| Text.StripSlice | youtube_metadata_fetcher/main.py:14 | `strip()` is the slice between an all-whitespace prefix and an all-whitespace suffix, which with Text.Strip's trimmed result pins it exactly |
| Text.StripAllSpace | youtube_metadata_fetcher/main.py:14 | `strip()` gives the empty string exactly for all-whitespace text |
| Text.Squish | youtube_metadata_fetcher/main.py:13-14 | collapse-then-strip yields trimmed text with no adjacent whitespace |
| Text.SquishRemoveSpaces | youtube_metadata_fetcher/main.py:13-14 | collapse-then-strip keeps every non-whitespace character, in order |
| Text.SquishFixpoint | youtube_metadata_fetcher/main.py:13-14 | collapse-then-strip leaves already trimmed, collapsed text as it is |
| Text.SquishLength | youtube_metadata_fetcher/main.py:13-14 | collapse-then-strip never lengthens the text |
| Text.CollapseAppend | youtube_metadata_fetcher/main.py:13 | text ending in a non-space is collapsed independently of what follows it |
| Text.CollapseRun | youtube_metadata_fetcher/main.py:13 | a run of two or more whitespace characters after a non-space, before a non-space or the end, becomes exactly one space between the text on either side |
| Text.CollapseLead | youtube_metadata_fetcher/main.py:13 | leading whitespace in front of a non-space becomes one space when it is a run of two or more, and is kept as it is when it is a single character or empty |
| Text.SquishTwoWords | youtube_metadata_fetcher/main.py:13-14 | two words with any padding and a run of two or more whitespace characters between them become the two words joined by one space |
| Text.Lower | youtube_metadata_fetcher/main.py:130 | `str.lower()` on ASCII: same length, each character lower-cased; Text.LowerIdempotent and Fetcher.IsJsonCaseless build on it |
| Text.LowerIdempotent | youtube_metadata_fetcher/main.py:130 | lower-casing twice is lower-casing once |
| Cleaning.CleanText | youtube_metadata_fetcher/main.py:9-14 | a missing or empty value gives "N/A"; any other value gives trimmed, collapsed text with the same non-whitespace characters in the same order (that a run between words becomes one space is Cleaning.CleanTextSeparatesWords) |
| Cleaning.CleanTextSeparatesWords | youtube_metadata_fetcher/main.py:13-14 | words separated by a run of two or more whitespace characters come out separated by exactly one space, with the padding around them gone |
| CleaningExamples.SpacedWordsExample | youtube_metadata_fetcher/main.py:9-14 | "  a   b  " cleans to "a b" |
| Cleaning.CleanTextBlank | youtube_metadata_fetcher/main.py:10-14 | a non-empty all-whitespace value cleans to "", not to "N/A", and cleaning that gives "N/A" |
| Cleaning.CleanTextFixpoint | youtube_metadata_fetcher/main.py:13-14 | a value already stripped and collapsed is returned unchanged, so single tabs and newlines survive |
| Cleaning.CleanTextIdempotent | youtube_metadata_fetcher/main.py:9-14 | cleaning a non-empty result again changes nothing |
| Cleaning.CleanTranscript | youtube_metadata_fetcher/main.py:17-37 | the cleaned transcript has no newline and no '<', is stripped and has no adjacent whitespace |
| Cleaning.CleanTranscriptContent | youtube_metadata_fetcher/main.py:19-35 | apart from whitespace, the result is exactly what passes 1 to 4 leave, minus every '<' |
| Cleaning.CleanTranscriptOfFlat | youtube_metadata_fetcher/main.py:19-35 | on text with no newline and no '<', only the `[...]` pass and the final collapse and strip act |
| Cleaning.CleanTranscriptSecondRun | youtube_metadata_fetcher/main.py:19-35 | on its own output, the header, timestamp and tag passes are no-ops; a second run is the `[...]` pass plus collapse and strip |
| Cleaning.CleanTranscriptFixpoint | youtube_metadata_fetcher/main.py:17-37 | cleaning leaves a text unchanged iff it is flat, has no '<', is stripped and collapsed, and has no same-line `[...]` span |
| Passes.BasePasses | youtube_metadata_fetcher/main.py:19-27 | passes 1 to 4 in source order; specified by Passes.StripHeadersBlock, Passes.StripTimestampsLine, Passes.StripDelimitedSpan and VariantCleaning.BasePassesUntouched |
| Passes.HeaderEnd | youtube_metadata_fetcher/main.py:19-20 | a header match ends at least 23 characters in and within the text; pinned by Passes.HeaderEndSpec |
| Passes.TimestampEnd | youtube_metadata_fetcher/main.py:23 | a timestamp match is at least 13 characters long and within the text; pinned by Passes.TimestampEndSpec |
| Passes.DelimitedEnd | youtube_metadata_fetcher/main.py:26-27 | a bracket match is at least 2 characters long and within the text; pinned by Passes.DelimitedEndSpec |
| Passes.HeaderPositionsSound | youtube_metadata_fetcher/main.py:19-20 | the positions the lazy header search reports form a match of the header pattern |
| Passes.HeaderPositionsLeast | youtube_metadata_fetcher/main.py:19-20 | every header match comes no earlier, in lazy-quantifier order, than the one reported |
| Passes.HeaderEndSpec | youtube_metadata_fetcher/main.py:19-20 | the header pattern matches at a position iff some match exists there, and the match removed is the lazy-first one |
| Passes.HeaderNeedsNewline | youtube_metadata_fetcher/main.py:19-20 | a header match contains a newline |
| Passes.HeaderStartsWithW | youtube_metadata_fetcher/main.py:19-20 | a header match starts with 'W' |
| Passes.StripHeaders | youtube_metadata_fetcher/main.py:19-20 | the header pass never lengthens the text |
| Passes.StripHeadersNoNewline | youtube_metadata_fetcher/main.py:19-20 | newline-free text has no header to delete |
| Passes.StripHeadersPrefix | youtube_metadata_fetcher/main.py:19-20 | a prefix without 'W' is copied unchanged, and the pass resumes after it |
| Passes.HeaderEndExact | youtube_metadata_fetcher/main.py:19-20 | a header whose three gaps hold no newline is removed through its own final newline |
| Passes.StripHeadersLeading | youtube_metadata_fetcher/main.py:19-20 | a leading header block with newline-free fields is deleted and the scan resumes after it |
| Passes.StripHeadersBlock | youtube_metadata_fetcher/main.py:19-20 | a header block after 'W'-free text is deleted and everything else is kept |
| Passes.TimestampEndSpec | youtube_metadata_fetcher/main.py:23 | the timestamp pattern matches iff a stamp is followed by a newline, and the match ends at the first such newline |
| Passes.StripTimestamps | youtube_metadata_fetcher/main.py:23 | the timestamp pass never lengthens the text |
| Passes.StripTimestampsNoNewline | youtube_metadata_fetcher/main.py:23 | newline-free text keeps all its stamps |
| Passes.StripTimestampsPrefix | youtube_metadata_fetcher/main.py:23 | a digit-free prefix is copied unchanged, and the pass resumes after it |
| Passes.TimestampEndExact | youtube_metadata_fetcher/main.py:23 | a stamp whose line ends at a given newline is matched exactly through it |
| Passes.StripTimestampsLeading | youtube_metadata_fetcher/main.py:23 | a leading stamp line is deleted through its newline |
| Passes.StripTimestampsLine | youtube_metadata_fetcher/main.py:23 | a stamp line after digit-free text is deleted and everything else is kept |
| Passes.DelimitedEndSpec | youtube_metadata_fetcher/main.py:26-27 | a bracket pattern matches iff a closer follows the opener on the same line, and the match ends at the first closer |
| Passes.StripDelimited | youtube_metadata_fetcher/main.py:26-27 | a bracket pass never lengthens the text, and leaves it unchanged when it keeps its length |
| Passes.StripDelimitedNoOpen | youtube_metadata_fetcher/main.py:26-27 | text without the opener is left unchanged |
| Passes.StripDelimitedPrefix | youtube_metadata_fetcher/main.py:26-27 | a prefix without the opener is copied unchanged, and the pass resumes after it |
| Passes.DelimitedEndExact | youtube_metadata_fetcher/main.py:26-27 | an opener whose first closer is on its line is matched exactly through that closer |
| Passes.StripDelimitedSpan | youtube_metadata_fetcher/main.py:26-27 | a same-line span after opener-free text is deleted and everything else is kept |
| Passes.StripDelimitedKeeps | youtube_metadata_fetcher/main.py:26-27 | a bracket pass adds no character |
| Passes.DeleteChar | youtube_metadata_fetcher/main.py:30 | a character is in the result iff it is in the input and is not the deleted one |
| Passes.DeleteCharAbsent | youtube_metadata_fetcher/main.py:30 | deleting an absent character changes nothing |
| Passes.DeleteCharAppend | youtube_metadata_fetcher/main.py:30 | pass 5 works piece by piece, so every character other than the deleted one keeps its place in order |
| Passes.DeleteCharCounts | youtube_metadata_fetcher/main.py:30 | pass 5 keeps each other character exactly as often as it occurs, and no deleted character |
| Passes.ReplaceChar | youtube_metadata_fetcher/main.py:31 | the result has the input's length, with the replaced character changed at each of its positions and every other character kept |
| Passes.ReplaceOneNewline | youtube_metadata_fetcher/main.py:31 | one newline between newline-free pieces becomes one space |
| CleaningExamples.WorkedExample | youtube_metadata_fetcher/main.py:17-37 | a one-cue WEBVTT file with a header, a timing line, a `[Music]` label and `<c>` tags cleans to "Hello world" |
| CleaningExamples.OneCueFile | youtube_metadata_fetcher/main.py:17-37 | any one-cue file of that shape cleans to its plain words |
| CleaningExamples.NotIdempotent | youtube_metadata_fetcher/main.py:26-35 | "[a\nb]" cleans to "[a b]", and "[a b]" cleans to "" |
| CleaningExamples.SplitSpanKept | youtube_metadata_fetcher/main.py:27-35 | a label split by a newline is kept, with the newline turned into a space |
| CleaningExamples.FlatSpanGoes | youtube_metadata_fetcher/main.py:27-35 | a single-line label with nothing else in the text cleans to "" |
| Fetcher.ChosenTracks | youtube_metadata_fetcher/main.py:111 | the manual subtitles when truthy, else the automatic captions; specified by Fetcher.ManualShadowsAutomatic and Fetcher.AutomaticFallback |
| Fetcher.SelectTranscript | youtube_metadata_fetcher/main.py:111-122 | which transcript a video gets; specified by Fetcher.SelectTranscriptVtt and Fetcher.SelectTranscriptNoVtt |
| Fetcher.FetchTranscript | youtube_metadata_fetcher/main.py:147-153 | the caption text, or the prefixed error message; specified by Fetcher.FailedFetchTranscript and Fetcher.FailedFetchContent |
| Fetcher.VideoRecord | youtube_metadata_fetcher/main.py:106-128 | the record of one video; specified by Fetcher.VideoRecordSpec |
| Fetcher.FileName | youtube_metadata_fetcher/main.py:130-135 | the output file name; specified by Fetcher.FileNameSpec and Fetcher.FormatExamples |
| Fetcher.TextBody | youtube_metadata_fetcher/main.py:136-139 | the text layout; its inverse is Fetcher.ParseTextBody, by Fetcher.ParseTextBodySpec |
| Fetcher.Render | youtube_metadata_fetcher/main.py:130-139 | the file for a record in a format; specified by Fetcher.ProcessVideoSpec |
| Fetcher.ProcessVideo | youtube_metadata_fetcher/main.py:92-144 | the file one video yields; specified by Fetcher.ProcessVideoSpec |
| Fetcher.EntriesOutputs | youtube_metadata_fetcher/main.py:76-83 | the files of the entries loop; specified by Fetcher.EntriesOutputsSkipsUnavailable, Fetcher.EntriesOutputsAppend, Fetcher.EntriesOutputsStops and Fetcher.EntriesOutputsFrom |
| Fetcher.FetchAll | youtube_metadata_fetcher/main.py:59-89 | the files of one run; the method Fetcher.FetchMetadata is proved equal to it |
| Fetcher.FirstVtt | youtube_metadata_fetcher/main.py:114-115 | the position found is the first "vtt" format; when none is found, no format is "vtt" |
| Fetcher.SelectTranscriptVtt | youtube_metadata_fetcher/main.py:111-117 | a URL is fetched iff the chosen track set is truthy, has "en", and the first vtt format has that non-empty URL |
| Fetcher.SelectTranscriptNoVtt | youtube_metadata_fetcher/main.py:111-120 | the VTT message is stored iff English formats exist but the first vtt one is missing or has an empty or None URL |
| Fetcher.FirstVttUnique | youtube_metadata_fetcher/main.py:114-115 | there is only one first vtt format |
| Fetcher.ManualShadowsAutomatic | youtube_metadata_fetcher/main.py:111-122 | with truthy manual subtitles the automatic captions are never consulted, and without "en" the no-English message follows |
| Fetcher.AutomaticFallback | youtube_metadata_fetcher/main.py:111-122 | with no truthy manual subtitles the automatic captions decide, and none of either gives the no-English message |
| Fetcher.TranscriptFor | youtube_metadata_fetcher/main.py:116-122 | a fetched transcript is flat, has no '<', and is stripped and collapsed |
| Fetcher.FailedFetchTranscript | youtube_metadata_fetcher/main.py:147-153 | a failed request stores its collapsed error message as the transcript, when the message holds no newline, '<' or '[' |
| Fetcher.FailedFetchContent | youtube_metadata_fetcher/main.py:117-118 | for any error message, the stored transcript is, apart from whitespace, the error prefix followed by the message with its headers, stamps, same-line tags and bracketed parts and every '<' removed |
| Fetcher.FetchErrorPrefixFlat | youtube_metadata_fetcher/main.py:153 | the error prefix has no newline, '<' or '[' |
| Fetcher.IsJson | youtube_metadata_fetcher/main.py:130 | the format test; specified by Fetcher.IsJsonCaseless and Fetcher.IsJsonSpelling |
| Fetcher.IsJsonCaseless | youtube_metadata_fetcher/main.py:130 | the format test ignores case |
| Fetcher.IsJsonSpelling | youtube_metadata_fetcher/main.py:130 | the formats that select JSON are exactly the four-letter spellings of "json" in any mix of cases |
| Fetcher.FormatExamples | youtube_metadata_fetcher/main.py:130-135 | "JSON" and "Json" give `<id>.json`; "text" and "TEXT" give `<id>.txt` |
| Fetcher.FileNameSpec | youtube_metadata_fetcher/main.py:130-135 | the name is `<id>.json` iff the format is "json" in any case and `<id>.txt` otherwise; the id is its prefix |
| Fetcher.BreakLine | youtube_metadata_fetcher/main.py:137-139 | a text splits into a newline-free first line and the rest, or has no newline at all |
| Fetcher.BreakLineOf | youtube_metadata_fetcher/main.py:137-139 | a newline-free line breaks off at its own newline |
| Fetcher.ParseTextBodySpec | youtube_metadata_fetcher/main.py:136-139 | a text file reads back as a record iff it is that record's layout and the title and description are single lines |
| Fetcher.ParseTextBodyRoundTrip | youtube_metadata_fetcher/main.py:136-139 | the layout of a record with single-line title and description reads back as that record |
| Fetcher.ParseTextBodyInverse | youtube_metadata_fetcher/main.py:136-139 | whatever reads back is the layout of the record it reads back as |
| Fetcher.VideoRecordSpec | youtube_metadata_fetcher/main.py:106-128 | the title and description are "N/A" or cleaned with their non-whitespace text kept; the transcript is the message or cleaned text matching the selection |
| Fetcher.SentinelFlat | youtube_metadata_fetcher/main.py:11 | "N/A" is stripped and collapsed |
| Fetcher.ProcessVideoSpec | youtube_metadata_fetcher/main.py:101-144 | a file is written iff the extraction succeeds and has an id; it is `<id>.json` iff the format is "json" in any case; a text file reads back as the video's record iff the cleaned title and description are single lines, which holds whenever the raw ones have no newline |
| Fetcher.CleanTextNoNewline | youtube_metadata_fetcher/main.py:9-14 | cleaning a value without a newline gives a single line |
| Fetcher.FetchMetadata | youtube_metadata_fetcher/main.py:59-89 | the loop writes exactly the files of the recursive definition: none on a failed extraction, at most one for a single video (what Fetcher.ProcessVideo gives), none for an untitled playlist, else the entries in order |
| Fetcher.EntriesOutputsSkipsUnavailable | youtube_metadata_fetcher/main.py:76-79 | unavailable entries contribute nothing: the files are those of the available entries |
| Fetcher.EntriesOutputsAppend | youtube_metadata_fetcher/main.py:76-83 | entries are processed in order: with no missing id in the first part, its files come first |
| Fetcher.EntriesOutputsStops | youtube_metadata_fetcher/main.py:81-89 | an entry without an id stops the loop, so nothing after it is written |
| Fetcher.WatchUrl | youtube_metadata_fetcher/main.py:81-82 | the watch URL built from an entry's id; Fetcher.EntriesOutputsFrom states that each file comes from some entry's watch URL |
| Fetcher.EntriesOutputsFrom | youtube_metadata_fetcher/main.py:76-83 | at most one file per entry, and each file is what processing some entry's watch URL gives |
| VariantCleaning.Join | youtube_metadata_fetcher/test.py:59 | `" ".join`; Split inverts it, by VariantCleaning.SplitJoin and VariantCleaning.JoinLength |
| VariantCleaning.CleanTranscript | youtube_metadata_fetcher/test.py:35-61 | the stopword cleaner; specified by VariantCleaning.CleanTranscriptSpec |
| VariantCleaning.Prepare | youtube_metadata_fetcher/test.py:40-49 | the text handed to the tokenizer is stripped and collapsed |
| VariantCleaning.PrepareContent | youtube_metadata_fetcher/test.py:40-49 | apart from whitespace, it is what passes 1 to 4 leave |
| VariantCleaning.PrepareMatchesCleaning | youtube_metadata_fetcher/test.py:40-49 | where passes 1 to 4 leave no '<' and no newline, both cleaners prepare the same text |
| VariantCleaning.BasePassesUntouched | youtube_metadata_fetcher/test.py:40-47 | text with no 'W', digit, '<' or '[' passes through passes 1 to 4 unchanged |
| VariantCleaning.NewlineSurvives | youtube_metadata_fetcher/test.py:48-49 | a single newline between words is kept here, where the first cleaner turns it into a space |
| VariantCleaning.JoinedFlat | youtube_metadata_fetcher/test.py:48-49 | two flat pieces joined by one whitespace character are stripped and collapsed |
| VariantCleaning.Filter | youtube_metadata_fetcher/test.py:56 | the filter never adds tokens |
| VariantCleaning.FilterSpec | youtube_metadata_fetcher/test.py:56 | every non-stopword token is kept as often as it occurs, every stopword is dropped, and the order is kept |
| VariantCleaning.FilterIdempotent | youtube_metadata_fetcher/test.py:56 | filtering twice is filtering once |
| VariantCleaning.FilterAppend | youtube_metadata_fetcher/test.py:56 | the filter works token by token |
| VariantCleaning.SplitJoin | youtube_metadata_fetcher/test.py:59 | splitting the join of non-empty, space-free tokens at spaces gives the tokens back |
| VariantCleaning.JoinLength | youtube_metadata_fetcher/test.py:59 | the join puts exactly one space between neighbours |
| VariantCleaning.CleanTranscriptSpec | youtube_metadata_fetcher/test.py:35-61 | the result is empty when all tokens are stopwords, and otherwise splits back into the kept tokens when they hold no space |
| VariantFetcher.TranscriptFor | youtube_metadata_fetcher/test.py:103-114 | the stored transcript; specified by VariantFetcher.MetadataTranscript |
| VariantFetcher.Metadata | youtube_metadata_fetcher/test.py:96-114 | the metadata dictionary; specified by VariantFetcher.MetadataTranscript and VariantFetcher.FetchMetadataSpec |
| VariantFetcher.RawTextBody | youtube_metadata_fetcher/test.py:121-126 | the text layout with `None` shown; specified by VariantFetcher.RawTextBodyReadsBack and VariantFetcher.MissingTitleShownAsNone |
| VariantFetcher.FetchMetadata | youtube_metadata_fetcher/test.py:77-131 | the one file of a run; specified by VariantFetcher.FetchMetadataSpec |
| VariantFetcher.RawTextBodyReadsBack | youtube_metadata_fetcher/test.py:121-126 | a text file reads back as the shown title, the description and the transcript |
| VariantFetcher.Show | youtube_metadata_fetcher/test.py:124-125 | how an f-string shows a possibly missing value; specified by VariantFetcher.MissingTitleShownAsNone and VariantFetcher.RawTextBodyReadsBack |
| VariantFetcher.MissingTitleShownAsNone | youtube_metadata_fetcher/test.py:124 | in a text file a missing title cannot be told from the title "None" |
| VariantFetcher.FetchMetadataSpec | youtube_metadata_fetcher/test.py:94-126 | a file is written iff the extraction succeeds and has an id; its name and content follow the format; the title and description are stored as returned |
| VariantFetcher.MetadataTranscript | youtube_metadata_fetcher/test.py:103-114 | without a VTT URL both scripts store the same message; with one, the transcript is empty when every token is a stopword and otherwise splits back into the kept tokens when they hold no space |
| VariantFetcher.PlaylistGetsNoTranscript | youtube_metadata_fetcher/test.py:103-114 | an info without either track set gets the no-English message |

## Left out

- yt-dlp, `requests` and NLTK are outside code. The extraction, the HTTP request, the
  tokenizer and the stopword set are function parameters. An exception the extraction
  raises is modelled only by its outcome, not by its message. An exception the request
  raises is modelled by its message, which is an arbitrary string (`Failed(detail)`).
- The `click` command line, `mkdir` and opening and writing files are left out. The model
  returns the sequence of files written, as (name inside the output directory, content). A
  later file with the same name overwrites an earlier one; that is not modelled.
- JSON serialisation (pydantic's `model_dump_json`, `json.dump`) is left out. The model keeps
  the record and its field order.
- The messages printed with `click.echo` and the `test.py` script's import-time NLTK
  downloads and prints are left out, because they write only to the console.
- When an exception is caught, only what is written is modelled, not the message printed.
- Python's `KeyError`s on a caption format without "ext" or "url" are left out, and so is
  iterating an `entries` value that is `None`. The model gives every format an extension and
  an optional URL, and treats an absent `entries` key as a single video. A missing `id` in a
  playlist entry and a missing playlist `title` are modelled: they abort the loop or prevent
  it.
- Text.IsDigit: `\d` is modelled on ASCII digits only, not on every Unicode decimal digit,
  because captions carry ASCII timestamps.
- Text.Lower: `str.lower()` is modelled on ASCII letters only, because Unicode case mapping
  tables are outside the language.
- Fetcher.VideoRecordSpec and Fetcher.TranscriptFor do not state that a cleaned transcript
  differs from the two fixed messages, because it need not.
