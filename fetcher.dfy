/**
 `process_video`, `fetch_transcript` and `fetch_metadata` of the fetcher. The yt-dlp
 extraction and the HTTP request are function parameters; the files a run writes are the
 sequence of outputs it returns.
 */
module Fetcher {
  import opened Wrappers
  import opened Text
  import opened Passes
  import opened Cleaning

  /* ---------- The info dictionaries ---------- */

  /** One subtitle format offered for a language; `url` is `None` when it holds no string. */
  datatype Format = Format(ext: string, url: Option<string>)

  /** Subtitle formats by language code. */
  type Tracks = map<string, seq<Format>>

  /** The fields of a video's info dictionary that are read; `None` where `info.get` gives
      `None`, and for `id` where the key is absent. */
  datatype VideoInfo = VideoInfo(id: Option<string>, title: Option<string>, description: Option<string>,
                                 subtitles: Option<Tracks>, automaticCaptions: Option<Tracks>)

  /** The outcome of the HTTP request for a caption file: its text, or the error's message. */
  datatype FetchResult = Fetched(body: string) | Failed(detail: string)

  /* ---------- Transcript selection ---------- */

  const EnglishKey: string := "en"
  const VttExt: string := "vtt"
  const NoEnglishMessage: string := "No English subtitles available."
  const NoVttMessage: string := "Transcript not available in VTT format."
  const FetchErrorPrefix: string := "Error fetching transcript: "

  /** A dictionary value is truthy when it is present and not empty. */
  predicate Truthy(t: Option<Tracks>) {
    t.Some? && |t.value| > 0
  }

  /** `info.get("subtitles") or info.get("automatic_captions")`. */
  function ChosenTracks(info: VideoInfo): Option<Tracks> {
    if Truthy(info.subtitles) then info.subtitles else info.automaticCaptions
  }

  /** `i` is the position of the first format whose extension is "vtt". */
  predicate FirstVttAt(fs: seq<Format>, i: nat) {
    i < |fs| && fs[i].ext == VttExt && forall j :: 0 <= j < i ==> fs[j].ext != VttExt
  }

  /** The position `next` stops at when it looks for a "vtt" format. */
  function FirstVtt(fs: seq<Format>): (r: Option<nat>)
    ensures r.Some? ==> FirstVttAt(fs, r.value)
    ensures r.None? ==> forall j :: 0 <= j < |fs| ==> fs[j].ext != VttExt
  {
    if fs == [] then None
    else if fs[0].ext == VttExt then Some(0)
    else
      match FirstVtt(fs[1..])
      case None => None
      case Some(i) => Some(i + 1)
  }

  /** The three ways the selection ends. */
  datatype Selection = NoEnglish | NoVtt | VttUrl(url: string)

  /** Which transcript a video gets: no truthy track set with "en", no usable "vtt" URL, or
      the URL to fetch. */
  function SelectTranscript(info: VideoInfo): Selection {
    var tracks := ChosenTracks(info);
    if !Truthy(tracks) || EnglishKey !in tracks.value then NoEnglish
    else
      var fs := tracks.value[EnglishKey];
      match FirstVtt(fs)
      case None => NoVtt
      case Some(i) =>
        if fs[i].url.None? || fs[i].url.value == [] then NoVtt else VttUrl(fs[i].url.value)
  }

  /** The selection fetches exactly the non-empty URL of the first "vtt" format among the
      English formats of the chosen track set. */
  lemma SelectTranscriptVtt(info: VideoInfo, u: string)
    ensures SelectTranscript(info) == VttUrl(u) <==>
      var t := ChosenTracks(info);
      && Truthy(t) && EnglishKey in t.value && u != []
      && exists i: nat :: FirstVttAt(t.value[EnglishKey], i) && t.value[EnglishKey][i].url == Some(u)
  {
    var t := ChosenTracks(info);
    if Truthy(t) && EnglishKey in t.value {
      var fs := t.value[EnglishKey];
      forall i: nat | FirstVttAt(fs, i) ensures FirstVtt(fs) == Some(i) {
        FirstVttUnique(fs, FirstVtt(fs).value, i);
      }
    }
  }

  /** The selection gives up on VTT exactly when English formats exist but the first "vtt"
      one is missing or has an empty or `None` URL. */
  lemma SelectTranscriptNoVtt(info: VideoInfo)
    ensures SelectTranscript(info) == NoVtt <==>
      var t := ChosenTracks(info);
      && Truthy(t) && EnglishKey in t.value
      && forall i: nat :: FirstVttAt(t.value[EnglishKey], i) ==>
           t.value[EnglishKey][i].url == None || t.value[EnglishKey][i].url == Some([])
  {
    var t := ChosenTracks(info);
    if Truthy(t) && EnglishKey in t.value {
      var fs := t.value[EnglishKey];
      forall i: nat | FirstVttAt(fs, i) ensures FirstVtt(fs) == Some(i) {
        FirstVttUnique(fs, FirstVtt(fs).value, i);
      }
    }
  }

  /** There is only one first "vtt" format. */
  lemma FirstVttUnique(fs: seq<Format>, i: nat, j: nat)
    requires FirstVttAt(fs, i) && FirstVttAt(fs, j)
    ensures i == j
  {
  }

  /** Truthy manual subtitles shadow the automatic captions entirely: whatever those are,
      the selection is the same, and without "en" it is `NoEnglish`. */
  lemma ManualShadowsAutomatic(info: VideoInfo, auto: Option<Tracks>)
    requires Truthy(info.subtitles)
    ensures SelectTranscript(info.(automaticCaptions := auto)) == SelectTranscript(info)
    ensures EnglishKey !in info.subtitles.value ==> SelectTranscript(info) == NoEnglish
  {
  }

  /** Without truthy manual subtitles, the automatic captions decide. */
  lemma AutomaticFallback(info: VideoInfo, manual: Option<Tracks>)
    requires !Truthy(info.subtitles) && !Truthy(manual)
    ensures SelectTranscript(info.(subtitles := manual)) == SelectTranscript(info)
    ensures !Truthy(info.automaticCaptions) ==> SelectTranscript(info) == NoEnglish
  {
  }

  /** `fetch_transcript`: the caption text, or the error message in its place. */
  function FetchTranscript(fetch: string -> FetchResult, url: string): string {
    match fetch(url)
    case Fetched(body) => body
    case Failed(detail) => FetchErrorPrefix + detail
  }

  /** The transcript stored for a selection: a fixed message, or the fetched text cleaned. */
  function TranscriptFor(sel: Selection, fetch: string -> FetchResult): (r: string)
    ensures sel.VttUrl? ==> '\n' !in r && '<' !in r && Trimmed(r) && NoDoubleSpace(r)
  {
    match sel
    case NoEnglish => NoEnglishMessage
    case NoVtt => NoVttMessage
    case VttUrl(u) => CleanTranscript(FetchTranscript(fetch, u))
  }

  /** A failed request puts its own message, collapsed, where the transcript goes, provided
      the message has no newline and no bracket a pass would act on. */
  lemma FailedFetchTranscript(fetch: string -> FetchResult, u: string, d: string)
    requires fetch(u) == Failed(d)
    requires '\n' !in d && '<' !in d && '[' !in d
    ensures TranscriptFor(VttUrl(u), fetch) == Squish(FetchErrorPrefix + d)
  {
    FetchErrorPrefixFlat();
    var s := FetchErrorPrefix + d;
    CleanTranscriptOfFlat(s);
    StripDelimitedNoOpen(s, Square);
  }

  /** The error prefix has no newline and no bracket. */
  lemma FetchErrorPrefixFlat()
    ensures '\n' !in FetchErrorPrefix && '<' !in FetchErrorPrefix && '[' !in FetchErrorPrefix
  {
    FetchErrorPrefixChars();
  }

  /** The error prefix, character by character. */
  lemma FetchErrorPrefixChars()
    ensures forall i :: 0 <= i < |FetchErrorPrefix| ==>
      FetchErrorPrefix[i] != '\n' && FetchErrorPrefix[i] != '<' && FetchErrorPrefix[i] != '['
      && FetchErrorPrefix[i] != 'W' && !IsDigit(FetchErrorPrefix[i])
  {
  }

  /** Whatever the error message holds, the stored transcript is, apart from whitespace, the
      error prefix followed by the message as passes 1 to 5 leave it: tags such as
      `<... object at ...>` and bracketed parts such as `[Errno -2]` closed on their line are
      deleted from it. */
  lemma FailedFetchContent(fetch: string -> FetchResult, u: string, d: string)
    requires fetch(u) == Failed(d)
    ensures RemoveSpaces(TranscriptFor(VttUrl(u), fetch))
         == RemoveSpaces(FetchErrorPrefix + DeleteChar(BasePasses(d), '<'))
  {
    var p := FetchErrorPrefix;
    FetchErrorPrefixChars();
    assert 'W' !in p && '<' !in p && '[' !in p;
    assert forall c :: c in p ==> !IsDigit(c);
    StripHeadersPrefix(p, d);
    StripTimestampsPrefix(p, StripHeaders(d));
    StripDelimitedPrefix(p, StripTimestamps(StripHeaders(d)), Angle);
    StripDelimitedPrefix(p, StripDelimited(StripTimestamps(StripHeaders(d)), Angle), Square);
    assert BasePasses(p + d) == p + BasePasses(d);
    DeleteCharAppend(p, BasePasses(d), '<');
    DeleteCharAbsent(p, '<');
    CleanTranscriptContent(p + d);
  }

  /* ---------- The record and its two renderings ---------- */

  /** `VideoMetadata`, in its field order. */
  datatype Record = Record(title: string, description: string, transcript: string)

  /** What a file holds: the record as JSON (its serialisation is not modelled), or text. */
  datatype Content = Json(record: Record) | TextFile(body: string)

  /** One file written: its name inside the output directory, and its content. */
  datatype Output = Output(name: string, content: Content)

  /** `format.lower() == "json"`. */
  predicate IsJson(format: string) {
    Lower(format) == "json"
  }

  /** The format test ignores the case of the format. */
  lemma IsJsonCaseless(format: string)
    ensures IsJson(Lower(format)) <==> IsJson(format)
  {
    LowerIdempotent(format);
  }

  /** The formats that select JSON are exactly the spellings of "json" in any mix of cases,
      so "JSON" and "Json" give a `.json` file and "text" a `.txt` file. */
  lemma IsJsonSpelling(format: string)
    ensures IsJson(format) <==>
      && |format| == 4
      && (format[0] == 'j' || format[0] == 'J') && (format[1] == 's' || format[1] == 'S')
      && (format[2] == 'o' || format[2] == 'O') && (format[3] == 'n' || format[3] == 'N')
  {
    if |format| == 4 {
      var l := Lower(format);
      assert l == "json" <==> l[0] == 'j' && l[1] == 's' && l[2] == 'o' && l[3] == 'n';
    }
  }

  /** The format names the command line offers, in two cases each. */
  lemma FormatExamples(id: string)
    ensures FileName(id, "JSON") == id + JsonSuffix && FileName(id, "Json") == id + JsonSuffix
    ensures FileName(id, "text") == id + TextSuffix && FileName(id, "TEXT") == id + TextSuffix
  {
    IsJsonSpelling("JSON");
    IsJsonSpelling("Json");
    IsJsonSpelling("text");
    IsJsonSpelling("TEXT");
  }

  const JsonSuffix: string := ".json"
  const TextSuffix: string := ".txt"

  /** The file name: the video id and the suffix of the format. */
  function FileName(id: string, format: string): string {
    id + (if IsJson(format) then JsonSuffix else TextSuffix)
  }

  /** The file name is `<id>.json` exactly when the format is "json" in any case, and
      `<id>.txt` otherwise; the id can be read back from the name. */
  lemma FileNameSpec(id: string, format: string)
    ensures FileName(id, format) == id + JsonSuffix <==> IsJson(format)
    ensures FileName(id, format) == id + TextSuffix <==> !IsJson(format)
    ensures FileName(id, format)[..|id|] == id
  {
    var n := FileName(id, format);
    if IsJson(format) {
      assert n[|n| - 1] == 'n' && (id + TextSuffix)[|id| + 3] == 't';
    } else {
      assert |n| != |id + JsonSuffix|;
    }
  }

  const TitlePrefix: string := "Title: "
  const DescriptionPrefix: string := "Description: "
  const TranscriptHeading: string := "Transcript:"

  /** `s` as a line of a file. */
  function Line(s: string): string {
    s + "\n"
  }

  /** The text file: a title line, a description line, a heading line and the transcript. */
  function TextBody(r: Record): string {
    Line(TitlePrefix + r.title) + (Line(DescriptionPrefix + r.description)
      + (Line(TranscriptHeading) + Line(r.transcript)))
  }

  /** The first line of `s` and what follows its newline. */
  function BreakLine(s: string): (r: Option<(string, string)>)
    ensures r.Some? ==> s == Line(r.value.0) + r.value.1 && '\n' !in r.value.0
    ensures r.None? ==> '\n' !in s
  {
    if s == [] then None
    else if s[0] == '\n' then Some(([], s[1..]))
    else
      match BreakLine(s[1..])
      case None => None
      case Some(p) =>
        assert s == [s[0]] + s[1..];
        Some(([s[0]] + p.0, p.1))
  }

  /** A newline-free line is broken off exactly at its own newline. */
  lemma {:induction false} BreakLineOf(a: string, rest: string)
    requires '\n' !in a
    ensures BreakLine(Line(a) + rest) == Some((a, rest))
    decreases |a|
  {
    var s := Line(a) + rest;
    if a == [] {
      assert s == "\n" + rest && s[1..] == rest;
    } else {
      assert s[0] == a[0] && s[1..] == Line(a[1..]) + rest;
      BreakLineOf(a[1..], rest);
      assert [a[0]] + a[1..] == a;
    }
  }

  /** Reading a text file back into its record. */
  function ParseTextBody(b: string): Option<Record> {
    match BreakLine(b)
    case None => None
    case Some(l1) =>
      if !StartsWith(l1.0, TitlePrefix) then None
      else
        match BreakLine(l1.1)
        case None => None
        case Some(l2) =>
          if !StartsWith(l2.0, DescriptionPrefix) then None
          else
            match BreakLine(l2.1)
            case None => None
            case Some(l3) =>
              if l3.0 != TranscriptHeading || l3.1 == [] || l3.1[|l3.1| - 1] != '\n' then None
              else
                Some(Record(l1.0[|TitlePrefix|..], l2.0[|DescriptionPrefix|..], l3.1[..|l3.1| - 1]))
  }

  /** A text file reads back as its record exactly when the title and the description are
      single lines; the transcript may hold anything. */
  lemma ParseTextBodySpec(b: string, r: Record)
    ensures ParseTextBody(b) == Some(r) <==>
      b == TextBody(r) && '\n' !in r.title && '\n' !in r.description
  {
    if b == TextBody(r) && '\n' !in r.title && '\n' !in r.description {
      ParseTextBodyRoundTrip(r);
    }
    if ParseTextBody(b) == Some(r) {
      ParseTextBodyInverse(b);
    }
  }

  /** A record with single-line title and description reads back from its text file. */
  lemma ParseTextBodyRoundTrip(r: Record)
    requires '\n' !in r.title && '\n' !in r.description
    ensures ParseTextBody(TextBody(r)) == Some(r)
  {
    var t, d := TitlePrefix + r.title, DescriptionPrefix + r.description;
    assert '\n' !in TitlePrefix && '\n' !in DescriptionPrefix && '\n' !in TranscriptHeading;
    var rest2 := Line(TranscriptHeading) + Line(r.transcript);
    var rest1 := Line(d) + rest2;
    BreakLineOf(t, rest1);
    BreakLineOf(d, rest2);
    BreakLineOf(TranscriptHeading, Line(r.transcript));
    assert t[..|TitlePrefix|] == TitlePrefix && t[|TitlePrefix|..] == r.title;
    assert d[..|DescriptionPrefix|] == DescriptionPrefix && d[|DescriptionPrefix|..] == r.description;
    assert Line(r.transcript)[..|r.transcript|] == r.transcript;
  }

  /** Whatever reads back is the text file of what it reads back as. */
  lemma ParseTextBodyInverse(b: string)
    requires ParseTextBody(b).Some?
    ensures var r := ParseTextBody(b).value;
      b == TextBody(r) && '\n' !in r.title && '\n' !in r.description
  {
    var r := ParseTextBody(b).value;
    var l1 := BreakLine(b).value;
    var l2 := BreakLine(l1.1).value;
    var l3 := BreakLine(l2.1).value;
    assert l1.0 == TitlePrefix + r.title;
    assert l2.0 == DescriptionPrefix + r.description;
    assert l3.1 == Line(r.transcript);
  }

  /* ---------- One video ---------- */

  /** The record `process_video` builds from a video's info. */
  function VideoRecord(info: VideoInfo, fetch: string -> FetchResult): Record {
    Record(CleanText(info.title), CleanText(info.description), TranscriptFor(SelectTranscript(info), fetch))
  }

  /** The record's title and description are the sentinel for a missing or empty value and
      otherwise stripped and collapsed; its transcript is one of the two fixed messages or a
      flat, stripped, collapsed text. */
  lemma VideoRecordSpec(info: VideoInfo, fetch: string -> FetchResult)
    ensures var r := VideoRecord(info, fetch);
      && (info.title.None? || info.title == Some([]) ==> r.title == Sentinel)
      && (info.description.None? || info.description == Some([]) ==> r.description == Sentinel)
      && (info.title.Some? && info.title.value != [] ==> RemoveSpaces(r.title) == RemoveSpaces(info.title.value))
      && (info.description.Some? && info.description.value != [] ==>
            RemoveSpaces(r.description) == RemoveSpaces(info.description.value))
      && Trimmed(r.title) && NoDoubleSpace(r.title)
      && Trimmed(r.description) && NoDoubleSpace(r.description)
      && (SelectTranscript(info) == NoEnglish ==> r.transcript == NoEnglishMessage)
      && (SelectTranscript(info) == NoVtt ==> r.transcript == NoVttMessage)
      && (SelectTranscript(info).VttUrl? ==>
            '\n' !in r.transcript && '<' !in r.transcript && Trimmed(r.transcript) && NoDoubleSpace(r.transcript))
  {
    SentinelFlat();
  }

  /** The file for a record in the chosen format. */
  function Render(id: string, format: string, record: Record): Output {
    Output(FileName(id, format), if IsJson(format) then Json(record) else TextFile(TextBody(record)))
  }

  /** `process_video`: the one file written for a video, or nothing when the extraction
      fails or the info has no id. */
  function ProcessVideo(videoUrl: string, format: string, extract: string -> Option<VideoInfo>,
                        fetch: string -> FetchResult): Option<Output>
  {
    match extract(videoUrl)
    case None => None
    case Some(info) =>
      match info.id
      case None => None
      case Some(id) => Some(Render(id, format, VideoRecord(info, fetch)))
  }

  /** The sentinel is stripped and has no adjacent whitespace. */
  lemma SentinelFlat()
    ensures Trimmed(Sentinel) && NoDoubleSpace(Sentinel)
  {
  }

  /** A video yields a file exactly when it is extracted and has an id; the file is named
      after the id and holds the record in the chosen format. */
  lemma ProcessVideoSpec(videoUrl: string, format: string, extract: string -> Option<VideoInfo>,
                         fetch: string -> FetchResult)
    ensures ProcessVideo(videoUrl, format, extract, fetch).Some? <==>
      extract(videoUrl).Some? && extract(videoUrl).value.id.Some?
    ensures ProcessVideo(videoUrl, format, extract, fetch).Some? ==>
      var info, o := extract(videoUrl).value, ProcessVideo(videoUrl, format, extract, fetch).value;
      && o.name == FileName(info.id.value, format)
      && (IsJson(format) ==> o.content == Json(VideoRecord(info, fetch)))
      && (!IsJson(format) ==> o.content == TextFile(TextBody(VideoRecord(info, fetch))))
    ensures ProcessVideo(videoUrl, format, extract, fetch).Some? ==>
      var info, o := extract(videoUrl).value, ProcessVideo(videoUrl, format, extract, fetch).value;
      var r := VideoRecord(info, fetch);
      && (o.name == info.id.value + JsonSuffix <==> IsJson(format))
      && (o.name == info.id.value + TextSuffix <==> !IsJson(format))
      && (o.content.TextFile? ==>
            (ParseTextBody(o.content.body) == Some(r) <==> '\n' !in r.title && '\n' !in r.description))
      && (o.content.TextFile? && NoNewline(info.title) && NoNewline(info.description) ==>
            ParseTextBody(o.content.body) == Some(r))
  {
    if extract(videoUrl).Some? && extract(videoUrl).value.id.Some? {
      var info := extract(videoUrl).value;
      var r := VideoRecord(info, fetch);
      FileNameSpec(info.id.value, format);
      ParseTextBodySpec(TextBody(r), r);
      CleanTextNoNewline(info.title);
      CleanTextNoNewline(info.description);
    }
  }

  /** A value that is missing or holds no newline. */
  predicate NoNewline(v: Option<string>) {
    v.None? || '\n' !in v.value
  }

  /** Cleaning a value without a newline gives a single line. */
  lemma CleanTextNoNewline(v: Option<string>)
    ensures NoNewline(v) ==> '\n' !in CleanText(v)
  {
    if NoNewline(v) && v.Some? && v.value != [] {
      SquishChar(v.value, '\n');
    }
  }

  /* ---------- Playlists ---------- */

  /** A playlist entry; `id` is `None` when the key is absent. */
  datatype Entry = Entry(id: Option<string>)

  /** The fields of the first, flat extraction that are read; `None` for an absent key. */
  datatype TopInfo = TopInfo(title: Option<string>, entries: Option<seq<Option<Entry>>>)

  const WatchPrefix: string := "https://www.youtube.com/watch?v="

  /** The watch URL of a playlist entry. */
  function WatchUrl(id: string): string {
    WatchPrefix + id
  }

  /** The optional file of a video, as a sequence of zero or one files. */
  function AsSeq(o: Option<Output>): seq<Output> {
    if o.Some? then [o.value] else []
  }

  /** The files the entries loop writes: unavailable entries are skipped, each other entry
      is processed in order, and an entry without an id ends the loop, since the lookup
      raises out of it. */
  function EntriesOutputs(es: seq<Option<Entry>>, format: string, extract: string -> Option<VideoInfo>,
                          fetch: string -> FetchResult): seq<Output>
  {
    if es == [] then []
    else
      match es[0]
      case None => EntriesOutputs(es[1..], format, extract, fetch)
      case Some(e) =>
        match e.id
        case None => []
        case Some(id) => AsSeq(ProcessVideo(WatchUrl(id), format, extract, fetch))
                         + EntriesOutputs(es[1..], format, extract, fetch)
  }

  /** `fetch_metadata`: nothing when the first extraction fails; one video when the info has
      no entries; otherwise the entries loop, which a playlist without a title never
      reaches. */
  function FetchAll(url: string, format: string, extractTop: string -> Option<TopInfo>,
                    extract: string -> Option<VideoInfo>, fetch: string -> FetchResult): seq<Output>
  {
    match extractTop(url)
    case None => []
    case Some(top) =>
      if top.entries.None? then AsSeq(ProcessVideo(url, format, extract, fetch))
      else if top.title.None? then []
      else EntriesOutputs(top.entries.value, format, extract, fetch)
  }

  /** `fetch_metadata`, as the loop it is: the files written, in order. */
  method FetchMetadata(url: string, format: string, extractTop: string -> Option<TopInfo>,
                       extract: string -> Option<VideoInfo>, fetch: string -> FetchResult)
    returns (written: seq<Output>)
    ensures written == FetchAll(url, format, extractTop, extract, fetch)
  {
    written := [];
    var top := extractTop(url);
    if top.None? {
      return;
    }
    var info := top.value;
    if info.entries.None? {
      written := AsSeq(ProcessVideo(url, format, extract, fetch));
      return;
    }
    if info.title.None? {
      return;
    }
    var entries := info.entries.value;
    ghost var all := EntriesOutputs(entries, format, extract, fetch);
    assert all == FetchAll(url, format, extractTop, extract, fetch);
    var i := 0;
    while i < |entries|
      invariant 0 <= i <= |entries|
      invariant written + EntriesOutputs(entries[i..], format, extract, fetch) == all
    {
      EntriesOutputsAt(entries, i, format, extract, fetch);
      var entry := entries[i];
      if entry.None? {
        i := i + 1;
        continue;
      }
      if entry.value.id.None? {
        assert written + [] == written;
        return;
      }
      var videoUrl := WatchUrl(entry.value.id.value);
      var out := AsSeq(ProcessVideo(videoUrl, format, extract, fetch));
      AppendAssoc(written, out, EntriesOutputs(entries[i + 1..], format, extract, fetch));
      written := written + out;
      i := i + 1;
    }
    assert entries[i..] == [];
    assert written + [] == written;
  }

  /** Concatenation regroups. */
  lemma AppendAssoc(a: seq<Output>, b: seq<Output>, c: seq<Output>)
    ensures a + b + c == a + (b + c)
  {
  }

  /** One step of the entries loop, from position `i`: an unavailable entry is skipped, an
      entry without an id ends the loop, and any other entry's file comes first. */
  lemma EntriesOutputsAt(es: seq<Option<Entry>>, i: nat, format: string, extract: string -> Option<VideoInfo>,
                         fetch: string -> FetchResult)
    requires i < |es|
    ensures es[i].None? ==>
      EntriesOutputs(es[i..], format, extract, fetch) == EntriesOutputs(es[i + 1..], format, extract, fetch)
    ensures es[i].Some? && es[i].value.id.None? ==> EntriesOutputs(es[i..], format, extract, fetch) == []
    ensures es[i].Some? && es[i].value.id.Some? ==>
      EntriesOutputs(es[i..], format, extract, fetch)
      == AsSeq(ProcessVideo(WatchUrl(es[i].value.id.value), format, extract, fetch))
         + EntriesOutputs(es[i + 1..], format, extract, fetch)
  {
    assert es[i..][0] == es[i] && es[i..][1..] == es[i + 1..];
  }

  /** No entry of `es` lacks its id. */
  predicate NoMissingId(es: seq<Option<Entry>>) {
    forall k :: 0 <= k < |es| ==> es[k].None? || es[k].value.id.Some?
  }

  /** The available entries, in order. */
  function Available(es: seq<Option<Entry>>): (r: seq<Entry>)
    ensures |r| <= |es|
  {
    if es == [] then []
    else (if es[0].Some? then [es[0].value] else []) + Available(es[1..])
  }

  /** Unavailable entries contribute nothing: the loop writes what it writes for the
      available entries alone. */
  lemma {:induction false} EntriesOutputsSkipsUnavailable(es: seq<Option<Entry>>, format: string,
                                                         extract: string -> Option<VideoInfo>,
                                                         fetch: string -> FetchResult)
    ensures EntriesOutputs(es, format, extract, fetch)
         == EntriesOutputs(Somes(Available(es)), format, extract, fetch)
    decreases |es|
  {
    if es != [] {
      EntriesOutputsSkipsUnavailable(es[1..], format, extract, fetch);
      var rest := Somes(Available(es[1..]));
      if es[0].Some? {
        assert Available(es) == [es[0].value] + Available(es[1..]);
        SomesAppend([es[0].value], Available(es[1..]));
        var t := Somes(Available(es));
        assert t[0] == es[0] && t[1..] == rest;
      } else {
        assert Available(es) == Available(es[1..]);
      }
    }
  }

  /** The entries, all available. */
  function Somes(es: seq<Entry>): (r: seq<Option<Entry>>)
    ensures |r| == |es| && forall k :: 0 <= k < |es| ==> r[k] == Some(es[k])
  {
    seq(|es|, k requires 0 <= k < |es| => Some(es[k]))
  }

  /** Marking entries available works piece by piece. */
  lemma SomesAppend(a: seq<Entry>, b: seq<Entry>)
    ensures Somes(a + b) == Somes(a) + Somes(b)
  {
  }

  /** Entries are processed in order: with no id missing from the first part, its files come
      before those of the second. */
  lemma {:induction false} EntriesOutputsAppend(a: seq<Option<Entry>>, b: seq<Option<Entry>>, format: string,
                                               extract: string -> Option<VideoInfo>,
                                               fetch: string -> FetchResult)
    requires NoMissingId(a)
    ensures EntriesOutputs(a + b, format, extract, fetch)
         == EntriesOutputs(a, format, extract, fetch) + EntriesOutputs(b, format, extract, fetch)
    decreases |a|
  {
    if a == [] {
      assert a + b == b;
    } else {
      assert (a + b)[0] == a[0] && (a + b)[1..] == a[1..] + b;
      assert NoMissingId(a[1..]) by {
        forall k | 0 <= k < |a[1..]| ensures a[1..][k].None? || a[1..][k].value.id.Some? {
          assert a[1..][k] == a[k + 1];
        }
      }
      EntriesOutputsAppend(a[1..], b, format, extract, fetch);
      var h := if a[0].None? then [] else AsSeq(ProcessVideo(WatchUrl(a[0].value.id.value), format, extract, fetch));
      assert EntriesOutputs(a, format, extract, fetch) == h + EntriesOutputs(a[1..], format, extract, fetch);
      assert EntriesOutputs(a + b, format, extract, fetch) == h + EntriesOutputs(a[1..] + b, format, extract, fetch);
      AppendAssoc(h, EntriesOutputs(a[1..], format, extract, fetch), EntriesOutputs(b, format, extract, fetch));
    }
  }

  /** An entry without an id stops the loop: nothing after it is written. */
  lemma EntriesOutputsStops(es: seq<Option<Entry>>, k: nat, format: string,
                            extract: string -> Option<VideoInfo>, fetch: string -> FetchResult)
    requires k < |es| && es[k] == Some(Entry(None)) && NoMissingId(es[..k])
    ensures EntriesOutputs(es, format, extract, fetch) == EntriesOutputs(es[..k], format, extract, fetch)
  {
    assert es == es[..k] + es[k..];
    EntriesOutputsAppend(es[..k], es[k..], format, extract, fetch);
    EntriesOutputsAt(es, k, format, extract, fetch);
  }

  /** Every file written comes from an entry with an id, and is what processing that id's
      watch URL gives. */
  lemma {:induction false} EntriesOutputsFrom(es: seq<Option<Entry>>, format: string,
                                             extract: string -> Option<VideoInfo>,
                                             fetch: string -> FetchResult)
    ensures |EntriesOutputs(es, format, extract, fetch)| <= |es|
    ensures forall o :: o in EntriesOutputs(es, format, extract, fetch) ==>
      exists id :: Some(Entry(Some(id))) in es && ProcessVideo(WatchUrl(id), format, extract, fetch) == Some(o)
    decreases |es|
  {
    if es != [] {
      EntriesOutputsFrom(es[1..], format, extract, fetch);
      forall o | o in EntriesOutputs(es[1..], format, extract, fetch)
        ensures exists id :: Some(Entry(Some(id))) in es && ProcessVideo(WatchUrl(id), format, extract, fetch) == Some(o)
      {
        var id :| Some(Entry(Some(id))) in es[1..] && ProcessVideo(WatchUrl(id), format, extract, fetch) == Some(o);
        assert Some(Entry(Some(id))) in es;
      }
      if es[0].Some? && es[0].value.id.Some? {
        var id := es[0].value.id.value;
        assert es[0] == Some(Entry(Some(id)));
      }
    }
  }
}
