/**
 The `fetch_metadata` of the script with the stopword filter: one extraction, the title and
 the description stored as returned, the same transcript selection, and one file.
 */
module VariantFetcher {
  import opened Wrappers
  import opened Text
  import opened Fetcher
  import VariantCleaning

  /** The `metadata` dictionary, in its key order; `None` is stored as JSON `null`. */
  datatype RawRecord = RawRecord(title: Option<string>, description: Option<string>, transcript: string)

  /** What the file holds: the dictionary as JSON (its serialisation is not modelled), or text. */
  datatype RawContent = RawJson(record: RawRecord) | RawText(body: string)

  /** The one file written: its name inside the output directory, and its content. */
  datatype RawOutput = RawOutput(name: string, content: RawContent)

  /** The transcript stored for a selection, cleaned by the stopword-filtering cleaner. */
  function TranscriptFor(sel: Selection, fetch: string -> FetchResult, tokenize: string -> seq<string>,
                         stop: set<string>): string
  {
    match sel
    case NoEnglish => NoEnglishMessage
    case NoVtt => NoVttMessage
    case VttUrl(u) => VariantCleaning.CleanTranscript(FetchTranscript(fetch, u), tokenize, stop)
  }

  /** The dictionary built from the info. */
  function Metadata(info: VideoInfo, fetch: string -> FetchResult, tokenize: string -> seq<string>,
                    stop: set<string>): RawRecord
  {
    RawRecord(info.title, info.description, TranscriptFor(SelectTranscript(info), fetch, tokenize, stop))
  }

  /** How an f-string shows a value that may be `None`. */
  function Show(v: Option<string>): string {
    if v.None? then "None" else v.value
  }

  /** The text file: the same three-part layout as the other script, with `None` shown. */
  function RawTextBody(r: RawRecord): string {
    TextBody(Record(Show(r.title), Show(r.description), r.transcript))
  }

  /** A text file reads back as the shown title and description and the transcript, when
      those two are single lines. */
  lemma RawTextBodyReadsBack(r: RawRecord)
    requires '\n' !in Show(r.title) && '\n' !in Show(r.description)
    ensures ParseTextBody(RawTextBody(r)) == Some(Record(Show(r.title), Show(r.description), r.transcript))
  {
    ParseTextBodySpec(RawTextBody(r), Record(Show(r.title), Show(r.description), r.transcript));
  }

  /** In a text file a missing title cannot be told from the title "None". */
  lemma MissingTitleShownAsNone(d: Option<string>, t: string)
    ensures RawTextBody(RawRecord(None, d, t)) == RawTextBody(RawRecord(Some("None"), d, t))
    ensures RawRecord(None, d, t) != RawRecord(Some("None"), d, t)
  {
  }

  /** `fetch_metadata`: the one file for the URL, or nothing when the extraction fails or the
      info has no id. */
  function FetchMetadata(url: string, format: string, extract: string -> Option<VideoInfo>,
                         fetch: string -> FetchResult, tokenize: string -> seq<string>,
                         stop: set<string>): Option<RawOutput>
  {
    match extract(url)
    case None => None
    case Some(info) =>
      var r := Metadata(info, fetch, tokenize, stop);
      match info.id
      case None => None
      case Some(id) =>
        Some(RawOutput(FileName(id, format), if IsJson(format) then RawJson(r) else RawText(RawTextBody(r))))
  }

  /** A file is written exactly when the info is extracted and has an id; it is `<id>.json`
      holding the dictionary for a "json" format in any case and `<id>.txt` holding the text
      layout otherwise; the title and description are those of the info, unnormalised. */
  lemma FetchMetadataSpec(url: string, format: string, extract: string -> Option<VideoInfo>,
                          fetch: string -> FetchResult, tokenize: string -> seq<string>, stop: set<string>)
    ensures FetchMetadata(url, format, extract, fetch, tokenize, stop).Some? <==>
      extract(url).Some? && extract(url).value.id.Some?
    ensures FetchMetadata(url, format, extract, fetch, tokenize, stop).Some? ==>
      var info, o := extract(url).value, FetchMetadata(url, format, extract, fetch, tokenize, stop).value;
      var r := Metadata(info, fetch, tokenize, stop);
      && (o.name == info.id.value + JsonSuffix <==> IsJson(format))
      && (o.name == info.id.value + TextSuffix <==> !IsJson(format))
      && (o.content.RawJson? <==> IsJson(format))
      && (o.content.RawJson? ==> o.content.record == r)
      && (o.content.RawText? ==> o.content.body == RawTextBody(r))
      && r.title == info.title && r.description == info.description
  {
    if extract(url).Some? && extract(url).value.id.Some? {
      FileNameSpec(extract(url).value.id.value, format);
    }
  }

  /** The transcript follows the same three-way selection as the other script: without a
      VTT URL both scripts store the same message, and with one the stored text is empty when
      every token of the prepared caption text is a stopword, and otherwise splits back into
      the kept tokens when those hold no space. */
  lemma MetadataTranscript(info: VideoInfo, fetch: string -> FetchResult, tokenize: string -> seq<string>,
                           stop: set<string>)
    ensures var t := Metadata(info, fetch, tokenize, stop).transcript;
      && (SelectTranscript(info) == NoEnglish ==> t == NoEnglishMessage)
      && (SelectTranscript(info) == NoVtt ==> t == NoVttMessage)
      && (!SelectTranscript(info).VttUrl? ==> t == VideoRecord(info, fetch).transcript)
      && (SelectTranscript(info).VttUrl? ==>
            t == VariantCleaning.CleanTranscript(FetchTranscript(fetch, SelectTranscript(info).url), tokenize, stop))
    ensures SelectTranscript(info).VttUrl? ==>
      var t := Metadata(info, fetch, tokenize, stop).transcript;
      var words := tokenize(VariantCleaning.Prepare(FetchTranscript(fetch, SelectTranscript(info).url)));
      var kept := VariantCleaning.Filter(words, stop);
      && ((forall w :: w in words ==> Lower(w) in stop) ==> t == [])
      && (kept != [] && (forall k :: 0 <= k < |kept| ==> ' ' !in kept[k]) ==> VariantCleaning.Split(t) == kept)
  {
    if SelectTranscript(info).VttUrl? {
      VariantCleaning.CleanTranscriptSpec(FetchTranscript(fetch, SelectTranscript(info).url), tokenize, stop);
    }
  }

  /** A playlist's info has no subtitles of its own, so the one file written for it, named
      after the playlist, says that no English subtitles are available. */
  lemma PlaylistGetsNoTranscript(info: VideoInfo, fetch: string -> FetchResult, tokenize: string -> seq<string>,
                                 stop: set<string>)
    requires info.subtitles.None? && info.automaticCaptions.None?
    ensures Metadata(info, fetch, tokenize, stop).transcript == NoEnglishMessage
  {
  }
}
