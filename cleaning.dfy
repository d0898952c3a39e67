/**
 The two cleaning functions of the fetcher: `clean_text`, applied to a video's title and
 description, and `clean_transcript`, applied to the caption payload fetched for it.
 */
module Cleaning {
  import opened Wrappers
  import opened Text
  import opened Passes

  /** What `clean_text` returns for a missing or empty value. */
  const Sentinel: string := "N/A"

  /** `clean_text`: a missing or empty value becomes the sentinel; anything else has its
      whitespace runs collapsed and is stripped, keeping every other character in order. */
  function CleanText(text: Option<string>): (r: string)
    ensures text.None? || text == Some([]) ==> r == Sentinel
    ensures text.Some? && text.value != [] ==>
      Trimmed(r) && NoDoubleSpace(r) && RemoveSpaces(r) == RemoveSpaces(text.value)
  {
    if text.None? || text.value == [] then Sentinel
    else
      SquishRemoveSpaces(text.value);
      Squish(text.value)
  }

  /** A non-empty value made only of whitespace cleans to the empty string, not to the
      sentinel; cleaning that result again gives the sentinel. */
  lemma CleanTextBlank(t: string)
    requires t != [] && AllSpace(t)
    ensures CleanText(Some(t)) == []
    ensures CleanText(Some(CleanText(Some(t)))) == Sentinel
  {
    SquishAllSpace(t);
  }

  /** A value that is already stripped and has no adjacent whitespace is returned as it is,
      so a single tab or newline between words is kept. */
  lemma CleanTextFixpoint(t: string)
    requires t != [] && Trimmed(t) && NoDoubleSpace(t)
    ensures CleanText(Some(t)) == t
  {
    SquishFixpoint(t);
  }

  /** Cleaning a non-empty result once more changes nothing. */
  lemma CleanTextIdempotent(text: Option<string>)
    requires CleanText(text) != []
    ensures CleanText(Some(CleanText(text))) == CleanText(text)
  {
    CleanTextFixpoint(CleanText(text));
  }

  /** Words separated by a run of whitespace come out separated by exactly one space, with
      the surrounding whitespace gone. */
  lemma CleanTextSeparatesWords(w1: string, x: string, w2: string, y: string, w3: string)
    requires AllSpace(w1) && AllSpace(w2) && AllSpace(w3) && |w2| >= 2
    requires x != [] && Trimmed(x) && NoDoubleSpace(x) && y != [] && Trimmed(y) && NoDoubleSpace(y)
    ensures CleanText(Some(w1 + x + w2 + y + w3)) == x + " " + y
  {
    SquishTwoWords(w1, x, w2, y, w3);
  }

  /** `clean_transcript`: passes 1 to 4, then every '<' deleted, every newline turned into a
      space, whitespace runs collapsed and the ends stripped. */
  function CleanTranscript(raw: string): (r: string)
    ensures '\n' !in r && '<' !in r
    ensures Trimmed(r) && NoDoubleSpace(r)
  {
    var d := DeleteChar(BasePasses(raw), '<');
    var t := ReplaceChar(d, '\n', ' ');
    ReplaceCharKeeps(d, '\n', ' ', '<');
    SquishChar(t, '\n');
    SquishChar(t, '<');
    Squish(t)
  }

  /** Turning one whitespace character into another leaves the non-whitespace text alone. */
  lemma {:induction false} RemoveSpacesReplace(s: string)
    ensures RemoveSpaces(ReplaceChar(s, '\n', ' ')) == RemoveSpaces(s)
    decreases |s|
  {
    if s != [] {
      RemoveSpacesReplace(s[1..]);
    }
  }

  /** Apart from whitespace, the transcript is what passes 1 to 4 leave, minus every '<'. */
  lemma CleanTranscriptContent(raw: string)
    ensures RemoveSpaces(CleanTranscript(raw)) == RemoveSpaces(DeleteChar(BasePasses(raw), '<'))
  {
    var d := DeleteChar(BasePasses(raw), '<');
    RemoveSpacesReplace(d);
    SquishRemoveSpaces(ReplaceChar(d, '\n', ' '));
  }

  /** On text with no newline and no '<', every pass but the `[...]` one and the final
      collapse and strip changes nothing. */
  lemma CleanTranscriptOfFlat(s: string)
    requires '\n' !in s && '<' !in s
    ensures StripHeaders(s) == s && StripTimestamps(s) == s && StripDelimited(s, Angle) == s
    ensures var d := StripDelimited(s, Square); DeleteChar(d, '<') == d && ReplaceChar(d, '\n', ' ') == d
    ensures CleanTranscript(s) == Squish(StripDelimited(s, Square))
  {
    StripHeadersNoNewline(s);
    StripTimestampsNoNewline(s);
    StripDelimitedNoOpen(s, Angle);
    var d := StripDelimited(s, Square);
    StripDelimitedKeeps(s, Square, '<');
    StripDelimitedKeeps(s, Square, '\n');
    DeleteCharAbsent(d, '<');
    assert ReplaceChar(d, '\n', ' ') == d;
  }

  /** On a second run over its own output, the header, timestamp, `<...>`, '<' and newline
      passes are no-ops: only the `[...]` pass and the collapse and strip can act. */
  lemma CleanTranscriptSecondRun(raw: string)
    ensures var c := CleanTranscript(raw);
      && StripHeaders(c) == c && StripTimestamps(c) == c && StripDelimited(c, Angle) == c
      && CleanTranscript(c) == Squish(StripDelimited(c, Square))
  {
    CleanTranscriptOfFlat(CleanTranscript(raw));
  }

  /** The transcripts that cleaning leaves unchanged are exactly the flat, collapsed,
      stripped texts with no same-line `[...]` span. */
  lemma CleanTranscriptFixpoint(s: string)
    ensures CleanTranscript(s) == s <==>
      '\n' !in s && '<' !in s && Trimmed(s) && NoDoubleSpace(s) && StripDelimited(s, Square) == s
  {
    if '\n' !in s && '<' !in s {
      CleanTranscriptOfFlat(s);
      var d := StripDelimited(s, Square);
      SquishLength(d);
      if Trimmed(s) && NoDoubleSpace(s) && d == s {
        SquishFixpoint(s);
      }
    }
  }
}
