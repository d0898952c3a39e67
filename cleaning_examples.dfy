/**
 Concrete inputs that show how `clean_transcript` behaves at its edges. Inputs are written
 as the concatenation of their lines, which is the same string as the one-piece literal.

 Only the lemmas named after an example, a pass or a property state behaviour. The lemmas
 named `...Facts`, `Plain...`, `Regroup...` and `NewlineNoDigit` state nothing about the
 program. They hold character facts about the literals and regroupings of concatenations.
 They are kept apart so that each example's proof reasons about a few small facts rather
 than about whole literals, which keeps every proof cheap.
 */
module CleaningExamples {
  import opened Wrappers
  import opened Text
  import opened Passes
  import opened Cleaning

  /** Padding and a run of spaces between two words: the result is the two words and one space. */
  lemma SpacedWordsExample()
    ensures CleanText(Some("  a   b  ")) == "a b"
  {
    SpacedWordsFacts();
    CleanTextSeparatesWords("  ", "a", "   ", "b", "  ");
  }

  /** The pieces of the spaced-words input. */
  lemma SpacedWordsFacts()
    ensures "  a   b  " == "  " + "a" + "   " + "b" + "  " && "a b" == "a" + " " + "b"
    ensures AllSpace("  ") && AllSpace("   ") && Trimmed("a") && Trimmed("b")
  {
  }

  /** A one-cue caption file: the header block, a blank line, the cue timing line, and one
      cue line made of a label, a leading text, a tagged word and its closing tag. */
  lemma WorkedExample()
    ensures CleanTranscript("WEBVTT" + "\nKind: captions" + "\nLanguage: en" + "\n"
                            + "\n"
                            + "00:00:00.000" + " --> " + "00:00:02.000" + "\n"
                            + "[Music]" + " Hello " + "<c>" + "world" + "</c>" + "\n")
         == "Hello world"
  {
    ExampleHeaderFacts();
    ExampleTimingFacts();
    ExampleCueFacts();
    OneCueFile("WEBVTT", "\nKind: captions", "\nLanguage: en", "", " captions", " en",
               "00:00:00.000", " --> ", "00:00:02.000",
               "[Music]", " Hello ", "<c>", "world", "</c>", "Music", "c", "/c", "Hello world");
  }

  /** The header lines of the example, cut at their tags. */
  lemma ExampleHeaderFacts()
    ensures "WEBVTT" == Signature + "" && '\n' !in ""
    ensures "\nKind: captions" == KindTag + " captions" && '\n' !in " captions"
    ensures "\nLanguage: en" == LanguageTag + " en" && '\n' !in " en"
  {
  }

  /** The pieces of the example's timing line. */
  lemma ExampleTimingFacts()
    ensures TimestampAt("00:00:00.000")
    ensures NoBreak("00:00:00.000") && NoBreak(" --> ") && NoBreak("00:00:02.000")
  {
  }

  /** The pieces of the example's cue line. */
  lemma ExampleCueFacts()
    ensures "[Music]" == "[" + "Music" + "]" && "<c>" == "<" + "c" + ">" && "</c>" == "<" + "/c" + ">"
    ensures Plain("Music") && Plain(" Hello ") && Plain("world") && Plain("c") && Plain("/c")
    ensures " Hello " + "world" == " " + "Hello world"
    ensures Trimmed("Hello world") && NoDoubleSpace("Hello world")
  {
    ExamplePlainFacts();
    ExampleWordsFacts();
  }

  /** The cue pieces of the worked example hold nothing a pass acts on. */
  lemma ExamplePlainFacts()
    ensures Plain("Music") && Plain(" Hello ") && Plain("world") && Plain("c") && Plain("/c")
  {
    PlainMusic();
    PlainHello();
    PlainWorld();
    PlainTags();
  }

  /** Each cue piece, one at a time. */
  lemma PlainMusic() ensures Plain("Music") { }
  lemma PlainHello() ensures Plain(" Hello ") { }
  lemma PlainWorld() ensures Plain("world") { }
  lemma PlainTags() ensures Plain("c") && Plain("/c") { }

  /** The two word pieces of the worked example join into its expected text. */
  lemma ExampleWordsFacts()
    ensures " Hello " + "world" == " " + "Hello world"
    ensures Trimmed("Hello world") && NoDoubleSpace("Hello world")
  {
  }

  /** Neither a newline nor the first letter of the signature. */
  predicate NoBreak(s: string) {
    '\n' !in s && 'W' !in s
  }

  /** Text that no pass touches: no newline, no 'W', no digit, no bracket of either kind. */
  predicate Plain(s: string) {
    && NoBreak(s) && '[' !in s && ']' !in s && '<' !in s && '>' !in s
    && forall x :: x in s ==> !IsDigit(x)
  }

  /** Any one-cue file of this shape cleans to the cue text outside the label and the tags,
      collapsed and stripped. */
  lemma OneCueFile(h1: string, h2: string, h3: string, a: string, b: string, c: string,
                   t1: string, t2: string, t3: string,
                   c1: string, c2: string, c3: string, c4: string, c5: string,
                   name: string, tag: string, close: string, words: string)
    requires h1 == Signature + a && h2 == KindTag + b && h3 == LanguageTag + c
    requires '\n' !in a && '\n' !in b && '\n' !in c
    requires TimestampAt(t1) && NoBreak(t1) && NoBreak(t2) && NoBreak(t3)
    requires c1 == "[" + name + "]" && c3 == "<" + tag + ">" && c5 == "<" + close + ">"
    requires Plain(name) && Plain(c2) && Plain(c4) && Plain(tag) && Plain(close)
    requires c2 + c4 == " " + words && words != [] && Trimmed(words) && NoDoubleSpace(words)
    ensures CleanTranscript(h1 + h2 + h3 + "\n" + "\n" + t1 + t2 + t3 + "\n"
                            + c1 + c2 + c3 + c4 + c5 + "\n")
         == words
  {
    var timing := t1 + t2 + t3;
    var cue := c1 + c2 + c3 + c4 + c5;
    PlainPieces(name, c2, c4, tag, close, c1, c3, c5);
    CueHeaderPass(h1, h2, h3, a, b, c, t1, t2, t3, c1, c2, c3, c4, c5);
    CueTimingPass(t1, t2, t3, cue);
    CueTagPass(c1, c2, c3, c4, c5, tag, close);
    CueLabelPass(c1, c2, c4, name, words);
    WordsPlain(c2, c4, words);
    FinalStep(words);
  }

  /** Pass 1 on the file: the header lines go. */
  lemma CueHeaderPass(h1: string, h2: string, h3: string, a: string, b: string, c: string,
                      t1: string, t2: string, t3: string,
                      c1: string, c2: string, c3: string, c4: string, c5: string)
    requires h1 == Signature + a && h2 == KindTag + b && h3 == LanguageTag + c
    requires '\n' !in a && '\n' !in b && '\n' !in c
    requires NoBreak(t1 + t2 + t3) && NoBreak(c1 + c2 + c3 + c4 + c5)
    ensures StripHeaders(h1 + h2 + h3 + "\n" + "\n" + t1 + t2 + t3 + "\n" + c1 + c2 + c3 + c4 + c5 + "\n")
         == "\n" + (t1 + t2 + t3) + "\n" + (c1 + c2 + c3 + c4 + c5) + "\n"
  {
    var rest := "\n" + (t1 + t2 + t3) + "\n" + (c1 + c2 + c3 + c4 + c5) + "\n";
    Regroup14(h1, h2, h3, t1, t2, t3, c1, c2, c3, c4, c5);
    assert h1 + h2 + h3 + "\n" + rest == Signature + a + KindTag + b + LanguageTag + c + "\n" + rest;
    HeaderStep(a, b, c, rest);
  }

  /** Pass 2 on what follows the header: the timing line goes. */
  lemma CueTimingPass(t1: string, t2: string, t3: string, cue: string)
    requires TimestampAt(t1) && NoBreak(t1) && NoBreak(t2) && NoBreak(t3)
    requires forall x :: x in cue ==> !IsDigit(x)
    ensures StripTimestamps("\n" + (t1 + t2 + t3) + "\n" + cue + "\n") == "\n" + cue + "\n"
  {
    TimestampAtAppend(t1, t2 + t3);
    assert t1 + t2 + t3 == t1 + (t2 + t3);
    TimingStep(t1 + t2 + t3, cue);
  }

  /** Pass 3 on the cue line: the tags go. */
  lemma CueTagPass(c1: string, c2: string, c3: string, c4: string, c5: string, tag: string, close: string)
    requires '<' !in c1 + c2 && '<' !in c4 && c3 == "<" + tag + ">" && c5 == "<" + close + ">"
    requires '>' !in tag && '>' !in close && '\n' !in tag && '\n' !in close
    ensures StripDelimited("\n" + (c1 + c2 + c3 + c4 + c5) + "\n", Angle) == "\n" + c1 + c2 + (c4 + "\n")
  {
    var p := "\n" + c1 + c2;
    assert "\n" + (c1 + c2 + c3 + c4 + c5) + "\n" == p + (c3 + (c4 + (c5 + "\n")));
    TagStep(p, tag, c4, close);
  }

  /** Pass 4 on the cue line: the label goes. */
  lemma CueLabelPass(c1: string, c2: string, c4: string, name: string, words: string)
    requires c1 == "[" + name + "]" && ']' !in name && '\n' !in name && '[' !in c2 + c4 + "\n"
    requires c2 + c4 == " " + words
    ensures StripDelimited("\n" + c1 + c2 + (c4 + "\n"), Square) == "\n" + " " + words + "\n"
  {
    assert "\n" + c1 + c2 + (c4 + "\n") == "\n" + ("[" + name + "]" + (c2 + c4 + "\n"));
    LabelStep("\n", name, c2 + c4 + "\n");
    assert "\n" + (c2 + c4 + "\n") == "\n" + " " + words + "\n";
  }

  /** The words of the cue carry no '<' and no newline. */
  lemma WordsPlain(c2: string, c4: string, words: string)
    requires Plain(c2) && Plain(c4) && c2 + c4 == " " + words
    ensures '<' !in words && '\n' !in words
  {
    forall x | x in words ensures x in c2 + c4 {
      assert x in " " + words;
    }
  }

  /** The file regrouped as its header lines followed by everything after them. */
  lemma Regroup14(h1: string, h2: string, h3: string, t1: string, t2: string, t3: string,
                  c1: string, c2: string, c3: string, c4: string, c5: string)
    ensures h1 + h2 + h3 + "\n" + "\n" + t1 + t2 + t3 + "\n" + c1 + c2 + c3 + c4 + c5 + "\n"
         == h1 + h2 + h3 + "\n" + ("\n" + (t1 + t2 + t3) + "\n" + (c1 + c2 + c3 + c4 + c5) + "\n")
  {
  }

  /** What the cue pieces do not contain. */
  lemma PlainPieces(name: string, c2: string, c4: string, tag: string, close: string,
                    c1: string, c3: string, c5: string)
    requires c1 == "[" + name + "]" && c3 == "<" + tag + ">" && c5 == "<" + close + ">"
    requires Plain(name) && Plain(c2) && Plain(c4) && Plain(tag) && Plain(close)
    ensures NoBreak(c1 + c2 + c3 + c4 + c5)
    ensures forall x :: x in c1 + c2 + c3 + c4 + c5 ==> !IsDigit(x)
    ensures '<' !in c1 + c2 && '<' !in c4 && '[' !in c2 + c4 + "\n"
    ensures '>' !in tag && '>' !in close && '\n' !in tag && '\n' !in close
    ensures ']' !in name && '\n' !in name
  {
  }

  /** Pass 1 on a file whose only header block is at the start: the block goes. */
  lemma HeaderStep(a: string, b: string, c: string, rest: string)
    requires '\n' !in a && '\n' !in b && '\n' !in c && 'W' !in rest
    ensures StripHeaders(Signature + a + KindTag + b + LanguageTag + c + "\n" + rest) == rest
  {
    StripHeadersLeading(a, b, c, rest);
    StripHeadersPrefix(rest, []);
    assert rest + [] == rest;
  }

  /** Pass 2 on a blank line, a cue timing line and a digit-free cue: the timing line goes. */
  lemma TimingStep(timing: string, cue: string)
    requires TimestampAt(timing) && '\n' !in timing && forall x :: x in cue ==> !IsDigit(x)
    ensures StripTimestamps("\n" + timing + "\n" + cue + "\n") == "\n" + cue + "\n"
  {
    var r := cue + "\n";
    Regroup5("\n", timing, "\n", cue, "\n");
    NewlineNoDigit();
    StripTimestampsPrefix("\n", timing + "\n" + r);
    StripTimestampsLeading(timing, r);
    StripTimestampsPrefix(r, []);
    assert r + [] == r;
  }

  /** Regrouping five concatenated pieces. */
  lemma Regroup5(a: string, b: string, c: string, d: string, e: string)
    ensures a + b + c + d + e == a + (b + c + (d + e))
  {
  }

  /** A newline is not a digit. */
  lemma NewlineNoDigit()
    ensures forall x :: x in "\n" ==> !IsDigit(x)
  {
  }

  /** Pass 3 on a line ending in a tagged word: both tags go. */
  lemma TagStep(p: string, tag: string, word: string, close: string)
    requires '<' !in p && '<' !in word
    requires '>' !in tag && '>' !in close && '\n' !in tag && '\n' !in close
    ensures StripDelimited(p + ("<" + tag + ">" + (word + ("<" + close + ">" + "\n"))), Angle) == p + (word + "\n")
  {
    StripDelimitedSpan(p, tag, word + ("<" + close + ">" + "\n"), Angle);
    StripDelimitedSpan(word, close, "\n", Angle);
    StripDelimitedNoOpen("\n", Angle);
  }

  /** Pass 4 on a line that starts with a `[...]` label: the label goes. */
  lemma LabelStep(p: string, name: string, rest: string)
    requires '[' !in p && ']' !in name && '\n' !in name && '[' !in rest
    ensures StripDelimited(p + ("[" + name + "]" + rest), Square) == p + rest
  {
    StripDelimitedSpan(p, name, rest, Square);
    StripDelimitedNoOpen(rest, Square);
  }

  /** Passes 5 to 7 on collapsed words between a newline plus space and a newline: only the
      words remain. */
  lemma FinalStep(words: string)
    requires words != [] && Trimmed(words) && NoDoubleSpace(words)
    requires '<' !in words && '\n' !in words
    ensures Squish(ReplaceChar(DeleteChar("\n" + " " + words + "\n", '<'), '\n', ' ')) == words
  {
    var s := "\n" + " " + words + "\n";
    DeleteCharAbsent(s, '<');
    ReplaceStep(words);
    SquishStep(words);
  }

  /** Folding the newlines around newline-free text turns each into a space. */
  lemma ReplaceStep(words: string)
    requires '\n' !in words
    ensures ReplaceChar("\n" + " " + words + "\n", '\n', ' ') == "  " + (words + " ")
  {
    ReplaceCharAppend("\n" + " ", words, '\n', ' ');
    ReplaceCharAppend("\n" + " " + words, "\n", '\n', ' ');
    assert ReplaceChar(words, '\n', ' ') == words;
  }

  /** Collapse and strip reduce flat text between whitespace to the text alone. */
  lemma SquishStep(words: string)
    requires words != [] && Trimmed(words) && NoDoubleSpace(words)
    ensures Squish("  " + (words + " ")) == words
  {
    var t := "  " + (words + " ");
    TrimStartSkip("  ", words + " ");
    assert NoDoubleSpace(words + " ") by {
      forall i | 0 <= i < |words| ensures (words + " ")[i] == words[i] { }
    }
    CollapseNoDoubleSpace(words + " ");
    assert Collapse(t) == " " + words + " ";
    StripExact(" ", words, " ");
  }

  /** A `[...]` span broken by a newline survives the bracket pass, and the newline becomes
      a space; a second run then deletes the span the first run kept, so cleaning is not
      idempotent. */
  lemma NotIdempotent()
    ensures CleanTranscript("[" + "a" + "\n" + "b" + "]") == "[" + "a" + " " + "b" + "]"
    ensures CleanTranscript("[" + "a" + " " + "b" + "]") == ""
  {
    PlainLetters();
    SplitSpanKept("a", "b");
    SpacedLabelFacts();
    SquishFixpoint("[" + "a" + " " + "b" + "]");
    FlatSpanGoes("a" + " " + "b");
  }

  /** The folded label of the counterexample is already stripped and collapsed. */
  lemma SpacedLabelFacts()
    ensures Trimmed("[" + "a" + " " + "b" + "]") && NoDoubleSpace("[" + "a" + " " + "b" + "]")
    ensures "[" + "a" + " " + "b" + "]" == "[" + ("a" + " " + "b") + "]"
    ensures '\n' !in "a" + " " + "b" && '<' !in "a" + " " + "b" && ']' !in "a" + " " + "b"
  {
  }

  /** The letters of the counterexample are plain. */
  lemma PlainLetters() ensures Plain("a") && Plain("b") { }

  /** A bracket span whose closer is on the next line is kept, with the newline as a space. */
  lemma SplitSpanKept(x: string, y: string)
    requires Plain(x) && Plain(y)
    ensures CleanTranscript("[" + x + "\n" + y + "]") == Squish("[" + x + " " + y + "]")
  {
    var s := "[" + x + "\n" + y + "]";
    SplitSpanBase(x, y);
    assert '<' !in s;
    DeleteCharAbsent(s, '<');
    assert s == ("[" + x) + "\n" + (y + "]");
    assert '\n' !in "[" + x && '\n' !in y + "]";
    ReplaceOneNewline("[" + x, y + "]");
    assert ("[" + x) + " " + (y + "]") == "[" + x + " " + y + "]";
  }

  /** Passes 1 to 4 leave a bracket span broken by a newline as it is. */
  lemma SplitSpanBase(x: string, y: string)
    requires Plain(x) && Plain(y)
    ensures BasePasses("[" + x + "\n" + y + "]") == "[" + x + "\n" + y + "]"
  {
    var s := "[" + x + "\n" + y + "]";
    assert 'W' !in s && forall c :: c in s ==> !IsDigit(c);
    StripHeadersPrefix(s, []);
    StripTimestampsPrefix(s, []);
    assert s + [] == s;
    SplitSpanBrackets(x, y);
  }

  /** The two bracket passes leave a bracket span broken by a newline as it is. */
  lemma SplitSpanBrackets(x: string, y: string)
    requires Plain(x) && Plain(y)
    ensures var s := "[" + x + "\n" + y + "]";
      StripDelimited(StripDelimited(s, Angle), Square) == s
  {
    var s := "[" + x + "\n" + y + "]";
    assert '<' !in s;
    StripDelimitedNoOpen(s, Angle);
    SplitSpanSquare(x, y);
  }

  /** The `[...]` pass keeps a `[` whose `]` is on the next line. */
  lemma SplitSpanSquare(x: string, y: string)
    requires Plain(x) && Plain(y)
    ensures var s := "[" + x + "\n" + y + "]"; StripDelimited(s, Square) == s
  {
    var s := "[" + x + "\n" + y + "]";
    assert s[1 + |x|] == '\n';
    forall j | 0 < j <= |x| ensures s[j] != ']' {
      assert s[j] == x[j - 1];
    }
    DelimitedEndSpec(s, Square);
    assert s[1..] == x + "\n" + y + "]";
    assert '[' !in s[1..];
    StripDelimitedNoOpen(s[1..], Square);
    assert [s[0]] + s[1..] == s;
  }

  /** A bracket span on one line is deleted, and nothing is left. */
  lemma FlatSpanGoes(inner: string)
    requires '\n' !in inner && '<' !in inner && ']' !in inner
    ensures CleanTranscript("[" + inner + "]") == ""
  {
    var s := "[" + inner + "]";
    CleanTranscriptOfFlat(s);
    StripDelimitedSpan([], inner, [], Square);
    assert [] + ("[" + inner + "]" + []) == s;
  }
}
