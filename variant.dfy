/**
 The second `clean_transcript`, of the script that also drops stopwords: passes 1 to 4,
 collapse and strip, then tokenize, filter and join. The tokenizer and the stopword list are
 parameters.
 */
module VariantCleaning {
  import opened Text
  import opened Passes
  import Cleaning

  /** The text handed to the tokenizer: passes 1 to 4, then collapse and strip, with no '<'
      deletion and no newline folding. */
  function Prepare(raw: string): (r: string)
    ensures Trimmed(r) && NoDoubleSpace(r)
  {
    Squish(BasePasses(raw))
  }

  /** Apart from whitespace, the prepared text is what passes 1 to 4 leave. */
  lemma PrepareContent(raw: string)
    ensures RemoveSpaces(Prepare(raw)) == RemoveSpaces(BasePasses(raw))
  {
    SquishRemoveSpaces(BasePasses(raw));
  }

  /** Where passes 1 to 4 leave no '<' and no newline, both cleaners prepare the same text. */
  lemma PrepareMatchesCleaning(raw: string)
    requires '<' !in BasePasses(raw) && '\n' !in BasePasses(raw)
    ensures Cleaning.CleanTranscript(raw) == Prepare(raw)
  {
    var b := BasePasses(raw);
    DeleteCharAbsent(b, '<');
    assert ReplaceChar(b, '\n', ' ') == b;
  }

  /** Text that passes 1 to 4 leave alone: no 'W', no digit, no opening bracket. */
  predicate Untouched(s: string) {
    'W' !in s && '<' !in s && '[' !in s && forall c :: c in s ==> !IsDigit(c)
  }

  /** Passes 1 to 4 change nothing in untouched text. */
  lemma BasePassesUntouched(s: string)
    requires Untouched(s)
    ensures BasePasses(s) == s
  {
    StripHeadersPrefix(s, []);
    StripTimestampsPrefix(s, []);
    assert s + [] == s;
    StripDelimitedNoOpen(s, Angle);
    StripDelimitedNoOpen(s, Square);
  }

  /** A single newline between words survives here, where the first cleaner turns it into
      a space. */
  lemma NewlineSurvives(x: string, y: string)
    requires Untouched(x) && Untouched(y) && '\n' !in x && '\n' !in y && x != [] && y != []
    requires Trimmed(x) && NoDoubleSpace(x) && Trimmed(y) && NoDoubleSpace(y)
    ensures Prepare(x + "\n" + y) == x + "\n" + y
    ensures Cleaning.CleanTranscript(x + "\n" + y) == Squish(x + " " + y)
  {
    var s := x + "\n" + y;
    JoinedUntouched(x, y);
    JoinedFlat(x, '\n', y);
    SquishFixpoint(s);
    JoinedCleaning(x, y);
  }

  /** Two untouched pieces joined by a newline pass through passes 1 to 4. */
  lemma JoinedUntouched(x: string, y: string)
    requires Untouched(x) && Untouched(y)
    ensures BasePasses(x + "\n" + y) == x + "\n" + y
  {
    var s := x + "\n" + y;
    assert Untouched(s);
    BasePassesUntouched(s);
  }

  /** The first cleaner folds the newline between two untouched pieces into a space. */
  lemma JoinedCleaning(x: string, y: string)
    requires Untouched(x) && Untouched(y) && '\n' !in x && '\n' !in y
    ensures Cleaning.CleanTranscript(x + "\n" + y) == Squish(x + " " + y)
  {
    var s := x + "\n" + y;
    JoinedUntouched(x, y);
    assert '<' !in s;
    DeleteCharAbsent(s, '<');
    ReplaceOneNewline(x, y);
  }

  /** Two flat pieces joined by one whitespace character are flat. */
  lemma JoinedFlat(x: string, c: char, y: string)
    requires x != [] && y != [] && Trimmed(x) && NoDoubleSpace(x) && Trimmed(y) && NoDoubleSpace(y)
    ensures var s := x + [c] + y; Trimmed(s) && NoDoubleSpace(s)
  {
    var s := x + [c] + y;
    forall i | 0 <= i < |s| - 1 ensures !(IsSpace(s[i]) && IsSpace(s[i + 1])) {
      if i + 1 < |x| {
        assert s[i] == x[i] && s[i + 1] == x[i + 1];
      } else if i + 1 == |x| {
        assert s[i] == x[|x| - 1];
      } else if i == |x| {
        assert s[i + 1] == y[0];
      } else {
        assert s[i] == y[i - |x| - 1] && s[i + 1] == y[i - |x|];
      }
    }
    assert s[0] == x[0] && s[|s| - 1] == y[|y| - 1];
  }

  /* ---------- Stopword filter ---------- */

  /** The tokens whose lower-cased form is not a stopword, in their order. */
  function Filter(words: seq<string>, stop: set<string>): (r: seq<string>)
    ensures |r| <= |words|
  {
    if words == [] then []
    else (if Lower(words[0]) in stop then [] else [words[0]]) + Filter(words[1..], stop)
  }

  /** `a` is `b` with some elements left out. */
  predicate IsSubsequence<T(==)>(a: seq<T>, b: seq<T>)
    decreases |b|
  {
    if b == [] then a == []
    else (a != [] && a[0] == b[0] && IsSubsequence(a[1..], b[1..])) || IsSubsequence(a, b[1..])
  }

  /** The filter keeps exactly the tokens that are not stopwords, each as often as it
      occurs, and keeps them in order. */
  lemma {:induction false} FilterSpec(words: seq<string>, stop: set<string>)
    ensures forall w :: multiset(Filter(words, stop))[w] == if Lower(w) in stop then 0 else multiset(words)[w]
    ensures forall w :: w in Filter(words, stop) <==> w in words && Lower(w) !in stop
    ensures IsSubsequence(Filter(words, stop), words)
    decreases |words|
  {
    if words != [] {
      FilterSpec(words[1..], stop);
      assert words == [words[0]] + words[1..];
      var r := Filter(words, stop);
      var t := Filter(words[1..], stop);
      assert multiset(words) == multiset([words[0]]) + multiset(words[1..]);
      if Lower(words[0]) in stop {
        assert r == t;
      } else {
        assert r == [words[0]] + t;
        assert multiset(r) == multiset([words[0]]) + multiset(t);
        assert r[0] == words[0] && r[1..] == t;
      }
    }
  }

  /** Filtering a filtered list changes nothing. */
  lemma {:induction false} FilterIdempotent(words: seq<string>, stop: set<string>)
    ensures Filter(Filter(words, stop), stop) == Filter(words, stop)
    decreases |words|
  {
    if words != [] {
      FilterIdempotent(words[1..], stop);
      var t := Filter(words[1..], stop);
      if Lower(words[0]) !in stop {
        var r := [words[0]] + t;
        assert Filter(words, stop) == r;
        assert r[0] == words[0] && r[1..] == t;
        assert Filter(r, stop) == [r[0]] + Filter(r[1..], stop);
      } else {
        assert Filter(words, stop) == t;
      }
    }
  }

  /** The filter works token by token. */
  lemma {:induction false} FilterAppend(a: seq<string>, b: seq<string>, stop: set<string>)
    ensures Filter(a + b, stop) == Filter(a, stop) + Filter(b, stop)
    decreases |a|
  {
    if a == [] {
      assert a + b == b;
    } else {
      assert (a + b)[0] == a[0] && (a + b)[1..] == a[1..] + b;
      FilterAppend(a[1..], b, stop);
    }
  }

  /* ---------- Join ---------- */

  /** `" ".join(words)`. */
  function Join(words: seq<string>): string {
    if words == [] then []
    else if |words| == 1 then words[0]
    else words[0] + " " + Join(words[1..])
  }

  /** `s.split(" ")`: the pieces between single spaces, empty ones included. */
  function Split(s: string): (r: seq<string>)
    ensures |r| > 0
  {
    if ' ' !in s then [s]
    else
      var i := SpaceIndex(s);
      [s[..i]] + Split(s[i + 1..])
  }

  /** The position of the first space. */
  function SpaceIndex(s: string): (i: nat)
    requires ' ' in s
    ensures i < |s| && s[i] == ' ' && ' ' !in s[..i]
  {
    if s[0] == ' ' then 0
    else
      assert ' ' in s[1..] by { assert s == [s[0]] + s[1..]; }
      var j := SpaceIndex(s[1..]);
      assert s[..j + 1] == [s[0]] + s[1..][..j];
      j + 1
  }

  /** Splitting a join of space-free words at its spaces gives the words back. */
  lemma {:induction false} SplitJoin(words: seq<string>)
    requires words != [] && forall k :: 0 <= k < |words| ==> ' ' !in words[k]
    ensures Split(Join(words)) == words
    decreases |words|
  {
    if |words| > 1 {
      var w, rest := words[0], Join(words[1..]);
      var s := w + " " + rest;
      assert s[|w|] == ' ';
      assert ' ' in s;
      var i := SpaceIndex(s);
      assert i == |w|;
      assert s[..i] == w && s[i + 1..] == rest;
      SplitJoin(words[1..]);
    }
  }

  /** The join is the words with exactly one space between neighbours. */
  lemma {:induction false} JoinLength(words: seq<string>)
    ensures words != [] ==> |Join(words)| == TotalLength(words) + |words| - 1
    ensures words == [] ==> Join(words) == []
    decreases |words|
  {
    if |words| > 1 {
      JoinLength(words[1..]);
    }
  }

  /** The summed lengths of the words. */
  function TotalLength(words: seq<string>): nat {
    if words == [] then 0 else |words[0]| + TotalLength(words[1..])
  }

  /* ---------- The whole cleaner ---------- */

  /** `clean_transcript` of the variant. */
  function CleanTranscript(raw: string, tokenize: string -> seq<string>, stop: set<string>): string {
    Join(Filter(tokenize(Prepare(raw)), stop))
  }

  /** The result is the kept tokens of the prepared text joined by single spaces: empty
      when every token is a stopword, and read back token by token when tokens hold no
      space. */
  lemma CleanTranscriptSpec(raw: string, tokenize: string -> seq<string>, stop: set<string>)
    ensures var kept := Filter(tokenize(Prepare(raw)), stop);
      && (kept == [] <==> forall w :: w in tokenize(Prepare(raw)) ==> Lower(w) in stop)
      && (kept == [] ==> CleanTranscript(raw, tokenize, stop) == [])
      && (kept != [] && (forall k :: 0 <= k < |kept| ==> ' ' !in kept[k]) ==>
            Split(CleanTranscript(raw, tokenize, stop)) == kept)
  {
    var words := tokenize(Prepare(raw));
    var kept := Filter(words, stop);
    FilterSpec(words, stop);
    if kept != [] {
      assert kept[0] in kept;
      if forall k :: 0 <= k < |kept| ==> ' ' !in kept[k] {
        SplitJoin(kept);
      }
    }
  }
}
