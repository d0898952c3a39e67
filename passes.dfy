/**
 The rewrite passes of `clean_transcript`, each a `re.sub` with Python's semantics:
 the text is scanned from the left; where the pattern matches at the current position the
 (leftmost, lazy) match is replaced and the scan resumes after it; elsewhere one character
 is copied and the scan moves on by one. No pattern here can match the empty string.
 */
module Passes {
  import opened Wrappers
  import opened Text

  /* ---------- Pass 1: `WEBVTT.*?\nKind:.*?\nLanguage:.*?\n`, flags=re.DOTALL ---------- */

  const Signature: string := "WEBVTT"
  const KindTag: string := "\nKind:"
  const LanguageTag: string := "\nLanguage:"

  /** The lazy search for a header match at `s[0]`: the first `KindTag` after the signature,
      then the first `LanguageTag` after that, then the first newline after that. */
  function HeaderPositions(s: string): Option<(nat, nat, nat)> {
    if !StartsWith(s, Signature) then None
    else
      var j := Find(s, 6, KindTag);
      if j.None? then None
      else
        var k := Find(s, j.value + 6, LanguageTag);
        if k.None? then None
        else
          var l := Find(s, k.value + 10, "\n");
          if l.None? then None
          else Some((j.value, k.value, l.value))
  }

  /** The end of the header match that starts at `s[0]`, if there is one. */
  function HeaderEnd(s: string): (r: Option<nat>)
    ensures r.Some? ==> 23 <= r.value <= |s|
  {
    match HeaderPositions(s)
    case None => None
    case Some((j, k, l)) =>
      HeaderPositionsSound(s);
      Some(l + 1)
  }

  /** The pattern matches `s[..l + 1]` with the signature at 0, `KindTag` at j,
      `LanguageTag` at k and the final newline at l. */
  ghost predicate HeaderMatch(s: string, j: nat, k: nat, l: nat) {
    && 6 <= j && j + 6 <= k && k + 10 <= l < |s|
    && StartsWith(s, Signature)
    && StartsWith(s[j..], KindTag)
    && StartsWith(s[k..], LanguageTag)
    && s[l] == '\n'
  }

  /** (j, k, l) comes first in the order in which the lazy quantifiers try their choices. */
  ghost predicate LazyFirst(j: nat, k: nat, l: nat, j': nat, k': nat, l': nat) {
    j < j' || (j == j' && (k < k' || (k == k' && l <= l')))
  }

  /** What the lazy search finds is a match. */
  lemma HeaderPositionsSound(s: string)
    ensures HeaderPositions(s).Some? ==>
      var (j, k, l) := HeaderPositions(s).value; HeaderMatch(s, j, k, l)
  {
    if HeaderPositions(s).Some? {
      var (j, k, l) := HeaderPositions(s).value;
      FindOccurs(s, 6, KindTag);
      FindOccurs(s, j + 6, LanguageTag);
      FindOccurs(s, k + 10, "\n");
      assert s[l..][0] == s[l];
    }
  }

  /** Every match has its three parts no earlier than the ones the search finds. */
  lemma HeaderPositionsLeast(s: string, j': nat, k': nat, l': nat) returns (j: nat, k: nat, l: nat)
    requires HeaderMatch(s, j', k', l')
    ensures HeaderPositions(s) == Some((j, k, l)) && j <= j' && k <= k' && l <= l'
  {
    j := KindLeast(s, j');
    k := LanguageLeast(s, j, k');
    l := NewlineLeast(s, k, l');
    HeaderPositionsOf(s, j, k, l);
  }

  /** The search result, from the three searches it makes. */
  lemma HeaderPositionsOf(s: string, j: nat, k: nat, l: nat)
    requires StartsWith(s, Signature)
    requires Find(s, 6, KindTag) == Some(j) && Find(s, j + 6, LanguageTag) == Some(k)
    requires Find(s, k + 10, "\n") == Some(l)
    ensures HeaderPositions(s) == Some((j, k, l))
  {
  }

  /** The first `KindTag` the search finds lies at or before any other one. */
  lemma KindLeast(s: string, j': nat) returns (j: nat)
    requires 6 <= j' <= |s| && StartsWith(s[j'..], KindTag)
    ensures Find(s, 6, KindTag) == Some(j) && j <= j'
  {
    FindFirst(s, 6, KindTag, j');
    j := Find(s, 6, KindTag).value;
  }

  /** The first `LanguageTag` after the `KindTag` lies at or before any other one there. */
  lemma LanguageLeast(s: string, j: nat, k': nat) returns (k: nat)
    requires j + 6 <= k' <= |s| && StartsWith(s[k'..], LanguageTag)
    ensures Find(s, j + 6, LanguageTag) == Some(k) && k <= k'
  {
    FindFirst(s, j + 6, LanguageTag, k');
    k := Find(s, j + 6, LanguageTag).value;
  }

  /** The first newline after the `LanguageTag` lies at or before any other one there. */
  lemma NewlineLeast(s: string, k: nat, l': nat) returns (l: nat)
    requires k + 10 <= l' < |s| && s[l'] == '\n'
    ensures Find(s, k + 10, "\n") == Some(l) && l <= l'
  {
    StartsWithChar(s, l', '\n');
    FindFirst(s, k + 10, "\n", l');
    l := Find(s, k + 10, "\n").value;
  }

  /** HeaderEnd finds a match exactly when the pattern matches at 0, and then the one with the
      shortest `.*?` parts, in order: the match `re.sub` removes. */
  lemma HeaderEndSpec(s: string)
    ensures HeaderEnd(s).None? <==> forall j: nat, k: nat, l: nat :: !HeaderMatch(s, j, k, l)
    ensures HeaderEnd(s).Some? ==>
      exists j: nat, k: nat, l: nat :: HeaderMatch(s, j, k, l) && HeaderEnd(s) == Some(l + 1)
        && forall j': nat, k': nat, l': nat :: HeaderMatch(s, j', k', l') ==> LazyFirst(j, k, l, j', k', l')
  {
    HeaderPositionsSound(s);
    forall j': nat, k': nat, l': nat | HeaderMatch(s, j', k', l')
      ensures HeaderPositions(s).Some? && var (j, k, l) := HeaderPositions(s).value; LazyFirst(j, k, l, j', k', l')
    {
      var j, k, l := HeaderPositionsLeast(s, j', k', l');
    }
    if HeaderPositions(s).Some? {
      var (j, k, l) := HeaderPositions(s).value;
      assert HeaderMatch(s, j, k, l) && HeaderEnd(s) == Some(l + 1);
    }
  }

  /** A header match ends with a newline. */
  lemma HeaderNeedsNewline(s: string)
    ensures HeaderEnd(s).Some? ==> '\n' in s
  {
    HeaderEndSpec(s);
  }

  /** Pass 1: every header match, scanning left to right, is deleted. */
  function StripHeaders(s: string): (r: string)
    ensures |r| <= |s|
    decreases |s|
  {
    if s == [] then []
    else
      match HeaderEnd(s)
      case Some(n) => StripHeaders(s[n..])
      case None => [s[0]] + StripHeaders(s[1..])
  }

  /* ---------- Pass 2: `\d{2}:\d{2}:\d{2}\.\d{3}.*?\n` (`.` does not cross a newline) ---------- */

  /** `s` begins with `\d{2}:\d{2}:\d{2}\.\d{3}`. */
  predicate TimestampAt(s: string) {
    && |s| >= 12
    && IsDigit(s[0]) && IsDigit(s[1]) && s[2] == ':'
    && IsDigit(s[3]) && IsDigit(s[4]) && s[5] == ':'
    && IsDigit(s[6]) && IsDigit(s[7]) && s[8] == '.'
    && IsDigit(s[9]) && IsDigit(s[10]) && IsDigit(s[11])
  }

  /** The end of the timestamp match that starts at `s[0]`: through the first newline after the stamp. */
  function TimestampEnd(s: string): (r: Option<nat>)
    ensures r.Some? ==> 13 <= r.value <= |s|
  {
    if !TimestampAt(s) then None
    else
      match Find(s, 12, "\n")
      case None => None
      case Some(l) => Some(l + 1)
  }

  /** The pattern matches at 0 exactly when a newline follows the stamp, and the match runs
      through the first such newline and no further. */
  lemma TimestampEndSpec(s: string)
    ensures TimestampEnd(s).Some? <==> TimestampAt(s) && exists l :: 12 <= l < |s| && s[l] == '\n'
    ensures TimestampEnd(s).Some? ==>
      var n := TimestampEnd(s).value;
      s[n - 1] == '\n' && forall m :: 12 <= m < n - 1 ==> s[m] != '\n'
  {
    if TimestampAt(s) {
      var o := Find(s, 12, "\n");
      forall m | 12 <= m < |s| && (o.None? || m < o.value) ensures s[m] != '\n' {
        FindSkipsNone(s, 12, "\n", m);
        StartsWithChar(s, m, '\n');
      }
      if o.Some? {
        FindOccurs(s, 12, "\n");
        StartsWithChar(s, o.value, '\n');
      }
    }
  }

  /** Pass 2: every timestamp through the end of its line is deleted. */
  function StripTimestamps(s: string): (r: string)
    ensures |r| <= |s|
    decreases |s|
  {
    if s == [] then []
    else
      match TimestampEnd(s)
      case Some(n) => StripTimestamps(s[n..])
      case None => [s[0]] + StripTimestamps(s[1..])
  }

  /* ---------- Passes 3 and 4: `<.*?>` and `\[.*?\]` ---------- */

  /** The two delimiter pairs whose lazy, single-line spans are deleted. */
  datatype Bracket = Angle | Square {
    /** The opening delimiter. */
    function Open(): char {
      match this
      case Angle => '<'
      case Square => '['
    }

    /** The closing delimiter. */
    function Close(): char {
      match this
      case Angle => '>'
      case Square => ']'
    }
  }

  /** The end of the span that starts at `s[0]`: through the first closing delimiter, provided
      no newline comes before it. */
  function DelimitedEnd(s: string, b: Bracket): (r: Option<nat>)
    ensures r.Some? ==> 2 <= r.value <= |s|
  {
    if s == [] || s[0] != b.Open() then None
    else
      var close := Find(s, 1, [b.Close()]);
      var newline := Find(s, 1, "\n");
      if close.Some? && (newline.None? || close.value < newline.value) then Some(close.value + 1)
      else None
  }

  /** The pattern matches at 0 exactly when a closing delimiter follows on the same line, and
      the (lazy) match ends at the first closing delimiter. */
  lemma DelimitedEndSpec(s: string, b: Bracket)
    ensures DelimitedEnd(s, b).Some? <==>
      |s| > 0 && s[0] == b.Open()
      && exists j :: 0 < j < |s| && s[j] == b.Close() && forall m :: 0 < m < j ==> s[m] != '\n'
    ensures DelimitedEnd(s, b).Some? ==>
      var n := DelimitedEnd(s, b).value;
      s[n - 1] == b.Close() && forall m :: 0 < m < n - 1 ==> s[m] != b.Close() && s[m] != '\n'
  {
    if s != [] && s[0] == b.Open() {
      var close := Find(s, 1, [b.Close()]);
      var newline := Find(s, 1, "\n");
      forall m | 1 <= m < |s| && (close.None? || m < close.value) ensures s[m] != b.Close() {
        FindSkipsNone(s, 1, [b.Close()], m);
        StartsWithChar(s, m, b.Close());
      }
      forall m | 1 <= m < |s| && (newline.None? || m < newline.value) ensures s[m] != '\n' {
        FindSkipsNone(s, 1, "\n", m);
        StartsWithChar(s, m, '\n');
      }
      if close.Some? {
        FindOccurs(s, 1, [b.Close()]);
        StartsWithChar(s, close.value, b.Close());
      }
      if newline.Some? {
        FindOccurs(s, 1, "\n");
        StartsWithChar(s, newline.value, '\n');
      }
    }
  }

  /** Passes 3 and 4: every lazy same-line span between the delimiters is deleted;
      an opener with no closer on its line is kept, and the scan moves on by one. */
  function StripDelimited(s: string, b: Bracket): (r: string)
    ensures |r| <= |s|
    ensures |r| == |s| ==> r == s
    decreases |s|
  {
    if s == [] then []
    else
      match DelimitedEnd(s, b)
      case Some(n) => StripDelimited(s[n..], b)
      case None => [s[0]] + StripDelimited(s[1..], b)
  }

  /* ---------- Passes 5 and 6: single characters ---------- */

  /** `re.sub(c, "", s)`: every `c` deleted. */
  function DeleteChar(s: string, c: char): (r: string)
    ensures forall x :: x in r <==> x in s && x != c
  {
    if s == [] then []
    else (if s[0] == c then [] else [s[0]]) + DeleteChar(s[1..], c)
  }

  /** `re.sub(c, d, s)`: every `c` replaced by `d`. */
  function ReplaceChar(s: string, c: char, d: char): (r: string)
    ensures |r| == |s|
    ensures forall i :: 0 <= i < |s| ==> r[i] == if s[i] == c then d else s[i]
  {
    if s == [] then []
    else [if s[0] == c then d else s[0]] + ReplaceChar(s[1..], c, d)
  }

  /** Pass 5 works piece by piece: it deletes each `c` where it stands and keeps the rest in order. */
  lemma {:induction false} DeleteCharAppend(a: string, b: string, c: char)
    ensures DeleteChar(a + b, c) == DeleteChar(a, c) + DeleteChar(b, c)
    decreases |a|
  {
    if a == [] {
      assert a + b == b;
    } else {
      assert (a + b)[0] == a[0] && (a + b)[1..] == a[1..] + b;
      DeleteCharAppend(a[1..], b, c);
    }
  }

  /** Pass 5 keeps every other character as often as it occurs, and no `c`. */
  lemma {:induction false} DeleteCharCounts(s: string, c: char)
    ensures forall x :: multiset(DeleteChar(s, c))[x] == if x == c then 0 else multiset(s)[x]
    decreases |s|
  {
    if s != [] {
      DeleteCharCounts(s[1..], c);
      assert s == [s[0]] + s[1..];
      assert multiset(s) == multiset([s[0]]) + multiset(s[1..]);
      var head := if s[0] == c then [] else [s[0]];
      assert DeleteChar(s, c) == head + DeleteChar(s[1..], c);
      assert multiset(DeleteChar(s, c)) == multiset(head) + multiset(DeleteChar(s[1..], c));
    }
  }

  /** Passes 1 to 4, which both cleaners run in this order. */
  function BasePasses(raw: string): string {
    StripDelimited(StripDelimited(StripTimestamps(StripHeaders(raw)), Angle), Square)
  }

  /* ---------- Facts about the passes ---------- */

  /** A header match needs a newline, so text without one has no header. */
  lemma {:induction false} StripHeadersNoNewline(s: string)
    requires '\n' !in s
    ensures StripHeaders(s) == s
    decreases |s|
  {
    if s != [] {
      HeaderNeedsNewline(s);
      StripHeadersNoNewline(s[1..]);
    }
  }

  /** A timestamp match needs a newline, so a stamp on a last line without one survives. */
  lemma {:induction false} StripTimestampsNoNewline(s: string)
    requires '\n' !in s
    ensures StripTimestamps(s) == s
    decreases |s|
  {
    if s != [] {
      TimestampEndSpec(s);
      StripTimestampsNoNewline(s[1..]);
    }
  }

  /** Without an opener there is nothing to delete. */
  lemma {:induction false} StripDelimitedNoOpen(s: string, b: Bracket)
    requires b.Open() !in s
    ensures StripDelimited(s, b) == s
    decreases |s|
  {
    if s != [] {
      StripDelimitedNoOpen(s[1..], b);
    }
  }

  /** A header match starts with the signature's 'W'. */
  lemma HeaderStartsWithW(s: string)
    ensures HeaderEnd(s).Some? ==> s[0] == 'W'
  {
    if HeaderEnd(s).Some? {
      assert s[..6][0] == s[0];
    }
  }


  /** A prefix without a 'W' holds no header start, so the pass copies it unchanged. */
  lemma {:induction false} StripHeadersPrefix(p: string, t: string)
    requires 'W' !in p
    ensures StripHeaders(p + t) == p + StripHeaders(t)
    decreases |p|
  {
    if p != [] {
      var s := p + t;
      assert s[0] == p[0] && s[1..] == p[1..] + t;
      HeaderStartsWithW(s);
      assert StripHeaders(s) == [s[0]] + StripHeaders(s[1..]);
      StripHeadersPrefix(p[1..], t);
      assert p == [p[0]] + p[1..];
    } else {
      assert p + t == t;
    }
  }

  /** Where the text does not start with a digit, pass 2 copies its first character. */
  lemma StripTimestampsCopy(s: string)
    requires s != [] && !IsDigit(s[0])
    ensures StripTimestamps(s) == [s[0]] + StripTimestamps(s[1..])
  {
    assert TimestampEnd(s).None?;
  }

  /** A prefix without a digit holds no timestamp start, so the pass copies it unchanged. */
  lemma {:induction false} StripTimestampsPrefix(p: string, t: string)
    requires forall c :: c in p ==> !IsDigit(c)
    ensures StripTimestamps(p + t) == p + StripTimestamps(t)
    decreases |p|
  {
    if p != [] {
      var s := p + t;
      assert s[0] == p[0] && s[1..] == p[1..] + t;
      assert p[0] in p;
      StripTimestampsCopy(s);
      assert forall c :: c in p[1..] ==> c in p;
      StripTimestampsPrefix(p[1..], t);
      assert p == [p[0]] + p[1..];
    } else {
      assert p + t == t;
    }
  }

  /** A prefix without an opener holds no span start, so the pass copies it unchanged. */
  lemma {:induction false} StripDelimitedPrefix(p: string, t: string, b: Bracket)
    requires b.Open() !in p
    ensures StripDelimited(p + t, b) == p + StripDelimited(t, b)
    decreases |p|
  {
    if p != [] {
      var s := p + t;
      assert s[0] == p[0] && s[1..] == p[1..] + t;
      assert StripDelimited(s, b) == [s[0]] + StripDelimited(s[1..], b);
      StripDelimitedPrefix(p[1..], t, b);
      assert p == [p[0]] + p[1..];
    } else {
      assert p + t == t;
    }
  }

  /** When none of the three `.*?` gaps holds a newline, the match is exactly the given one. */
  lemma HeaderEndExact(s: string, j': nat, k': nat, l': nat)
    requires HeaderMatch(s, j', k', l')
    requires forall m :: 6 <= m < j' ==> s[m] != '\n'
    requires forall m :: j' + 6 <= m < k' ==> s[m] != '\n'
    requires forall m :: k' + 10 <= m < l' ==> s[m] != '\n'
    ensures HeaderEnd(s) == Some(l' + 1)
  {
    FindAt(s, 6, KindTag, j');
    FindAt(s, j' + 6, LanguageTag, k');
    StartsWithChar(s, l', '\n');
    FindAt(s, k' + 10, "\n", l');
    HeaderPositionsOf(s, j', k', l');
  }

  /** A stamp stays a stamp whatever follows it. */
  lemma TimestampAtAppend(stamp: string, x: string)
    requires TimestampAt(stamp)
    ensures TimestampAt(stamp + x)
  {
    var s := stamp + x;
    assert s[..12] == stamp[..12];
    assert forall i :: 0 <= i < 12 ==> s[i] == stamp[i];
  }

  /** A stamp whose line ends at `l'` is matched exactly through that newline. */
  lemma TimestampEndExact(s: string, l': nat)
    requires TimestampAt(s) && 12 <= l' < |s| && s[l'] == '\n'
    requires forall m :: 12 <= m < l' ==> s[m] != '\n'
    ensures TimestampEnd(s) == Some(l' + 1)
  {
    StartsWithChar(s, l', '\n');
    FindAt(s, 12, "\n", l');
  }

  /** An opener whose first closer, at `x`, is on the same line is matched exactly through it. */
  lemma DelimitedEndExact(s: string, b: Bracket, x: nat)
    requires 0 < x < |s| && s[0] == b.Open() && s[x] == b.Close()
    requires forall m :: 0 < m < x ==> s[m] != b.Close() && s[m] != '\n'
    ensures DelimitedEnd(s, b) == Some(x + 1)
  {
    StartsWithChar(s, x, b.Close());
    FindAt(s, 1, [b.Close()], x);
    var newline := Find(s, 1, "\n");
    if newline.Some? {
      FindOccurs(s, 1, "\n");
      StartsWithChar(s, newline.value, '\n');
    }
  }

  /** Deleting a character that does not occur changes nothing. */
  lemma {:induction false} DeleteCharAbsent(s: string, c: char)
    requires c !in s
    ensures DeleteChar(s, c) == s
    decreases |s|
  {
    if s != [] {
      DeleteCharAbsent(s[1..], c);
      assert s == [s[0]] + s[1..];
    }
  }

  /** Deleting spans never introduces a character. */
  lemma {:induction false} StripDelimitedKeeps(s: string, b: Bracket, c: char)
    requires c !in s
    ensures c !in StripDelimited(s, b)
    decreases |s|
  {
    if s != [] {
      match DelimitedEnd(s, b)
      case Some(n) =>
        assert forall x :: x in s[n..] ==> x in s;
        StripDelimitedKeeps(s[n..], b, c);
      case None =>
        StripDelimitedKeeps(s[1..], b, c);
    }
  }

  /** Replacing a character introduces only the replacement. */
  lemma ReplaceCharKeeps(s: string, c: char, d: char, e: char)
    requires e !in s && e != d
    ensures e !in ReplaceChar(s, c, d)
  {
    var r := ReplaceChar(s, c, d);
    forall i | 0 <= i < |r| ensures r[i] != e {
      assert s[i] in s;
    }
  }

  /** Concatenation regrouped to the right. */
  lemma Regroup(x1: string, x2: string, x3: string, x4: string, x5: string, x6: string, x7: string, x8: string)
    ensures x1 + x2 + x3 + x4 + x5 + x6 + x7 + x8 == x1 + (x2 + (x3 + (x4 + (x5 + (x6 + (x7 + x8))))))
  {
  }

  /** The usual header block (signature line, Kind line, Language line) is matched exactly
      through the newline that ends the Language line. */
  lemma HeaderEndCanonical(a: string, b: string, c: string, rest: string)
    requires '\n' !in a && '\n' !in b && '\n' !in c
    ensures HeaderEnd(Signature + a + KindTag + b + LanguageTag + c + "\n" + rest)
         == Some(23 + |a| + |b| + |c|)
  {
    Regroup(Signature, a, KindTag, b, LanguageTag, c, "\n", rest);
    HeaderEndGrouped(a, b, c, rest);
  }

  /** HeaderEndCanonical, on the text grouped to the right. */
  lemma HeaderEndGrouped(a: string, b: string, c: string, rest: string)
    requires '\n' !in a && '\n' !in b && '\n' !in c
    ensures HeaderEnd(Signature + (a + (KindTag + (b + (LanguageTag + (c + ("\n" + rest)))))))
         == Some(23 + |a| + |b| + |c|)
  {
    var s := Signature + (a + (KindTag + (b + (LanguageTag + (c + ("\n" + rest))))));
    var j', k', l' := 6 + |a|, 12 + |a| + |b|, 22 + |a| + |b| + |c|;
    GroupedMatch(a, b, c, rest);
    GroupedGaps(a, b, c, rest);
    HeaderEndExact(s, j', k', l');
  }

  /** Where the parts of the right-grouped header block stand. */
  lemma GroupedMatch(a: string, b: string, c: string, rest: string)
    ensures var s := Signature + (a + (KindTag + (b + (LanguageTag + (c + ("\n" + rest))))));
      HeaderMatch(s, 6 + |a|, 12 + |a| + |b|, 22 + |a| + |b| + |c|)
  {
    var r3 := "\n" + rest;
    var r2 := LanguageTag + (c + r3);
    var r1 := KindTag + (b + r2);
    var s := Signature + (a + r1);
    assert s[6 + |a|..] == r1;
    assert s[12 + |a| + |b|..] == r2;
    assert s[22 + |a| + |b| + |c|..] == r3;
  }

  /** The gaps of the right-grouped header block hold no newline. */
  lemma GroupedGaps(a: string, b: string, c: string, rest: string)
    requires '\n' !in a && '\n' !in b && '\n' !in c
    ensures var s := Signature + (a + (KindTag + (b + (LanguageTag + (c + ("\n" + rest))))));
      && (forall m :: 6 <= m < 6 + |a| ==> s[m] != '\n')
      && (forall m :: 12 + |a| <= m < 12 + |a| + |b| ==> s[m] != '\n')
      && (forall m :: 22 + |a| + |b| <= m < 22 + |a| + |b| + |c| ==> s[m] != '\n')
  {
    var s := Signature + (a + (KindTag + (b + (LanguageTag + (c + ("\n" + rest))))));
    forall m | 6 <= m < 6 + |a| ensures s[m] != '\n' { assert s[m] == a[m - 6]; }
    forall m | 12 + |a| <= m < 12 + |a| + |b| ensures s[m] != '\n' { assert s[m] == b[m - 12 - |a|]; }
    forall m | 22 + |a| + |b| <= m < 22 + |a| + |b| + |c| ensures s[m] != '\n' { assert s[m] == c[m - 22 - |a| - |b|]; }
  }

  /** A header block is removed wherever it stands, and the scan goes on after it, so every
      header in the text goes, not only one at the start. */
  lemma StripHeadersBlock(p: string, a: string, b: string, c: string, rest: string)
    requires 'W' !in p
    requires '\n' !in a && '\n' !in b && '\n' !in c
    ensures StripHeaders(p + (Signature + a + KindTag + b + LanguageTag + c + "\n" + rest))
         == p + StripHeaders(rest)
  {
    StripHeadersPrefix(p, Signature + a + KindTag + b + LanguageTag + c + "\n" + rest);
    StripHeadersLeading(a, b, c, rest);
  }

  /** A header block at the start is removed, and the scan goes on after it. */
  lemma StripHeadersLeading(a: string, b: string, c: string, rest: string)
    requires '\n' !in a && '\n' !in b && '\n' !in c
    ensures StripHeaders(Signature + a + KindTag + b + LanguageTag + c + "\n" + rest) == StripHeaders(rest)
  {
    var h := Signature + a + KindTag + b + LanguageTag + c + "\n";
    assert h + rest == Signature + a + KindTag + b + LanguageTag + c + "\n" + rest;
    HeaderEndCanonical(a, b, c, rest);
    assert (h + rest)[|h|..] == rest;
  }

  /** A stamp is removed through the end of its line; the text before it is kept. */
  lemma StripTimestampsLine(p: string, line: string, rest: string)
    requires forall c :: c in p ==> !IsDigit(c)
    requires TimestampAt(line) && '\n' !in line
    ensures StripTimestamps(p + (line + "\n" + rest)) == p + StripTimestamps(rest)
  {
    StripTimestampsPrefix(p, line + "\n" + rest);
    StripTimestampsLeading(line, rest);
  }

  /** A stamp at the start is removed through the end of its line. */
  lemma StripTimestampsLeading(line: string, rest: string)
    requires TimestampAt(line) && '\n' !in line
    ensures StripTimestamps(line + "\n" + rest) == StripTimestamps(rest)
  {
    var s := line + "\n" + rest;
    forall m | 12 <= m < |line| ensures s[m] != '\n' { assert s[m] == line[m]; }
    TimestampEndExact(s, |line|);
    assert s[|line| + 1..] == rest;
  }

  /** A span closed on its own line is removed; the scan goes on after its closer. */
  lemma StripDelimitedSpan(p: string, inner: string, rest: string, b: Bracket)
    requires b.Open() !in p
    requires b.Close() !in inner && '\n' !in inner
    ensures StripDelimited(p + ([b.Open()] + inner + [b.Close()] + rest), b) == p + StripDelimited(rest, b)
  {
    var s := [b.Open()] + inner + [b.Close()] + rest;
    forall m | 0 < m < |inner| + 1 ensures s[m] != b.Close() && s[m] != '\n' { assert s[m] == inner[m - 1]; }
    DelimitedEndExact(s, b, |inner| + 1);
    assert s[|inner| + 2..] == rest;
    StripDelimitedPrefix(p, s, b);
  }

  /** Replacing characters works piece by piece. */
  lemma ReplaceCharAppend(a: string, b: string, c: char, d: char)
    ensures ReplaceChar(a + b, c, d) == ReplaceChar(a, c, d) + ReplaceChar(b, c, d)
  {
    var r, ra, rb := ReplaceChar(a + b, c, d), ReplaceChar(a, c, d), ReplaceChar(b, c, d);
    forall i | 0 <= i < |r| ensures r[i] == (ra + rb)[i] {
      if i < |a| { assert (a + b)[i] == a[i]; } else { assert (a + b)[i] == b[i - |a|]; }
    }
  }

  /** Newline folding on two newline-free pieces joined by a newline. */
  lemma ReplaceOneNewline(x: string, y: string)
    requires '\n' !in x && '\n' !in y
    ensures ReplaceChar(x + "\n" + y, '\n', ' ') == x + " " + y
  {
    var s, t := x + "\n" + y, x + " " + y;
    forall i | 0 <= i < |s| ensures ReplaceChar(s, '\n', ' ')[i] == t[i] {
      if i < |x| {
        assert s[i] == x[i] && t[i] == x[i];
      } else if i > |x| {
        assert s[i] == y[i - |x| - 1] && t[i] == y[i - |x| - 1];
      }
    }
  }
}
