/**
 Character classes and the whitespace rewrites shared by both cleaners:
 `re.sub(r"\s{2,}", " ", s)` (Collapse) followed by `s.strip()` (Strip).
 */
module Text {
  import opened Wrappers

  /** Python's `\s` on str patterns, which is also what `str.strip()` removes:
      the code points for which `str.isspace()` holds. */
  predicate IsSpace(c: char) {
    var n := c as int;
    (9 <= n <= 13) || (28 <= n <= 32) || n == 0x85 || n == 0xA0 || n == 0x1680
    || (0x2000 <= n <= 0x200A) || n == 0x2028 || n == 0x2029 || n == 0x202F
    || n == 0x205F || n == 0x3000
  }

  /** `\d`, on ASCII digits only. */
  predicate IsDigit(c: char) {
    '0' <= c <= '9'
  }

  /** `p` is a prefix of `s`. */
  predicate StartsWith(s: string, p: string) {
    |p| <= |s| && s[..|p|] == p
  }

  /** The first position in `s` at which `p` begins. */
  function IndexOf(s: string, p: string): (r: Option<nat>)
    ensures r.Some? ==> r.value + |p| <= |s|
    decreases |s|
  {
    if StartsWith(s, p) then Some(0)
    else if s == [] then None
    else
      match IndexOf(s[1..], p)
      case None => None
      case Some(k) => Some(k + 1)
  }

  /** IndexOf reports an occurrence. */
  lemma {:induction false} IndexOfOccurs(s: string, p: string)
    requires IndexOf(s, p).Some?
    ensures StartsWith(s[IndexOf(s, p).value..], p)
    decreases |s|
  {
    if !StartsWith(s, p) {
      IndexOfOccurs(s[1..], p);
      assert s[1..][IndexOf(s[1..], p).value..] == s[IndexOf(s, p).value..];
    }
  }

  /** IndexOf reports the first occurrence: every occurrence is at or after it. */
  lemma {:induction false} IndexOfFirst(s: string, p: string, x: nat)
    requires x <= |s| && StartsWith(s[x..], p)
    ensures IndexOf(s, p).Some? && IndexOf(s, p).value <= x
    decreases |s|
  {
    if !StartsWith(s, p) {
      assert x > 0;
      assert s[1..][x - 1..] == s[x..];
      IndexOfFirst(s[1..], p, x - 1);
    }
  }

  /** The first position at or after `from` at which `p` begins in `s`. */
  function Find(s: string, from: nat, p: string): (r: Option<nat>)
    ensures r.Some? ==> from <= r.value && r.value + |p| <= |s|
  {
    if from > |s| then None
    else
      match IndexOf(s[from..], p)
      case None => None
      case Some(x) => Some(from + x)
  }

  /** Find reports an occurrence of `p`. */
  lemma FindOccurs(s: string, from: nat, p: string)
    requires Find(s, from, p).Some?
    ensures StartsWith(s[Find(s, from, p).value..], p)
  {
    IndexOfOccurs(s[from..], p);
    assert s[from..][IndexOf(s[from..], p).value..] == s[Find(s, from, p).value..];
  }

  /** Find reports the first occurrence at or after `from`. */
  lemma FindFirst(s: string, from: nat, p: string, x: nat)
    requires from <= x <= |s| && StartsWith(s[x..], p)
    ensures Find(s, from, p).Some? && Find(s, from, p).value <= x
  {
    assert s[from..][x - from..] == s[x..];
    IndexOfFirst(s[from..], p, x - from);
  }

  /** Find skips no occurrence at or after `from`. */
  lemma FindSkipsNone(s: string, from: nat, p: string, x: nat)
    requires from <= x <= |s|
    requires Find(s, from, p).None? || x < Find(s, from, p).value
    ensures !StartsWith(s[x..], p)
  {
    if StartsWith(s[x..], p) {
      FindFirst(s, from, p, x);
    }
  }

  /** An occurrence with no earlier occurrence of its first character is the one found. */
  lemma FindAt(s: string, from: nat, p: string, x: nat)
    requires from <= x <= |s| && p != [] && StartsWith(s[x..], p)
    requires forall m :: from <= m < x ==> s[m] != p[0]
    ensures Find(s, from, p) == Some(x)
  {
    FindFirst(s, from, p, x);
    FindOccurs(s, from, p);
    var v := Find(s, from, p).value;
    assert s[v] == s[v..][..|p|][0];
  }

  /** A one-character pattern occurs exactly where that character is. */
  lemma StartsWithChar(s: string, x: nat, c: char)
    requires x <= |s|
    ensures StartsWith(s[x..], [c]) <==> x < |s| && s[x] == c
  {
    if x < |s| {
      assert s[x..][..1] == [s[x]];
    }
  }

  /** No two adjacent whitespace characters. */
  ghost predicate NoDoubleSpace(s: string) {
    forall i :: 0 <= i < |s| - 1 ==> !(IsSpace(s[i]) && IsSpace(s[i + 1]))
  }

  /** No leading and no trailing whitespace. */
  ghost predicate Trimmed(s: string) {
    |s| > 0 ==> !IsSpace(s[0]) && !IsSpace(s[|s| - 1])
  }

  /** Every character is whitespace. */
  ghost predicate AllSpace(s: string) {
    forall i :: 0 <= i < |s| ==> IsSpace(s[i])
  }

  /** `s` with every whitespace character deleted: what whitespace rewriting must keep. */
  function RemoveSpaces(s: string): string {
    if s == [] then []
    else (if IsSpace(s[0]) then [] else [s[0]]) + RemoveSpaces(s[1..])
  }

  /** RemoveSpaces works piece by piece. */
  lemma {:induction false} RemoveSpacesAppend(a: string, b: string)
    ensures RemoveSpaces(a + b) == RemoveSpaces(a) + RemoveSpaces(b)
  {
    if a == [] {
      assert a + b == b;
    } else {
      assert (a + b)[0] == a[0];
      assert (a + b)[1..] == a[1..] + b;
      RemoveSpacesAppend(a[1..], b);
    }
  }

  /** Nothing remains of all-whitespace text. */
  lemma {:induction false} RemoveSpacesAllSpace(s: string)
    requires AllSpace(s)
    ensures RemoveSpaces(s) == []
  {
    if s != [] {
      RemoveSpacesAllSpace(s[1..]);
    }
  }

  /** Text of which nothing remains is all whitespace. */
  lemma {:induction false} AllSpaceOfNoRemains(s: string)
    requires RemoveSpaces(s) == []
    ensures AllSpace(s)
  {
    if s != [] {
      AllSpaceOfNoRemains(s[1..]);
    }
  }

  /** `s` without its leading whitespace. */
  function TrimStart(s: string): (r: string)
    ensures |r| <= |s|
    ensures |s| > 0 && IsSpace(s[0]) ==> |r| < |s|
  {
    if s != [] && IsSpace(s[0]) then TrimStart(s[1..]) else s
  }

  /** TrimStart cuts a whitespace prefix and stops at the first other character. */
  lemma {:induction false} TrimStartSlice(s: string)
    ensures TrimStart(s) == s[|s| - |TrimStart(s)|..]
    ensures AllSpace(s[..|s| - |TrimStart(s)|])
    ensures TrimStart(s) != [] ==> !IsSpace(TrimStart(s)[0])
  {
    if s != [] && IsSpace(s[0]) {
      TrimStartSlice(s[1..]);
      var n := |s| - |TrimStart(s)|;
      assert s[1..][n - 1..] == s[n..];
      forall i | 0 <= i < n ensures IsSpace(s[..n][i]) {
        if i > 0 { assert s[..n][i] == s[1..][..n - 1][i - 1]; }
      }
    }
  }

  /** `s` without its trailing whitespace. */
  function TrimEnd(s: string): (r: string)
    ensures |r| <= |s|
  {
    if s != [] && IsSpace(s[|s| - 1]) then TrimEnd(s[..|s| - 1]) else s
  }

  /** TrimEnd cuts a whitespace suffix and stops at the last other character. */
  lemma {:induction false} TrimEndSlice(s: string)
    ensures TrimEnd(s) == s[..|TrimEnd(s)|]
    ensures AllSpace(s[|TrimEnd(s)|..])
    ensures TrimEnd(s) != [] ==> !IsSpace(TrimEnd(s)[|TrimEnd(s)| - 1])
  {
    if s != [] && IsSpace(s[|s| - 1]) {
      var u := s[..|s| - 1];
      TrimEndSlice(u);
      var r := TrimEnd(u);
      assert TrimEnd(s) == r;
      var n := |r|;
      assert r == u[..n] == s[..n];
      forall i | 0 <= i < |s| - n ensures IsSpace(s[n..][i]) {
        if i < |s| - 1 - n {
          assert s[n..][i] == u[n..][i];
        } else {
          assert s[n..][i] == s[|s| - 1];
        }
      }
    }
  }

  /** Python's `str.strip()` with no argument. */
  function Strip(s: string): (r: string)
    ensures Trimmed(r)
  {
    TrimStartSlice(s);
    TrimEndSlice(TrimStart(s));
    TrimEnd(TrimStart(s))
  }

  /** Strip cuts only whitespace, and only from the two ends. */
  lemma StripSlice(s: string) returns (a: nat, b: nat)
    ensures a <= b <= |s| && Strip(s) == s[a..b]
    ensures AllSpace(s[..a]) && AllSpace(s[b..])
  {
    var t := TrimStart(s);
    TrimStartSlice(s);
    TrimEndSlice(t);
    a := |s| - |t|;
    b := a + |Strip(s)|;
    assert t == s[a..];
    assert s[a..][..b - a] == s[a..b];
    assert s[a..][b - a..] == s[b..];
  }

  /** Strip adds no character. */
  lemma StripChar(s: string, c: char)
    requires c !in s
    ensures c !in Strip(s)
  {
    var a, b := StripSlice(s);
  }

  /** Strip keeps text free of adjacent whitespace. */
  lemma StripNoDoubleSpace(s: string)
    requires NoDoubleSpace(s)
    ensures NoDoubleSpace(Strip(s))
  {
    var a, b := StripSlice(s);
    var r := s[a..b];
    forall i | 0 <= i < |r| - 1 ensures !(IsSpace(r[i]) && IsSpace(r[i + 1])) {
      assert r[i] == s[a + i] && r[i + 1] == s[a + i + 1];
    }
  }

  /** Strip removes only whitespace. */
  lemma StripRemoveSpaces(s: string)
    ensures RemoveSpaces(Strip(s)) == RemoveSpaces(s)
  {
    var a, b := StripSlice(s);
    assert s == s[..a] + s[a..b] + s[b..];
    RemoveSpacesBetween(s[..a], s[a..b], s[b..]);
  }

  /** RemoveSpaces of a middle piece between all-whitespace ends. */
  lemma RemoveSpacesBetween(left: string, mid: string, right: string)
    requires AllSpace(left) && AllSpace(right)
    ensures RemoveSpaces(left + mid + right) == RemoveSpaces(mid)
  {
    RemoveSpacesAllSpace(left);
    RemoveSpacesAllSpace(right);
    RemoveSpacesAppend(left + mid, right);
    RemoveSpacesAppend(left, mid);
  }

  /** Strip removes nothing from text that is already trimmed. */
  lemma StripTrimmed(s: string)
    requires Trimmed(s)
    ensures Strip(s) == s
  {
  }

  /** Strip empties exactly the all-whitespace text. */
  lemma StripAllSpace(s: string)
    ensures AllSpace(s) <==> Strip(s) == []
  {
    var a, b := StripSlice(s);
    if Strip(s) == [] {
      assert a == b;
      forall i | 0 <= i < |s| ensures IsSpace(s[i]) {
        if i < a { assert s[i] == s[..a][i]; } else { assert s[i] == s[b..][i - b]; }
      }
    }
  }

  /** Python's `re.sub(r"\s{2,}", " ", s)`: every maximal run of two or more whitespace
      characters, scanned left to right, becomes one space; a lone whitespace character stays. */
  function Collapse(s: string): (r: string)
    ensures NoDoubleSpace(r)
    ensures |s| > 0 ==> |r| > 0 && (IsSpace(r[0]) <==> IsSpace(s[0]))
    decreases |s|
  {
    if s == [] then []
    else if |s| >= 2 && IsSpace(s[0]) && IsSpace(s[1]) then
      TrimStartSlice(s);
      [' '] + Collapse(TrimStart(s))
    else [s[0]] + Collapse(s[1..])
  }

  /** Collapse adds no character but the space. */
  lemma {:induction false} CollapseChar(s: string, c: char)
    requires c !in s && c != ' '
    ensures c !in Collapse(s)
    decreases |s|
  {
    if s == [] {
    } else if |s| >= 2 && IsSpace(s[0]) && IsSpace(s[1]) {
      var t := TrimStart(s);
      TrimStartSlice(s);
      CollapseChar(t, c);
    } else {
      assert c !in s[1..];
      CollapseChar(s[1..], c);
    }
  }

  /** Collapse removes or rewrites only whitespace. */
  lemma {:induction false} CollapseRemoveSpaces(s: string)
    ensures RemoveSpaces(Collapse(s)) == RemoveSpaces(s)
    decreases |s|
  {
    if s == [] {
    } else if |s| >= 2 && IsSpace(s[0]) && IsSpace(s[1]) {
      var t := TrimStart(s);
      TrimStartSlice(s);
      var k := |s| - |t|;
      assert s == s[..k] + t;
      RemoveSpacesAllSpace(s[..k]);
      RemoveSpacesAppend(s[..k], t);
      CollapseRemoveSpaces(t);
      RemoveSpacesAppend([' '], Collapse(t));
      assert RemoveSpaces([' ']) == [];
    } else {
      CollapseRemoveSpaces(s[1..]);
      RemoveSpacesAppend([s[0]], Collapse(s[1..]));
    }
  }

  /** Collapse changes nothing in text without adjacent whitespace. */
  lemma {:induction false} CollapseNoDoubleSpace(s: string)
    requires NoDoubleSpace(s)
    ensures Collapse(s) == s
    decreases |s|
  {
    if s != [] {
      assert !(|s| >= 2 && IsSpace(s[0]) && IsSpace(s[1]));
      var t := s[1..];
      forall i | 0 <= i < |t| - 1 ensures !(IsSpace(t[i]) && IsSpace(t[i + 1])) {
        assert t[i] == s[i + 1] && t[i + 1] == s[i + 2];
      }
      CollapseNoDoubleSpace(t);
      assert s == [s[0]] + t;
    }
  }

  /** `re.sub(r"\s{2,}", " ", s).strip()`. */
  function Squish(s: string): (r: string)
    ensures Trimmed(r) && NoDoubleSpace(r)
  {
    StripNoDoubleSpace(Collapse(s));
    Strip(Collapse(s))
  }

  /** Squish adds no character but the space. */
  lemma SquishChar(s: string, c: char)
    requires c !in s && c != ' '
    ensures c !in Squish(s)
  {
    CollapseChar(s, c);
    StripChar(Collapse(s), c);
  }

  /** Squish removes or rewrites only whitespace. */
  lemma SquishRemoveSpaces(s: string)
    ensures RemoveSpaces(Squish(s)) == RemoveSpaces(s)
  {
    CollapseRemoveSpaces(s);
    StripRemoveSpaces(Collapse(s));
  }

  /** Squish leaves collapsed, stripped text as it is. */
  lemma SquishFixpoint(s: string)
    requires Trimmed(s) && NoDoubleSpace(s)
    ensures Squish(s) == s
  {
    CollapseNoDoubleSpace(s);
  }

  /** Squish empties all-whitespace text. */
  lemma SquishAllSpace(s: string)
    requires AllSpace(s)
    ensures Squish(s) == []
  {
    RemoveSpacesAllSpace(s);
    CollapseRemoveSpaces(s);
    AllSpaceOfNoRemains(Collapse(s));
    StripAllSpace(Collapse(s));
  }

  /** Leading whitespace in front of a non-space is exactly what TrimStart removes. */
  lemma {:induction false} TrimStartSkip(w: string, x: string)
    requires AllSpace(w) && (x == [] || !IsSpace(x[0]))
    ensures TrimStart(w + x) == x
    decreases |w|
  {
    if w != [] {
      assert (w + x)[1..] == w[1..] + x;
      TrimStartSkip(w[1..], x);
    } else {
      assert w + x == x;
    }
  }

  /** Trailing whitespace after a non-space is exactly what TrimEnd removes. */
  lemma {:induction false} TrimEndSkip(x: string, w: string)
    requires AllSpace(w) && (x == [] || !IsSpace(x[|x| - 1]))
    ensures TrimEnd(x + w) == x
    decreases |w|
  {
    if w != [] {
      assert (x + w)[..|x + w| - 1] == x + w[..|w| - 1];
      TrimEndSkip(x, w[..|w| - 1]);
    } else {
      assert x + w == x;
    }
  }

  /** Strip removes exactly the whitespace around a stripped, non-empty middle. */
  lemma StripExact(left: string, mid: string, right: string)
    requires AllSpace(left) && AllSpace(right) && mid != [] && Trimmed(mid)
    ensures Strip(left + mid + right) == mid
  {
    assert left + mid + right == left + (mid + right);
    TrimStartSkip(left, mid + right);
    TrimEndSkip(mid, right);
  }

  /** Collapsing never lengthens the text. */
  lemma {:induction false} CollapseLength(s: string)
    ensures |Collapse(s)| <= |s|
    decreases |s|
  {
    if s != [] {
      if |s| >= 2 && IsSpace(s[0]) && IsSpace(s[1]) {
        CollapseLength(TrimStart(s));
      } else {
        CollapseLength(s[1..]);
      }
    }
  }

  /** Squishing never lengthens the text. */
  lemma SquishLength(s: string)
    ensures |Squish(s)| <= |s|
  {
    CollapseLength(s);
    var a, b := StripSlice(Collapse(s));
  }

  /** Leading whitespace of text that holds a non-space is cut the same way whatever follows. */
  lemma TrimStartAppend(x: string, y: string)
    requires x != [] && !IsSpace(x[|x| - 1])
    ensures TrimStart(x + y) == TrimStart(x) + y
    ensures TrimStart(x) != [] && !IsSpace(TrimStart(x)[|TrimStart(x)| - 1])
  {
    TrimStartSlice(x);
    var n := |x| - |TrimStart(x)|;
    assert x == x[..n] + TrimStart(x);
    assert x + y == x[..n] + (TrimStart(x) + y);
    TrimStartSkip(x[..n], TrimStart(x) + y);
  }

  /** Text that ends in a non-space is collapsed independently of what follows it. */
  lemma {:induction false} CollapseAppend(x: string, y: string)
    requires x != [] && !IsSpace(x[|x| - 1])
    ensures Collapse(x + y) == Collapse(x) + Collapse(y)
    decreases |x|
  {
    var s := x + y;
    assert s[0] == x[0];
    if |x| >= 2 && IsSpace(x[0]) && IsSpace(x[1]) {
      assert s[1] == x[1];
      TrimStartAppend(x, y);
      CollapseAppend(TrimStart(x), y);
    } else if |x| == 1 {
      assert s[1..] == y;
      assert Collapse(x) == [x[0]] + Collapse([]);
    } else {
      assert s[1] == x[1];
      assert s[1..] == x[1..] + y;
      CollapseAppend(x[1..], y);
    }
  }

  /** A run of two or more whitespace characters between a non-space and a non-space (or the
      end) becomes exactly one space between the text on either side. */
  lemma CollapseRun(x: string, w: string, y: string)
    requires x != [] && !IsSpace(x[|x| - 1])
    requires AllSpace(w) && |w| >= 2 && (y == [] || !IsSpace(y[0]))
    ensures Collapse(x + w + y) == Collapse(x) + " " + Collapse(y)
  {
    assert x + w + y == x + (w + y);
    CollapseAppend(x, w + y);
    var t := w + y;
    assert IsSpace(t[0]) && IsSpace(t[1]);
    assert w + y == w + y;
    TrimStartSkip(w, y);
  }

  /** Leading whitespace in front of a non-space collapses to one space when it is a run of
      two or more, and is kept as it is otherwise. */
  lemma CollapseLead(w: string, y: string) returns (c: string)
    requires AllSpace(w) && (y == [] || !IsSpace(y[0]))
    ensures c == (if |w| >= 2 then " " else w)
    ensures AllSpace(c) && |c| <= 1 && Collapse(w + y) == c + Collapse(y)
  {
    if |w| >= 2 {
      assert (w + y)[0] == w[0] && (w + y)[1] == w[1];
      TrimStartSkip(w, y);
      c := " ";
    } else if |w| == 1 {
      var s := w + y;
      assert s[0] == w[0] && s[1..] == y;
      assert !(|s| >= 2 && IsSpace(s[1]));
      c := w;
    } else {
      assert w + y == y;
      c := [];
    }
  }

  /** Two words between any whitespace, with a run of at least two whitespace characters
      between them, are squished to the two words and one space. */
  lemma SquishTwoWords(w1: string, x: string, w2: string, y: string, w3: string)
    requires AllSpace(w1) && AllSpace(w2) && AllSpace(w3) && |w2| >= 2
    requires x != [] && Trimmed(x) && NoDoubleSpace(x) && y != [] && Trimmed(y) && NoDoubleSpace(y)
    ensures Squish(w1 + x + w2 + y + w3) == x + " " + y
  {
    var s := w1 + x + w2 + y + w3;
    var rest := x + w2 + (y + w3);
    assert s == w1 + rest;
    var c1 := CollapseLead(w1, rest);
    CollapseRun(x, w2, y + w3);
    CollapseNoDoubleSpace(x);
    CollapseAppend(y, w3);
    CollapseNoDoubleSpace(y);
    var c3 := CollapseLead(w3, []);
    assert w3 + [] == w3;
    var mid := x + " " + y;
    assert Collapse(s) == c1 + mid + c3;
    assert Trimmed(mid) by {
      assert mid[0] == x[0] && mid[|mid| - 1] == y[|y| - 1];
    }
    StripExact(c1, mid, c3);
  }

  /** ASCII upper-case letters to lower case; every other character unchanged. */
  function LowerChar(c: char): char {
    if 'A' <= c <= 'Z' then (c as int + 32) as char else c
  }

  /** Python's `str.lower()`, on ASCII letters. */
  function Lower(s: string): (r: string)
    ensures |r| == |s|
    ensures forall i :: 0 <= i < |s| ==> r[i] == LowerChar(s[i])
  {
    seq(|s|, i requires 0 <= i < |s| => LowerChar(s[i]))
  }

  /** Lower-casing twice is lower-casing once. */
  lemma LowerIdempotent(s: string)
    ensures Lower(Lower(s)) == Lower(s)
  {
    assert forall c :: LowerChar(LowerChar(c)) == LowerChar(c);
  }
}
