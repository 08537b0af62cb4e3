/**
 The string primitives the scoring heuristic relies on, as Python defines them:
 `str.isspace`, lowercasing, the substring test `p in s`, and `str.split()`
 with no separator argument.
 */
module Text {

  /** Python's `str.isspace()` for one character: the characters `str.split()`
      with no argument treats as separators. */
  predicate IsSpace(c: char) {
    || c == ' ' || c == '\t' || c == '\n' || c == '\r'
    || c == '\U{000B}' || c == '\U{000C}'
    || ('\U{001C}' <= c <= '\U{001F}')
    || c == '\U{0085}' || c == '\U{00A0}' || c == '\U{1680}'
    || ('\U{2000}' <= c <= '\U{200A}')
    || c == '\U{2028}' || c == '\U{2029}' || c == '\U{202F}'
    || c == '\U{205F}' || c == '\U{3000}'
  }

  predicate IsUpperAscii(c: char) {
    'A' <= c <= 'Z'
  }

  /** ASCII lowercasing of one character; every other character is kept. */
  function LowerChar(c: char): (r: char)
    ensures !IsUpperAscii(r)
    ensures r == c || (IsUpperAscii(c) && r as int == c as int + 32)
    ensures IsSpace(r) <==> IsSpace(c)
  {
    if IsUpperAscii(c) then (c as int + 32) as char else c
  }

  /** `s.lower()`, restricted to ASCII letters. */
  function Lower(s: string): (r: string)
    ensures |r| == |s|
    ensures forall i :: 0 <= i < |s| ==> r[i] == LowerChar(s[i])
    ensures forall i :: 0 <= i < |s| ==> !IsUpperAscii(r[i])
    ensures forall i :: 0 <= i < |s| ==> r[i] == s[i] || (IsUpperAscii(s[i]) && r[i] as int == s[i] as int + 32)
  {
    seq(|s|, i requires 0 <= i < |s| => LowerChar(s[i]))
  }

  /** Lowercasing twice is lowercasing once. */
  lemma LowerIdempotent(s: string)
    ensures Lower(Lower(s)) == Lower(s)
  {
  }

  /** Text without ASCII capitals is its own lowercase form. */
  lemma LowerAscii(s: string)
    requires forall i :: 0 <= i < |s| ==> !IsUpperAscii(s[i])
    ensures Lower(s) == s
  {
  }

  /** Lowercasing distributes over concatenation. */
  lemma LowerAppend(a: string, b: string)
    ensures Lower(a + b) == Lower(a) + Lower(b)
  {
    assert forall i :: 0 <= i < |a + b| ==> Lower(a + b)[i] == (Lower(a) + Lower(b))[i];
  }

  // ---------------------------------------------------------------------------
  // Substring search
  // ---------------------------------------------------------------------------

  /** `s.startswith(p)`, compared one character at a time. */
  predicate StartsWith(s: string, p: string)
    decreases |p|
  {
    |p| == 0 || (|s| > 0 && s[0] == p[0] && StartsWith(s[1..], p[1..]))
  }

  /** `p in s`: tries every start position of `s` in turn. */
  predicate Contains(s: string, p: string)
    decreases |s|
  {
    StartsWith(s, p) || (|s| > 0 && Contains(s[1..], p))
  }

  /** `p` occurs in `s` starting at index `i`. */
  ghost predicate OccursAt(s: string, p: string, i: int) {
    0 <= i && i + |p| <= |s| && s[i..i + |p|] == p
  }

  lemma {:induction false} StartsWithIff(s: string, p: string)
    ensures StartsWith(s, p) <==> |p| <= |s| && s[..|p|] == p
    decreases |p|
  {
    if |p| > 0 && |s| > 0 {
      StartsWithIff(s[1..], p[1..]);
      if |p| <= |s| {
        assert s[..|p|] == [s[0]] + s[1..][..|p| - 1];
        assert p == [p[0]] + p[1..];
      }
    }
  }

  /** An occurrence in the tail of `s` is an occurrence in `s`, one place later. */
  lemma OccursInTail(s: string, p: string, i: int)
    requires |s| > 0 && 0 <= i
    ensures OccursAt(s[1..], p, i) <==> OccursAt(s, p, i + 1)
  {
    if i + 1 + |p| <= |s| {
      assert s[1..][i..i + |p|] == s[i + 1..i + 1 + |p|];
    }
  }

  /** The scan finds `p` exactly when `p` occurs somewhere in `s`. */
  lemma {:induction false} ContainsIff(s: string, p: string)
    ensures Contains(s, p) <==> exists i :: OccursAt(s, p, i)
    decreases |s|
  {
    StartsWithIff(s, p);
    if StartsWith(s, p) {
      assert OccursAt(s, p, 0);
    } else if |s| > 0 {
      ContainsIff(s[1..], p);
      if Contains(s[1..], p) {
        var i :| OccursAt(s[1..], p, i);
        OccursInTail(s, p, i);
      }
      if exists i :: OccursAt(s, p, i) {
        var i :| OccursAt(s, p, i);
        assert i != 0;
        OccursInTail(s, p, i - 1);
      }
    }
  }

  /** `p` is absent when no candidate start position of `s` has `p[j]` at offset `j`. */
  lemma MissingAtOffset(s: string, p: string, j: nat)
    requires j < |p|
    requires forall i :: j <= i < |s| - |p| + j + 1 ==> s[i] != p[j]
    ensures !Contains(s, p)
  {
    ContainsIff(s, p);
    forall k | 0 <= k && k + |p| <= |s| ensures !OccursAt(s, p, k) {
      assert s[k..k + |p|][j] == s[k + j];
    }
  }

  /** Text that is present stays present when more text is appended on either side. */
  lemma ContainsExtend(s: string, p: string, before: string, after: string)
    requires Contains(s, p)
    ensures Contains(before + s + after, p)
  {
    ContainsIff(s, p);
    var i :| OccursAt(s, p, i);
    var t := before + s + after;
    assert t[|before| + i..|before| + i + |p|] == s[i..i + |p|];
    assert OccursAt(t, p, |before| + i);
    ContainsIff(t, p);
  }

  /** An occurrence of `p` at `i` puts `p[m - i]` at every index `m` it covers. */
  lemma OccurrenceCovers(t: string, p: string, i: int, m: int)
    requires OccursAt(t, p, i)
    ensures i <= m < i + |p| ==> p[m - i] == t[m]
  {
    if i <= m < i + |p| {
      assert t[i..i + |p|][m - i] == t[m];
    }
  }

  /** A space-free pattern found in `a + " " + b` was already in `a` or in `b`. */
  lemma ContainsAcrossSpace(a: string, b: string, p: string)
    requires forall j :: 0 <= j < |p| ==> p[j] != ' '
    requires Contains(a + " " + b, p)
    ensures Contains(a, p) || Contains(b, p)
  {
    var t := a + " " + b;
    ContainsIff(t, p);
    var i :| OccursAt(t, p, i);
    assert t == a + (" " + b);
    assert t[|a|] == ' ';
    OccurrenceCovers(t, p, i, |a|);
    if i + |p| <= |a| {
      assert a[i..i + |p|] == t[i..i + |p|];
      assert OccursAt(a, p, i);
      ContainsIff(a, p);
    } else {
      var k := i - |a| - 1;
      assert b[k..k + |p|] == t[i..i + |p|];
      assert OccursAt(b, p, k);
      ContainsIff(b, p);
    }
  }

  // ---------------------------------------------------------------------------
  // Whitespace splitting
  // ---------------------------------------------------------------------------

  /** `s` is empty or consists of whitespace only. */
  predicate IsBlank(s: string) {
    forall i :: 0 <= i < |s| ==> IsSpace(s[i])
  }

  lemma LowerBlank(s: string)
    ensures IsBlank(Lower(s)) <==> IsBlank(s)
  {
    assert forall i :: 0 <= i < |s| ==> (IsSpace(Lower(s)[i]) <==> IsSpace(s[i]));
  }

  /** One item of the result of `str.split()`: non-empty, with no whitespace. */
  predicate IsWord(w: string) {
    |w| > 0 && forall j :: 0 <= j < |w| ==> !IsSpace(w[j])
  }

  /** `s` with its leading whitespace removed. */
  function SkipSpaces(s: string): (r: string)
    ensures |r| <= |s| && r == s[|s| - |r|..]
    ensures |r| > 0 ==> !IsSpace(r[0])
    ensures forall i :: 0 <= i < |s| - |r| ==> IsSpace(s[i])
  {
    if |s| > 0 && IsSpace(s[0]) then SkipSpaces(s[1..]) else s
  }

  /** The longest whitespace-free prefix of `s`. */
  function TakeWord(s: string): (r: string)
    ensures |r| <= |s| && r == s[..|r|]
    ensures forall i :: 0 <= i < |r| ==> !IsSpace(r[i])
    ensures |r| < |s| ==> IsSpace(s[|r|])
  {
    if |s| > 0 && !IsSpace(s[0]) then [s[0]] + TakeWord(s[1..]) else []
  }

  /** `s.split()`: the maximal runs of non-whitespace characters, in order. */
  function Split(s: string): (r: seq<string>)
    ensures forall i :: 0 <= i < |r| ==> IsWord(r[i])
    decreases |s|
  {
    var t := SkipSpaces(s);
    if |t| == 0 then []
    else
      var w := TakeWord(t);
      assert |w| > 0 by { assert !IsSpace(t[0]); }
      [w] + Split(t[|w|..])
  }

  /** `len(s.split())`. */
  function WordCount(s: string): nat {
    |Split(s)|
  }

  /** An independent single-pass count of the words of `s`: the number of
      non-whitespace characters that do not follow another non-whitespace
      character (`inWord` says whether the character before `s` was one). */
  function WordStarts(s: string, inWord: bool): nat {
    if |s| == 0 then 0
    else if IsSpace(s[0]) then WordStarts(s[1..], false)
    else (if inWord then 0 else 1) + WordStarts(s[1..], true)
  }

  lemma {:induction false} WordStartsSkip(s: string)
    ensures WordStarts(SkipSpaces(s), false) == WordStarts(s, false)
  {
    if |s| > 0 && IsSpace(s[0]) {
      WordStartsSkip(s[1..]);
    }
  }

  lemma {:induction false} WordStartsInWord(s: string)
    ensures WordStarts(s[|TakeWord(s)|..], true) == WordStarts(s, true)
  {
    if |s| > 0 && !IsSpace(s[0]) {
      WordStartsInWord(s[1..]);
      assert s[|TakeWord(s)|..] == s[1..][|TakeWord(s[1..])|..];
    }
  }

  /** The number of items `str.split()` returns is the number of word starts. */
  lemma {:induction false} WordCountIsWordStarts(s: string)
    ensures WordCount(s) == WordStarts(s, false)
    decreases |s|
  {
    var t := SkipSpaces(s);
    WordStartsSkip(s);
    if |t| > 0 {
      var w := TakeWord(t);
      var rest := t[|w|..];
      assert Split(s) == [w] + Split(rest);
      WordCountIsWordStarts(rest);
      WordStartsInWord(t);
      assert WordStarts(t, false) == 1 + WordStarts(t, true);
      assert WordStarts(rest, true) == WordStarts(rest, false);
    }
  }

  /** `s` with every whitespace character dropped. */
  function NonSpace(s: string): (r: string)
    ensures |r| <= |s|
  {
    if |s| == 0 then []
    else (if IsSpace(s[0]) then [] else [s[0]]) + NonSpace(s[1..])
  }

  function Concat(ws: seq<string>): string {
    if |ws| == 0 then [] else ws[0] + Concat(ws[1..])
  }

  lemma {:induction false} NonSpaceAppend(a: string, b: string)
    ensures NonSpace(a + b) == NonSpace(a) + NonSpace(b)
  {
    if |a| > 0 {
      NonSpaceAppend(a[1..], b);
      assert (a + b)[1..] == a[1..] + b;
    } else {
      assert a + b == b;
    }
  }

  lemma {:induction false} NonSpaceSkip(s: string)
    ensures NonSpace(SkipSpaces(s)) == NonSpace(s)
  {
    if |s| > 0 && IsSpace(s[0]) {
      NonSpaceSkip(s[1..]);
    }
  }

  lemma {:induction false} NonSpaceTake(s: string)
    ensures NonSpace(s) == TakeWord(s) + NonSpace(s[|TakeWord(s)|..])
  {
    if |s| > 0 && !IsSpace(s[0]) {
      var w, w' := TakeWord(s), TakeWord(s[1..]);
      NonSpaceTake(s[1..]);
      assert w == [s[0]] + w';
      assert s[|w|..] == s[1..][|w'|..];
      assert NonSpace(s) == [s[0]] + NonSpace(s[1..]);
    }
  }

  /** Splitting loses exactly the whitespace: joining the words back together
      gives the non-whitespace characters of `s`, in order. */
  lemma {:induction false} SplitJoin(s: string)
    ensures Concat(Split(s)) == NonSpace(s)
    decreases |s|
  {
    var t := SkipSpaces(s);
    NonSpaceSkip(s);
    if |t| > 0 {
      var w := TakeWord(t);
      var rest := t[|w|..];
      NonSpaceTake(t);
      SplitJoin(rest);
      assert Split(s) == [w] + Split(rest);
      assert Concat([w] + Split(rest)) == w + Concat(Split(rest));
    }
  }

  lemma {:induction false} TakeWordAll(s: string)
    requires forall i :: 0 <= i < |s| ==> !IsSpace(s[i])
    ensures TakeWord(s) == s
  {
    if |s| > 0 {
      TakeWordAll(s[1..]);
    }
  }

  /** `str.split()` returns nothing exactly for blank text. */
  lemma NoWordsIffBlank(s: string)
    ensures Split(s) == [] <==> IsBlank(s)
  {
    var t := SkipSpaces(s);
    if |t| > 0 {
      assert t[0] == s[|s| - |t|];
    }
  }

  /** `str.split()` on text with no whitespace yields the text itself, or nothing. */
  lemma SplitSingleWord(s: string)
    requires forall i :: 0 <= i < |s| ==> !IsSpace(s[i])
    ensures |s| > 0 ==> Split(s) == [s]
    ensures |s| == 0 ==> Split(s) == []
  {
    if |s| > 0 {
      TakeWordAll(s);
      assert SkipSpaces(s) == s;
      assert s[|s|..] == [];
    }
  }
}
