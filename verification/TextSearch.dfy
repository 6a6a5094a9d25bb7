/** What "find" and "replace all" mean, independent of any control: matches, the first and last match, and the
    left-to-right replacement of the non-overlapping matches of a text. */
module TextSearch {
  import opened Common

  /** The character relation of the comparison procedures: exact, or ignoring the case of ASCII letters. */
  function Fold(c: char, matchCase: bool): char {
    if !matchCase && 'A' <= c <= 'Z' then (c as int + 32) as char else c
  }

  predicate SameText(a: seq<char>, b: seq<char>, matchCase: bool) {
    |a| == |b| && forall k :: 0 <= k < |b| ==> Fold(a[k], matchCase) == Fold(b[k], matchCase)
  }

  predicate MatchAt(text: seq<char>, find: seq<char>, matchCase: bool, i: int) {
    0 <= i && i + |find| <= |text| && Agree(text, find, matchCase, i, |find|)
  }

  /** The first `n` characters of `find` agree with those of the text at `i`. */
  predicate Agree(text: seq<char>, find: seq<char>, matchCase: bool, i: nat, n: nat)
    requires n <= |find| && i + n <= |text|
  {
    n == 0 || (Agree(text, find, matchCase, i, n - 1) && Fold(text[i + n - 1], matchCase) == Fold(find[n - 1], matchCase))
  }

  lemma {:induction false} AgreeAt(text: seq<char>, find: seq<char>, matchCase: bool, i: nat, n: nat)
    requires n <= |find| && i + n <= |text|
    ensures Agree(text, find, matchCase, i, n)
            <==> forall k :: 0 <= k < n ==> Fold(text[i + k], matchCase) == Fold(find[k], matchCase)
  {
    if n > 0 { AgreeAt(text, find, matchCase, i, n - 1); }
  }

  /** The same character, or the two cases of an ASCII letter. */
  ghost predicate SameLetter(a: char, b: char) {
    a == b || ('A' <= a <= 'Z' && b as int == a as int + 32) || ('A' <= b <= 'Z' && a as int == b as int + 32)
  }

  /** A match is an occurrence of the search text: exactly, or up to the case of letters. */
  lemma MatchIsOccurrence(text: seq<char>, find: seq<char>, i: nat)
    ensures MatchAt(text, find, true, i) <==> i + |find| <= |text| && text[i..i + |find|] == find
    ensures MatchAt(text, find, false, i) <==> i + |find| <= |text| && forall k :: 0 <= k < |find| ==> SameLetter(text[i + k], find[k])
  {
    if i + |find| <= |text| {
      AgreeAt(text, find, true, i, |find|);
      AgreeAt(text, find, false, i, |find|);
      var s := text[i..i + |find|];
      assert forall k :: 0 <= k < |find| ==> s[k] == text[i + k];
      assert forall k :: 0 <= k < |find| ==> (SameLetter(text[i + k], find[k]) <==> Fold(text[i + k], false) == Fold(find[k], false));
    }
  }

  /** The first match at or after `lo` that lies wholly below `hi`. */
  function FirstMatch(text: seq<char>, find: seq<char>, matchCase: bool, lo: nat, hi: nat): (m: Option<nat>)
    requires |find| > 0
    ensures m.Some? ==> lo <= m.value && m.value + |find| <= hi && m.value + |find| <= |text|
    decreases hi - lo
  {
    if lo + |find| > hi then None
    else if MatchAt(text, find, matchCase, lo) then Some(lo)
    else FirstMatch(text, find, matchCase, lo + 1, hi)
  }

  lemma {:induction false} FirstMatchIsFirst(text: seq<char>, find: seq<char>, matchCase: bool, lo: nat, hi: nat)
    requires |find| > 0
    ensures var m := FirstMatch(text, find, matchCase, lo, hi);
            && (m.Some? ==> MatchAt(text, find, matchCase, m.value))
            && forall i: nat :: lo <= i && i + |find| <= hi && (m.Some? ==> i < m.value) ==> !MatchAt(text, find, matchCase, i)
    decreases hi - lo
  {
    if lo + |find| <= hi && !MatchAt(text, find, matchCase, lo) {
      FirstMatchIsFirst(text, find, matchCase, lo + 1, hi);
    }
  }

  /** The last match at or before `from`. */
  function LastMatch(text: seq<char>, find: seq<char>, matchCase: bool, from: nat): (m: Option<nat>)
    ensures m.Some? ==> m.value <= from && m.value + |find| <= |text|
  {
    if MatchAt(text, find, matchCase, from) then Some(from)
    else if from == 0 then None
    else LastMatch(text, find, matchCase, from - 1)
  }

  lemma {:induction false} LastMatchIsLast(text: seq<char>, find: seq<char>, matchCase: bool, from: nat)
    ensures var m := LastMatch(text, find, matchCase, from);
            && (m.Some? ==> MatchAt(text, find, matchCase, m.value))
            && forall i: nat :: i <= from && (m.Some? ==> m.value < i) ==> !MatchAt(text, find, matchCase, i)
  {
    if !MatchAt(text, find, matchCase, from) && from > 0 {
      LastMatchIsLast(text, find, matchCase, from - 1);
    }
  }

  /** The outcome of a replacement pass: the new text and how many matches were replaced. */
  datatype Pass = Pass(text: seq<char>, count: nat)

  /** One left-to-right pass over `text[lo..hi]` that replaces and skips every match it meets. */
  ghost function ReplaceAll(text: seq<char>, find: seq<char>, repl: seq<char>, matchCase: bool, lo: nat, hi: nat): Pass
    requires |find| > 0 && lo <= hi <= |text|
    decreases hi - lo
  {
    if lo + |find| > hi then Pass(text[lo..hi], 0)
    else if MatchAt(text, find, matchCase, lo) then
      var rest := ReplaceAll(text, find, repl, matchCase, lo + |find|, hi);
      Pass(repl + rest.text, 1 + rest.count)
    else
      var rest := ReplaceAll(text, find, repl, matchCase, lo + 1, hi);
      Pass([text[lo]] + rest.text, rest.count)
  }

  /** A pass with no match in its range changes nothing. */
  lemma {:induction false} ReplaceNothing(text: seq<char>, find: seq<char>, repl: seq<char>, matchCase: bool, lo: nat, hi: nat)
    requires |find| > 0 && lo <= hi <= |text|
    requires FirstMatch(text, find, matchCase, lo, hi).None?
    ensures ReplaceAll(text, find, repl, matchCase, lo, hi) == Pass(text[lo..hi], 0)
    decreases hi - lo
  {
    if lo + |find| <= hi {
      ReplaceNothing(text, find, repl, matchCase, lo + 1, hi);
      assert text[lo..hi] == [text[lo]] + text[lo + 1..hi];
    }
  }

  /** One round of "search, replace, go on after the match": `all` is what the pass makes of the range, `rest`
      what it makes of the part behind the first match. */
  lemma {:induction false} ReplaceRound(text: seq<char>, find: seq<char>, repl: seq<char>, matchCase: bool,
                                        lo: nat, hi: nat, m: nat, rest: Pass, all: Pass)
    requires |find| > 0 && lo <= hi <= |text|
    requires FirstMatch(text, find, matchCase, lo, hi) == Some(m)
    requires rest == ReplaceAll(text, find, repl, matchCase, m + |find|, hi)
    requires all == ReplaceAll(text, find, repl, matchCase, lo, hi)
    ensures all == Pass(text[lo..m] + repl + rest.text, 1 + rest.count)
    decreases hi - lo
  {
    if m == lo {
      assert text[lo..lo] + repl + rest.text == repl + rest.text;
    } else {
      ReplaceRound(text, find, repl, matchCase, lo + 1, hi, m, rest, ReplaceAll(text, find, repl, matchCase, lo + 1, hi));
      Splice(text, lo, m, repl, rest.text);
    }
  }

  lemma Splice(text: seq<char>, lo: nat, n: nat, repl: seq<char>, rest: seq<char>)
    requires lo < n <= |text|
    ensures [text[lo]] + (text[lo + 1..n] + repl + rest) == text[lo..n] + repl + rest
  {
    assert [text[lo]] + text[lo + 1..n] == text[lo..n];
  }

  /** The same `n` characters stand at `i` in one text and at `j` in another. */
  predicate SameChars(a: seq<char>, i: nat, b: seq<char>, j: nat, n: nat)
    requires i + n <= |a| && j + n <= |b|
    decreases n
  {
    n == 0 || (a[i] == b[j] && SameChars(a, i + 1, b, j + 1, n - 1))
  }

  lemma {:induction false} SameCharsAt(a: seq<char>, i: nat, b: seq<char>, j: nat, n: nat)
    requires i + n <= |a| && j + n <= |b|
    ensures SameChars(a, i, b, j, n) <==> a[i..i + n] == b[j..j + n]
    decreases n
  {
    if n > 0 {
      SameCharsAt(a, i + 1, b, j + 1, n - 1);
      Uncons(a, i, i + n);
      Uncons(b, j, j + n);
      SameHeadAndTail(a[i], a[i + 1..i + n], b[j], b[j + 1..j + n]);
    }
  }

  lemma {:induction false} SameCharsSkip(a: seq<char>, i: nat, b: seq<char>, j: nat, n: nat, d: nat)
    requires i + n <= |a| && j + n <= |b| && SameChars(a, i, b, j, n) && d <= n
    ensures SameChars(a, i + d, b, j + d, n - d) && SameChars(a, i, b, j, d)
    decreases n
  {
    if d > 0 { SameCharsSkip(a, i + 1, b, j + 1, n - 1, d - 1); }
  }

  lemma MatchShift(a: seq<char>, i: nat, b: seq<char>, j: nat, find: seq<char>, matchCase: bool)
    requires i + |find| <= |a| && j + |find| <= |b| && SameChars(a, i, b, j, |find|)
    ensures MatchAt(a, find, matchCase, i) == MatchAt(b, find, matchCase, j)
  {
    SameCharsAt(a, i, b, j, |find|);
    AgreeAt(a, find, matchCase, i, |find|);
    AgreeAt(b, find, matchCase, j, |find|);
    var s, t := a[i..i + |find|], b[j..j + |find|];
    assert forall k :: 0 <= k < |find| ==> s[k] == a[i + k];
    assert forall k :: 0 <= k < |find| ==> t[k] == b[j + k];
  }

  /** A pass depends only on the characters it runs over, wherever they stand. */
  lemma {:induction false} ReplaceAllShift(a: seq<char>, i: nat, hi: nat, b: seq<char>, j: nat, hj: nat,
                                           find: seq<char>, repl: seq<char>, matchCase: bool, pa: Pass, pb: Pass)
    requires |find| > 0 && i <= hi <= |a| && j <= hj <= |b| && hi - i == hj - j && SameChars(a, i, b, j, hi - i)
    requires pa == ReplaceAll(a, find, repl, matchCase, i, hi) && pb == ReplaceAll(b, find, repl, matchCase, j, hj)
    ensures pa == pb
    decreases hi - i
  {
    if i + |find| > hi {
      SameCharsAt(a, i, b, j, hi - i);
      assert a[i..hi] == b[j..hj];
    } else {
      var d := if MatchAt(a, find, matchCase, i) then |find| else 1;
      ShiftStep(a, i, b, j, hi - i, find, matchCase, d);
      var ra, rb := ReplaceAll(a, find, repl, matchCase, i + d, hi), ReplaceAll(b, find, repl, matchCase, j + d, hj);
      ReplaceAllShift(a, i + d, hi, b, j + d, hj, find, repl, matchCase, ra, rb);
      PassStep(a, find, repl, matchCase, i, hi, d, ra, pa);
      PassStep(b, find, repl, matchCase, j, hj, d, rb, pb);
    }
  }

  /** A pass with a candidate left deals with that candidate and goes on behind it. */
  lemma PassStep(text: seq<char>, find: seq<char>, repl: seq<char>, matchCase: bool, lo: nat, hi: nat, d: nat, rest: Pass, all: Pass)
    requires 0 < |find| && lo + |find| <= hi <= |text| && d == if MatchAt(text, find, matchCase, lo) then |find| else 1
    requires rest == ReplaceAll(text, find, repl, matchCase, lo + d, hi) && all == ReplaceAll(text, find, repl, matchCase, lo, hi)
    ensures all == if MatchAt(text, find, matchCase, lo) then Pass(repl + rest.text, 1 + rest.count)
                   else Pass([text[lo]] + rest.text, rest.count)
  {
  }

  lemma ShiftStep(a: seq<char>, i: nat, b: seq<char>, j: nat, n: nat, find: seq<char>, matchCase: bool, d: nat)
    requires 0 < |find| <= n && 0 < d <= n && i + n <= |a| && j + n <= |b| && SameChars(a, i, b, j, n)
    ensures MatchAt(a, find, matchCase, i) == MatchAt(b, find, matchCase, j) && a[i] == b[j]
    ensures SameChars(a, i + d, b, j + d, n - d)
  {
    SameCharsSkip(a, i, b, j, n, |find|);
    MatchShift(a, i, b, j, find, matchCase);
    SameCharsSkip(a, i, b, j, n, d);
  }

  /** Every replacement changes the length by the same amount, and nothing else does. */
  lemma {:induction false} ReplaceAllLength(text: seq<char>, find: seq<char>, repl: seq<char>, matchCase: bool, lo: nat, hi: nat)
    requires |find| > 0 && lo <= hi <= |text|
    ensures var p := ReplaceAll(text, find, repl, matchCase, lo, hi); |p.text| == hi - lo + p.count * (|repl| - |find|)
    decreases hi - lo
  {
    if lo + |find| <= hi {
      if MatchAt(text, find, matchCase, lo) {
        ReplaceAllLength(text, find, repl, matchCase, lo + |find|, hi);
        OneMore(ReplaceAll(text, find, repl, matchCase, lo + |find|, hi).count, |repl| - |find|);
      } else {
        ReplaceAllLength(text, find, repl, matchCase, lo + 1, hi);
      }
    }
  }

  lemma OneMore(n: int, d: int)
    ensures (1 + n) * d == d + n * d
  {
  }

  /** Replacing a text by itself, case-sensitively, gives the text back. */
  lemma {:induction false} ReplaceAllIdentity(text: seq<char>, find: seq<char>, lo: nat, hi: nat)
    requires |find| > 0 && lo <= hi <= |text|
    ensures ReplaceAll(text, find, find, true, lo, hi).text == text[lo..hi]
    decreases hi - lo
  {
    if lo + |find| <= hi {
      if MatchAt(text, find, true, lo) {
        ReplaceAllIdentity(text, find, lo + |find|, hi);
        AgreeAt(text, find, true, lo, |find|);
        assert text[lo..hi] == text[lo..lo + |find|] + text[lo + |find|..hi];
        assert text[lo..lo + |find|] == find;
      } else {
        ReplaceAllIdentity(text, find, lo + 1, hi);
        assert text[lo..hi] == [text[lo]] + text[lo + 1..hi];
      }
    }
  }
}
