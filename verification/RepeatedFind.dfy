/** "Find next", pressed again and again in an Edit control: which matches are visited. */
module RepeatedFind {
  import opened Common
  import opened TextSearch
  import opened EditControl

  /** All matches at or after `lo`, overlapping ones included, in ascending order. */
  ghost function MatchesFrom(text: seq<char>, find: seq<char>, matchCase: bool, lo: nat): seq<nat>
    requires |find| > 0
    decreases |text| - lo
  {
    if lo + |find| > |text| then []
    else if MatchAt(text, find, matchCase, lo) then [lo] + MatchesFrom(text, find, matchCase, lo + 1)
    else MatchesFrom(text, find, matchCase, lo + 1)
  }

  lemma {:induction false} MatchesFromIsAll(text: seq<char>, find: seq<char>, matchCase: bool, lo: nat)
    requires |find| > 0
    ensures var all := MatchesFrom(text, find, matchCase, lo);
            && (forall i: nat :: i in all <==> lo <= i && MatchAt(text, find, matchCase, i))
            && (forall j, k :: 0 <= j < k < |all| ==> all[j] < all[k])
    decreases |text| - lo
  {
    if lo + |find| <= |text| {
      MatchesFromIsAll(text, find, matchCase, lo + 1);
      var tail := MatchesFrom(text, find, matchCase, lo + 1);
      assert forall k :: 0 <= k < |tail| ==> tail[k] in tail;
    }
  }

  /** A matched stretch is one line exactly when the search text holds no line end. */
  lemma LineEndInMatch(text: seq<char>, find: seq<char>, matchCase: bool, n: nat)
    requires MatchAt(text, find, matchCase, n)
    ensures OneLine(text, n, n + |find|) <==> '\r' !in find
  {
    OneLineIs(text, n, n + |find|);
    AgreeAt(text, find, matchCase, n, |find|);
    if '\r' in find {
      var k :| 0 <= k < |find| && find[k] == '\r';
      assert text[n + k] == '\r';
    } else {
      forall p | n <= p < n + |find| ensures text[p] != '\r' {
        assert find[p - n] != '\r';
      }
    }
  }

  /** After landing on a match, the next downward search starts behind it, unless the search text holds a line
      end: then it starts, and lands, on the same match again. */
  lemma NextVisit(text: seq<char>, find: seq<char>, matchCase: bool, n: nat)
    requires |find| > 0 && MatchAt(text, find, matchCase, n)
    ensures DownStart(text, n, n + |find|, find, matchCase) == if '\r' in find then n else n + 1
    ensures '\r' in find ==> FindTarget(text, n, n + |find|, find, matchCase, true) == Some(n)
  {
    LineEndInMatch(text, find, matchCase, n);
  }

  /** The landing places of at most `presses` downward searches, starting from a selection. */
  ghost function Visits(text: seq<char>, selStart: nat, selEnd: nat, find: seq<char>, matchCase: bool, presses: nat): seq<nat>
    requires |find| > 0 && selStart <= selEnd <= |text|
    decreases presses
  {
    var target := FindTarget(text, selStart, selEnd, find, matchCase, true);
    if presses == 0 || target.None? then []
    else [target.value] + Visits(text, target.value, target.value + |find|, find, matchCase, presses - 1)
  }

  /** The list from `lo` on is the first match followed by the list behind it. */
  lemma {:induction false} MatchesFromFirst(text: seq<char>, find: seq<char>, matchCase: bool, lo: nat, all: seq<nat>)
    requires |find| > 0 && all == MatchesFrom(text, find, matchCase, lo)
    ensures FirstMatch(text, find, matchCase, lo, |text|) == if all == [] then None else Some(all[0])
    ensures all != [] ==> MatchAt(text, find, matchCase, all[0]) && all[1..] == MatchesFrom(text, find, matchCase, all[0] + 1)
    decreases |text| - lo
  {
    if lo + |find| <= |text| && !MatchAt(text, find, matchCase, lo) {
      MatchesFromFirst(text, find, matchCase, lo + 1, all);
    }
  }

  /** A downward search lands on the head of the list of matches and leaves the tail to the next one. */
  lemma Landing(text: seq<char>, selStart: nat, selEnd: nat, find: seq<char>, matchCase: bool, all: seq<nat>)
    requires |find| > 0 && selStart <= selEnd <= |text|
    requires all == MatchesFrom(text, find, matchCase, DownStart(text, selStart, selEnd, find, matchCase))
    ensures FindTarget(text, selStart, selEnd, find, matchCase, true) == if all == [] then None else Some(all[0])
    ensures '\r' !in find && all != [] ==>
              all[0] + |find| <= |text|
              && all[1..] == MatchesFrom(text, find, matchCase, DownStart(text, all[0], all[0] + |find|, find, matchCase))
  {
    MatchesFromFirst(text, find, matchCase, DownStart(text, selStart, selEnd, find, matchCase), all);
    if all != [] { NextVisit(text, find, matchCase, all[0]); }
  }

  /** The first `n` elements, or all of them. */
  ghost function Take(s: seq<nat>, n: nat): seq<nat>
  {
    if n == 0 || s == [] then [] else [s[0]] + Take(s[1..], n - 1)
  }

  /** `presses` searches visit the next `presses` matches, overlapping ones included, in strictly increasing
      order, and stop when there are no more. A selection that is a match itself counts as visited. */
  lemma {:induction false} VisitsEveryMatch(text: seq<char>, selStart: nat, selEnd: nat, find: seq<char>, matchCase: bool,
                                            presses: nat, visits: seq<nat>, all: seq<nat>)
    requires |find| > 0 && '\r' !in find && selStart <= selEnd <= |text|
    requires visits == Visits(text, selStart, selEnd, find, matchCase, presses)
    requires all == MatchesFrom(text, find, matchCase, DownStart(text, selStart, selEnd, find, matchCase))
    ensures visits == Take(all, presses)
    decreases presses
  {
    Landing(text, selStart, selEnd, find, matchCase, all);
    if presses > 0 && all != [] {
      var next := Visits(text, all[0], all[0] + |find|, find, matchCase, presses - 1);
      VisitsEveryMatch(text, all[0], all[0] + |find|, find, matchCase, presses - 1, next, all[1..]);
      assert visits == [all[0]] + next;
    }
  }

  // ---------- upwards ----------

  /** All matches that begin before `hi`, overlapping ones included, in descending order. */
  ghost function MatchesBefore(text: seq<char>, find: seq<char>, matchCase: bool, hi: nat): seq<nat> {
    if hi == 0 then []
    else if MatchAt(text, find, matchCase, hi - 1) then [hi - 1 as nat] + MatchesBefore(text, find, matchCase, hi - 1)
    else MatchesBefore(text, find, matchCase, hi - 1)
  }

  lemma {:induction false} MatchesBeforeIsAll(text: seq<char>, find: seq<char>, matchCase: bool, hi: nat)
    ensures var all := MatchesBefore(text, find, matchCase, hi);
            && (forall i: nat :: i in all <==> i < hi && MatchAt(text, find, matchCase, i))
            && (forall j, k :: 0 <= j < k < |all| ==> all[j] > all[k])
  {
    if hi > 0 {
      MatchesBeforeIsAll(text, find, matchCase, hi - 1);
      var tail := MatchesBefore(text, find, matchCase, hi - 1);
      assert forall k :: 0 <= k < |tail| ==> tail[k] in tail;
    }
  }

  /** The landing places of at most `presses` upward searches, starting from a selection. */
  ghost function VisitsUp(text: seq<char>, selStart: nat, selEnd: nat, find: seq<char>, matchCase: bool, presses: nat): seq<nat>
    requires |find| > 0 && selStart <= selEnd <= |text|
    decreases presses
  {
    var target := FindTarget(text, selStart, selEnd, find, matchCase, false);
    if presses == 0 || target.None? then []
    else [target.value] + VisitsUp(text, target.value, target.value + |find|, find, matchCase, presses - 1)
  }

  /** The list before `hi` is the last match followed by the list before that. */
  lemma {:induction false} MatchesBeforeLast(text: seq<char>, find: seq<char>, matchCase: bool, hi: nat, all: seq<nat>)
    requires all == MatchesBefore(text, find, matchCase, hi)
    ensures all == [] ==> hi == 0 || LastMatch(text, find, matchCase, hi - 1).None?
    ensures all != [] ==> hi > 0 && LastMatch(text, find, matchCase, hi - 1) == Some(all[0])
                          && all[1..] == MatchesBefore(text, find, matchCase, all[0])
  {
    if hi > 1 && !MatchAt(text, find, matchCase, hi - 1) { MatchesBeforeLast(text, find, matchCase, hi - 1, all); }
  }

  /** `presses` upward searches visit the next `presses` matches before the selection, in strictly decreasing order,
      whatever characters the search text holds. */
  lemma {:induction false} VisitsEveryMatchUp(text: seq<char>, selStart: nat, selEnd: nat, find: seq<char>, matchCase: bool,
                                              presses: nat, visits: seq<nat>, all: seq<nat>)
    requires |find| > 0 && selStart <= selEnd <= |text|
    requires visits == VisitsUp(text, selStart, selEnd, find, matchCase, presses)
    requires all == MatchesBefore(text, find, matchCase, selStart)
    ensures visits == Take(all, presses)
    decreases presses
  {
    MatchesBeforeLast(text, find, matchCase, selStart, all);
    if presses > 0 && all != [] {
      var next := VisitsUp(text, all[0], all[0] + |find|, find, matchCase, presses - 1);
      VisitsEveryMatchUp(text, all[0], all[0] + |find|, find, matchCase, presses - 1, next, all[1..]);
      assert visits == [all[0]] + next;
    }
  }

  // ---------- line ends ----------

  /** With a line end in the search text every press lands on the match already selected. */
  lemma {:induction false} VisitsStuck(text: seq<char>, n: nat, find: seq<char>, matchCase: bool, presses: nat)
    requires |find| > 0 && '\r' in find && MatchAt(text, find, matchCase, n)
    ensures Visits(text, n, n + |find|, find, matchCase, presses) == seq(presses, _ => n)
    decreases presses
  {
    NextVisit(text, find, matchCase, n);
    if presses > 0 {
      VisitsStuck(text, n, find, matchCase, presses - 1);
    }
  }

  /** So the second of two line ends is never found. */
  lemma SecondLineEndMissed(presses: nat)
    ensures MatchAt("\rx\r", "\r", true, 2) && Visits("\rx\r", 0, 1, "\r", true, presses) == seq(presses, _ => 0)
  {
    AgreeAt("\rx\r", "\r", true, 0, 1);
    AgreeAt("\rx\r", "\r", true, 2, 1);
    VisitsStuck("\rx\r", 0, "\r", true, presses);
  }
}
