/** Find and replace for the Rich Edit control: search with wrap-around. The position where the search began is kept as
    such in the first pass. On wrapping it is re-encoded as (position - text length), a distance from the end of the
    text, so that replacements made in the second pass do not disturb it. */
module RichEditControl {
  import opened Common
  import opened TextSearch

  /** EM_FINDTEXTEX, downwards: the first match wholly inside the range from `cpMin` to `cpMax`. */
  function FindDown(text: seq<char>, find: seq<char>, matchCase: bool, cpMin: nat, cpMax: int): Option<nat>
    requires |find| > 0
  {
    if cpMax < cpMin then None else FirstMatch(text, find, matchCase, cpMin, cpMax)
  }

  /** EM_FINDTEXTEX, upwards: the last match wholly inside the range from `cpMax` to `cpMin`. */
  function FindUp(text: seq<char>, find: seq<char>, matchCase: bool, cpMin: nat, cpMax: int): Option<nat>
    requires |find| > 0
  {
    if cpMax < 0 || cpMin < cpMax + |find| then None
    else
      var m := LastMatch(text, find, matchCase, cpMin - |find|);
      if m.Some? && m.value >= cpMax then m else None
  }

  function FindText(text: seq<char>, find: seq<char>, matchCase: bool, cpMin: nat, cpMax: int, down: bool): (at: Option<nat>)
    requires |find| > 0
    ensures at.Some? ==> at.value + |find| <= |text|
  {
    if down then FindDown(text, find, matchCase, cpMin, cpMax) else FindUp(text, find, matchCase, cpMin, cpMax)
  }

  /** How far a search may go: to the end of the text in the first pass, to the starting point in the second. */
  function Limit(text: seq<char>, pos: int, down: bool): int {
    if pos < 0 then |text| + pos else if down then |text| else 0
  }

  /** Where a search goes on from: downwards, a selection is left behind. */
  function Start(selMin: nat, selMax: nat, down: bool): nat { if selMin == selMax || !down then selMin else selMin + 1 }

  /** The starting point as encoded after a search, and what it found. */
  datatype Landing = Landing(pos: int, at: Option<nat>)

  /** One search, with at most one wrap. */
  function Search(text: seq<char>, start: nat, pos: int, find: seq<char>, matchCase: bool, down: bool): Landing
    requires |find| > 0
  {
    var first := FindText(text, find, matchCase, start, Limit(text, pos, down), down);
    if first.Some? || pos <= 0 then Landing(pos, first)
    else Landing(pos - |text|, FindText(text, find, matchCase, if down then 0 else |text|, pos, down))
  }

  /** The state after a search that landed so: the match is selected, or the selection `selMin..selMax` stays. */
  predicate Landed(landing: Landing, pos: int, found: bool, selMin': nat, selMax': nat, selMin: nat, selMax: nat, n: nat) {
    && pos == landing.pos && found == landing.at.Some?
    && (if found then selMin' == landing.at.value && selMax' == landing.at.value + n else selMin' == selMin && selMax' == selMax)
  }

  /** A stretch of `n` characters at `i` lies between `start` and `end`, in the direction of the search. */
  ghost predicate Between(i: nat, n: nat, start: nat, end: int, down: bool) {
    if down then start <= i && i + n <= end else 0 <= end <= i && i + n <= start
  }

  /** The match between `start` and `end` that is nearest to `start`, or that there is none. */
  ghost predicate Nearest(text: seq<char>, find: seq<char>, matchCase: bool, start: nat, end: int, down: bool, found: bool, at: nat) {
    && (found ==> MatchAt(text, find, matchCase, at) && Between(at, |find|, start, end, down))
    && forall i: nat :: Between(i, |find|, start, end, down) && (found ==> if down then i < at else at < i)
         ==> !MatchAt(text, find, matchCase, i)
  }

  /** A search begun at `from` (a distance from the end of the text once it has wrapped) goes on from `start`: to the
      end of the text, to its start or back to where it began. It wraps when it finds nothing there, unless it began at
      the very start or has wrapped already. `pos` is how the starting point is kept for the next search. */
  ghost predicate Searched(text: seq<char>, start: nat, from: int, find: seq<char>, matchCase: bool, down: bool,
                           found: bool, at: nat, pos: int) {
    var end := if from < 0 then |text| + from else if down then |text| else 0;
    if from > 0 && Nearest(text, find, matchCase, start, end, down, false, 0) then
      pos == from - |text| && Nearest(text, find, matchCase, if down then 0 else |text|, from, down, found, at)
    else
      pos == from && Nearest(text, find, matchCase, start, end, down, found, at)
  }

  lemma FindTextIsNearest(text: seq<char>, find: seq<char>, matchCase: bool, cpMin: nat, cpMax: int, down: bool)
    requires |find| > 0
    ensures var at := FindText(text, find, matchCase, cpMin, cpMax, down);
            Nearest(text, find, matchCase, cpMin, cpMax, down, at.Some?, if at.Some? then at.value else 0)
  {
    if down {
      if cpMin <= cpMax { FirstMatchIsFirst(text, find, matchCase, cpMin, cpMax); }
    } else if 0 <= cpMax && cpMax + |find| <= cpMin {
      LastMatchIsLast(text, find, matchCase, cpMin - |find|);
    }
  }

  lemma SearchIsRight(text: seq<char>, start: nat, from: int, find: seq<char>, matchCase: bool, down: bool)
    requires |find| > 0
    ensures var landing := Search(text, start, from, find, matchCase, down);
            Searched(text, start, from, find, matchCase, down, landing.at.Some?, if landing.at.Some? then landing.at.value else 0, landing.pos)
  {
    FindTextIsNearest(text, find, matchCase, start, Limit(text, from, down), down);
    if from > 0 { FindTextIsNearest(text, find, matchCase, if down then 0 else |text|, from, down); }
  }

  function Spliced(text: seq<char>, m: nat, e: nat, repl: seq<char>): seq<char>
    requires m <= e <= |text|
  {
    text[..m] + repl + text[e..]
  }

  class RichEditFindReplace {
    var text: seq<char>
    var selMin: nat
    var selMax: nat
    var firstSearch: bool
    var initialSearchPos: int
    var notFoundMessages: nat

    ghost predicate Valid()
      reads this
    {
      selMin <= selMax <= |text|
    }

    method SameAsSelected(find: seq<char>, matchCase: bool) returns (same: bool)
      requires Valid()
      ensures same <==> selMax - selMin == |find| && MatchAt(text, find, matchCase, selMin)
    {
      if |find| != selMax - selMin {
        return false;
      }
      var selected := text[selMin..selMax];
      same := SameText(selected, find, matchCase);
      AgreeAt(text, find, matchCase, selMin, |find|);
      assert forall k :: 0 <= k < |find| ==> selected[k] == text[selMin + k];
    }

    /** EM_REPLACESEL. */
    method ReplaceSel(repl: seq<char>)
      requires Valid()
      modifies this`text, this`selMin, this`selMax
      ensures Valid() && text == Spliced(old(text), old(selMin), old(selMax), repl)
      ensures selMin == selMax == old(selMin) + |repl|
    {
      text := text[..selMin] + repl + text[selMax..];
      selMin := selMin + |repl|;
      selMax := selMin;
    }

    method FindTextSimple(find: seq<char>, matchCase: bool, down: bool) returns (found: bool)
      requires Valid() && |find| > 0
      modifies this`selMin, this`selMax, this`firstSearch, this`initialSearchPos
      ensures Valid() && !firstSearch
      ensures var pos := if !old(firstSearch) then old(initialSearchPos) else if down then old(selMin) else old(selMax);
              Landed(Search(text, Start(old(selMin), old(selMax), down), pos, find, matchCase, down),
                     initialSearchPos, found, selMin, selMax, old(selMin), old(selMax), |find|)
      ensures Searched(text, if down && old(selMin) < old(selMax) then old(selMin) + 1 else old(selMin),
                       if !old(firstSearch) then old(initialSearchPos) else if down then old(selMin) else old(selMax),
                       find, matchCase, down, found, if found then selMin else 0, initialSearchPos)
      ensures old(firstSearch) && !down ==>
                (found <==> old(selMax) > 0 && exists i: nat :: MatchAt(text, find, matchCase, i)
                                                                && (i + |find| <= old(selMin) || old(selMax) <= i))
      ensures found ==> selMax == selMin + |find|
    {
      SearchIsRight(text, Start(selMin, selMax, down), if !firstSearch then initialSearchPos else if down then selMin else selMax,
                    find, matchCase, down);
      UpwardFindsIff(text, selMin, selMax, find, matchCase);
      if firstSearch {
        initialSearchPos := if down then selMin else selMax;
        firstSearch := false;
      }
      var cpMin := selMin;
      if cpMin != selMax {
        cpMin := if down then cpMin + 1 else if cpMin > 0 then cpMin else 0;
      }
      found := SearchFrom(cpMin, find, matchCase, down);
    }

    /** The search from `cpMin`, wrapping if it began inside the text and has not come back to its start yet. */
    method SearchFrom(cpMin: nat, find: seq<char>, matchCase: bool, down: bool) returns (found: bool)
      requires Valid() && |find| > 0
      modifies this`selMin, this`selMax, this`initialSearchPos
      ensures Valid()
      ensures Landed(Search(text, cpMin, old(initialSearchPos), find, matchCase, down),
                     initialSearchPos, found, selMin, selMax, old(selMin), old(selMax), |find|)
    {
      ghost var landing := Search(text, cpMin, initialSearchPos, find, matchCase, down);
      var cpMax := |text| + initialSearchPos;
      if initialSearchPos >= 0 {
        cpMax := if down then |text| else 0;
      }
      var at := FindText(text, find, matchCase, cpMin, cpMax, down);
      if at.None? && initialSearchPos > 0 {
        at := FindText(text, find, matchCase, if down then 0 else |text|, initialSearchPos, down);
        initialSearchPos := initialSearchPos - |text|;
      }
      assert landing == Landing(initialSearchPos, at);
      found := at.Some?;
      if found {
        selMin, selMax := at.value, at.value + |find|;
      }
    }

    method TextNotFound()
      modifies this`firstSearch, this`notFoundMessages
      ensures firstSearch && notFoundMessages == old(notFoundMessages) + 1
    {
      firstSearch := true;
      notFoundMessages := notFoundMessages + 1;
    }

    /** The downward search of replace-all. */
    method FindNext(find: seq<char>, matchCase: bool) returns (found: bool, ghost landing: Landing)
      requires Valid() && |find| > 0
      modifies this`selMin, this`selMax, this`firstSearch, this`initialSearchPos
      ensures Valid() && !firstSearch && initialSearchPos == landing.pos
      ensures landing == Search(text, Start(old(selMin), old(selMax), true), if old(firstSearch) then old(selMin) else old(initialSearchPos),
                                find, matchCase, true)
      ensures landing.at == if found then Some(selMin) else None
      ensures selMax == (if found then selMin + |find| else old(selMax)) && (!found ==> selMin == old(selMin))
    {
      landing := Search(text, Start(selMin, selMax, true), if firstSearch then selMin else initialSearchPos, find, matchCase, true);
      found := FindTextSimple(find, matchCase, true);
    }

    /** The body and test of the replace loop: what is to become of the text stays the same, with one replacement done. */
    method ReplaceAndFindNext(find: seq<char>, repl: seq<char>, matchCase: bool) returns (found: bool)
      requires Valid() && |find| > 0 && selMax == selMin + |find|
      modifies this`text, this`selMin, this`selMax, this`firstSearch, this`initialSearchPos
      ensures Valid() && !firstSearch && selMax == if found then selMin + |find| else selMin
      ensures HitOutcome(old(text), old(selMin), old(firstSearch), old(initialSearchPos), find, repl, matchCase)
              == Plus(AfterSearch(text, if found then Some(selMin) else None, initialSearchPos, find, repl, matchCase), 1)
      ensures old(firstSearch) || Advanced(old(text), old(initialSearchPos), old(selMax), text, initialSearchPos, selMax, found)
    {
      ghost var before, m, first, pos := text, selMin, firstSearch, initialSearchPos;
      ReplaceSel(repl);
      ghost var after, caret := text, selMin;
      ghost var landing;
      found, landing := FindNext(find, matchCase);
      RoundDone(before, m, first, pos, find, repl, matchCase, after, landing,
                HitOutcome(before, m, first, pos, find, repl, matchCase),
                AfterSearch(after, landing.at, landing.pos, find, repl, matchCase));
      if !first { Progress(before, m + |find|, after, caret, pos, find, matchCase, landing); }
    }

    /** The search before the loop, when the selection is not what is looked for. */
    method FindFirst(find: seq<char>, repl: seq<char>, matchCase: bool) returns (found: bool)
      requires Valid() && |find| > 0 && !(selMax - selMin == |find| && MatchAt(text, find, matchCase, selMin))
      modifies this`selMin, this`selMax, this`firstSearch, this`initialSearchPos
      ensures Valid() && !firstSearch
      ensures if found then selMax == selMin + |find| else selMin == old(selMin) && selMax == old(selMax)
      ensures StateOutcome(text, old(selMin), old(selMax), old(firstSearch), old(initialSearchPos), find, repl, matchCase)
              == AfterSearch(text, if found then Some(selMin) else None, initialSearchPos, find, repl, matchCase)
    {
      ghost var start, pos := Start(selMin, selMax, true), if firstSearch then selMin else initialSearchPos;
      ghost var landing;
      found, landing := FindNext(find, matchCase);
      SearchStep(text, start, pos, find, repl, matchCase, landing, Outcome(text, start, pos, find, repl, matchCase),
                 AfterSearch(text, landing.at, landing.pos, find, repl, matchCase));
    }

    /** Replaces all matches, and ends in every state. What becomes of the text is StateOutcome, whether this search
        or an earlier one set the starting point. */
    method OnReplaceAll(find: seq<char>, repl: seq<char>, matchCase: bool) returns (replaceCount: nat)
      requires Valid() && |find| > 0
      modifies this
      ensures Valid()
      ensures if replaceCount == 0 then text == old(text) && firstSearch && selMin == old(selMin) && selMax == old(selMax)
              else !firstSearch && selMin == selMax
      ensures notFoundMessages == old(notFoundMessages) + if replaceCount == 0 then 1 else 0
      ensures Pass(text, replaceCount)
              == StateOutcome(old(text), old(selMin), old(selMax), old(firstSearch), old(initialSearchPos), find, repl, matchCase)
    {
      var same := SameAsSelected(find, matchCase);
      if !same {
        var found := FindFirst(find, repl, matchCase);
        if !found {
          TextNotFound();
          return 0;
        }
      }
      replaceCount := ReplaceLoop(find, repl, matchCase);
    }

    /** The replace loop, entered with a match selected. */
    method ReplaceLoop(find: seq<char>, repl: seq<char>, matchCase: bool) returns (replaceCount: nat)
      requires Valid() && |find| > 0 && selMax == selMin + |find|
      modifies this`text, this`selMin, this`selMax, this`firstSearch, this`initialSearchPos
      ensures Valid() && replaceCount > 0 && !firstSearch && selMin == selMax
      ensures Pass(text, replaceCount) == HitOutcome(old(text), old(selMin), old(firstSearch), old(initialSearchPos), find, repl, matchCase)
    {
      ghost var goal := HitOutcome(text, selMin, firstSearch, initialSearchPos, find, repl, matchCase);
      replaceCount := 0;
      var found := true;
      while found
        invariant Valid() && selMax == if found then selMin + |find| else selMin
        invariant found ==> goal == Plus(HitOutcome(text, selMin, firstSearch, initialSearchPos, find, repl, matchCase), replaceCount)
        invariant !found ==> goal == Pass(text, replaceCount) && replaceCount > 0 && !firstSearch
        decreases firstSearch, Clamp(initialSearchPos), Clamp(Limit(text, initialSearchPos, true) - selMax), found
      {
        found := ReplaceAndFindNext(find, repl, matchCase);
        replaceCount := replaceCount + 1;
      }
    }
  }

  /** The measure of the replace loop went down. */
  ghost predicate Advanced(text: seq<char>, pos: int, selMax: nat, text': seq<char>, pos': int, selMax': nat, found: bool) {
    var left, left' := Clamp(Limit(text, pos, true) - selMax), Clamp(Limit(text', pos', true) - selMax');
    Clamp(pos') < Clamp(pos) || (Clamp(pos') == Clamp(pos) && (left' < left || (left' == left && !found)))
  }

  ghost function Clamp(n: int): nat { if n > 0 then n else 0 }

  function Plus(p: Pass, n: nat): Pass { Pass(p.text, p.count + n) }

  // ---------- what becomes of the text ----------

  /** The text with the range `lo..hi` rewritten by one left-to-right pass. */
  ghost function Rewrite(text: seq<char>, find: seq<char>, repl: seq<char>, matchCase: bool, lo: nat, hi: nat): Pass
    requires |find| > 0 && lo <= hi <= |text|
  {
    var pass := ReplaceAll(text, find, repl, matchCase, lo, hi);
    Pass(text[..lo] + pass.text + text[hi..], pass.count)
  }

  /** Searching and replacing from a caret: while the starting point `pos` is positive, the rest of the text is
      rewritten and the search wraps; afterwards the text up to the starting point is, `pos` from the end. */
  ghost function Outcome(text: seq<char>, caret: nat, pos: int, find: seq<char>, repl: seq<char>, matchCase: bool): Pass
    requires |find| > 0 && caret <= |text|
    decreases Clamp(pos)
  {
    if pos > 0 then
      var first := Rewrite(text, find, repl, matchCase, caret, |text|);
      if first.text == [] then first else Plus(Outcome(first.text, 0, pos - |first.text|, find, repl, matchCase), first.count)
    else if caret <= Limit(text, pos, true) then Rewrite(text, find, repl, matchCase, caret, Limit(text, pos, true))
    else Pass(text, 0)
  }

  /** Replacing the match at `m` and going on behind it; the first search of all starts there. */
  ghost function HitOutcome(text: seq<char>, m: nat, first: bool, pos: int, find: seq<char>, repl: seq<char>, matchCase: bool): Pass
    requires |find| > 0 && m + |find| <= |text|
  {
    var caret := m + |repl|;
    Plus(Outcome(Spliced(text, m, m + |find|, repl), caret, if first then caret else pos, find, repl, matchCase), 1)
  }

  ghost function AfterSearch(text: seq<char>, at: Option<nat>, pos: int, find: seq<char>, repl: seq<char>, matchCase: bool): Pass
    requires |find| > 0 && (at.Some? ==> at.value + |find| <= |text|)
  {
    if at.Some? then HitOutcome(text, at.value, false, pos, find, repl, matchCase) else Pass(text, 0)
  }

  /** Replace-all with the selection `selMin..selMax`: a match selected is replaced first. */
  ghost function StateOutcome(text: seq<char>, selMin: nat, selMax: nat, first: bool, pos: int,
                              find: seq<char>, repl: seq<char>, matchCase: bool): Pass
    requires |find| > 0 && selMin <= selMax <= |text|
  {
    if selMax - selMin == |find| && MatchAt(text, find, matchCase, selMin) then
      HitOutcome(text, selMin, first, pos, find, repl, matchCase)
    else
      Outcome(text, Start(selMin, selMax, true), if first then selMin else pos, find, repl, matchCase)
  }

  // ---------- the search keeps it ----------

  /** A search, wrapping or not, leaves what becomes of the text as it was: one replacement at the match it lands on,
      and on from there. When it finds nothing, nothing becomes of the text. */
  lemma SearchStep(text: seq<char>, start: nat, pos: int, find: seq<char>, repl: seq<char>, matchCase: bool, landing: Landing,
                   all: Pass, after: Pass)
    requires |find| > 0 && start <= |text| && landing == Search(text, start, pos, find, matchCase, true)
    requires all == Outcome(text, start, pos, find, repl, matchCase)
    requires after == AfterSearch(text, landing.at, landing.pos, find, repl, matchCase)
    ensures all == after
  {
    var first := FindDown(text, find, matchCase, start, Limit(text, pos, true));
    if first.Some? {
      Hit(text, start, pos, find, repl, matchCase, first.value);
    } else if pos <= 0 {
      if start <= Limit(text, pos, true) { RewriteNothing(text, find, repl, matchCase, start, Limit(text, pos, true)); }
    } else {
      RewriteNothing(text, find, repl, matchCase, start, |text|);
      OutcomeFrom(text, start, pos, find, repl, matchCase, Pass(text, 0), all);
      WrappedStep(text, pos, find, repl, matchCase, FindDown(text, find, matchCase, 0, pos),
                  if text == [] then Pass(text, 0) else Outcome(text, 0, pos - |text|, find, repl, matchCase));
    }
  }

  /** The second search, from the start of the text. */
  lemma WrappedStep(text: seq<char>, pos: nat, find: seq<char>, repl: seq<char>, matchCase: bool, at: Option<nat>, rest: Pass)
    requires |find| > 0 && pos > 0 && at == FindDown(text, find, matchCase, 0, pos)
    requires rest == if text == [] then Pass(text, 0) else Outcome(text, 0, pos - |text|, find, repl, matchCase)
    ensures rest == AfterSearch(text, at, pos - |text|, find, repl, matchCase)
  {
    if pos > |text| { FirstMatchClip(text, find, matchCase, 0, pos); }
    if at.Some? {
      Hit(text, 0, pos - |text|, find, repl, matchCase, at.value);
    } else if pos <= |text| {
      RewriteNothing(text, find, repl, matchCase, 0, pos);
    } else {
      NothingAnywhere(text, pos - |text|, find, repl, matchCase);
    }
  }

  /** No match reaches beyond the text. */
  lemma {:induction false} FirstMatchClip(text: seq<char>, find: seq<char>, matchCase: bool, lo: nat, hi: nat)
    requires |find| > 0 && hi >= |text|
    ensures FirstMatch(text, find, matchCase, lo, hi) == FirstMatch(text, find, matchCase, lo, |text|)
    decreases hi - lo
  {
    if lo + |find| <= hi { FirstMatchClip(text, find, matchCase, lo + 1, hi); }
  }

  lemma RewriteNothing(text: seq<char>, find: seq<char>, repl: seq<char>, matchCase: bool, lo: nat, hi: nat)
    requires |find| > 0 && lo <= hi <= |text| && FirstMatch(text, find, matchCase, lo, hi).None?
    ensures Rewrite(text, find, repl, matchCase, lo, hi) == Pass(text, 0)
  {
    ReplaceNothing(text, find, repl, matchCase, lo, hi);
    Join3(text, lo, hi);
  }

  lemma Join3(text: seq<char>, lo: nat, hi: nat)
    requires lo <= hi <= |text|
    ensures text[..lo] + text[lo..hi] + text[hi..] == text
  {
  }

  lemma {:induction false} NothingAnywhere(text: seq<char>, pos: int, find: seq<char>, repl: seq<char>, matchCase: bool)
    requires |find| > 0 && FirstMatch(text, find, matchCase, 0, |text|).None? && pos > 0
    ensures Outcome(text, 0, pos, find, repl, matchCase) == Pass(text, 0)
    decreases pos
  {
    RewriteNothing(text, find, repl, matchCase, 0, |text|);
    if text != [] && pos > |text| {
      NothingAnywhere(text, pos - |text|, find, repl, matchCase);
    } else if text != [] {
      NothingBelow(text, find, matchCase, 0, pos);
      RewriteNothing(text, find, repl, matchCase, 0, pos);
    }
  }

  lemma {:induction false} NothingBelow(text: seq<char>, find: seq<char>, matchCase: bool, lo: nat, hi: nat)
    requires |find| > 0 && hi <= |text| && FirstMatch(text, find, matchCase, lo, |text|).None?
    ensures FirstMatch(text, find, matchCase, lo, hi).None?
    decreases hi - lo
  {
    if lo + |find| <= hi { NothingBelow(text, find, matchCase, lo + 1, hi); }
  }

  /** A match found without wrapping. */
  lemma Hit(text: seq<char>, start: nat, pos: int, find: seq<char>, repl: seq<char>, matchCase: bool, m: nat)
    requires |find| > 0 && start <= |text|
    requires FindDown(text, find, matchCase, start, Limit(text, pos, true)) == Some(m)
    ensures Outcome(text, start, pos, find, repl, matchCase) == HitOutcome(text, m, false, pos, find, repl, matchCase)
  {
    var text' := Spliced(text, m, m + |find|, repl);
    var caret, hi, hi' := m + |repl|, Limit(text, pos, true), Limit(text', pos, true);
    HitFirst(text, find, repl, matchCase, start, hi, m, text', hi');
    Onwards(text, start, text', caret, pos, find, repl, matchCase, Rewrite(text, find, repl, matchCase, start, hi),
            Rewrite(text', find, repl, matchCase, caret, hi'), Outcome(text, start, pos, find, repl, matchCase),
            Outcome(text', caret, pos, find, repl, matchCase));
  }

  lemma HitFirst(text: seq<char>, find: seq<char>, repl: seq<char>, matchCase: bool, from: nat, hi: nat, m: nat,
                 text': seq<char>, hi': nat)
    requires |find| > 0 && from <= hi <= |text| && FirstMatch(text, find, matchCase, from, hi) == Some(m)
    requires m + |find| <= hi && text' == Spliced(text, m, m + |find|, repl) && hi' - |text'| == hi - |text|
    ensures Rewrite(text, find, repl, matchCase, from, hi) == Plus(Rewrite(text', find, repl, matchCase, m + |repl|, hi'), 1)
  {
    HitInRange(text, find, repl, matchCase, from, hi, m, text', hi', ReplaceAll(text, find, repl, matchCase, from, hi),
               ReplaceAll(text', find, repl, matchCase, m + |repl|, hi'));
  }

  /** If the parts rewritten first come out the same, but for one replacement, so does everything. */
  lemma Onwards(text: seq<char>, start: nat, text': seq<char>, caret: nat, pos: int, find: seq<char>, repl: seq<char>, matchCase: bool,
                first: Pass, first': Pass, all: Pass, rest: Pass)
    requires |find| > 0 && start <= |text| && start <= Limit(text, pos, true) && caret <= |text'| && caret <= Limit(text', pos, true)
    requires first == Rewrite(text, find, repl, matchCase, start, Limit(text, pos, true))
    requires first' == Rewrite(text', find, repl, matchCase, caret, Limit(text', pos, true))
    requires first.text == first'.text && first.count == first'.count + 1
    requires all == Outcome(text, start, pos, find, repl, matchCase)
    requires rest == Outcome(text', caret, pos, find, repl, matchCase)
    ensures all == Plus(rest, 1)
  {
    OutcomeFrom(text, start, pos, find, repl, matchCase, first, all);
    OutcomeFrom(text', caret, pos, find, repl, matchCase, first', rest);
  }

  /** The outcome begins with the part rewritten first. */
  lemma OutcomeFrom(text: seq<char>, caret: nat, pos: int, find: seq<char>, repl: seq<char>, matchCase: bool, first: Pass, all: Pass)
    requires |find| > 0 && caret <= |text| && caret <= Limit(text, pos, true)
    requires first == Rewrite(text, find, repl, matchCase, caret, Limit(text, pos, true))
    requires all == Outcome(text, caret, pos, find, repl, matchCase)
    ensures all == if pos <= 0 || first.text == [] then first
                   else Plus(Outcome(first.text, 0, pos - |first.text|, find, repl, matchCase), first.count)
  {
  }

  /** Replacing the first match of a range and rewriting what is behind it rewrites the range. */
  lemma HitInRange(text: seq<char>, find: seq<char>, repl: seq<char>, matchCase: bool, from: nat, hi: nat, m: nat,
                   text': seq<char>, hi': nat, all: Pass, next: Pass)
    requires |find| > 0 && from <= hi <= |text| && FirstMatch(text, find, matchCase, from, hi) == Some(m)
    requires m + |find| <= hi && text' == Spliced(text, m, m + |find|, repl) && hi' - |text'| == hi - |text|
    requires all == ReplaceAll(text, find, repl, matchCase, from, hi)
    requires next == ReplaceAll(text', find, repl, matchCase, m + |repl|, hi')
    ensures text[..from] + all.text + text[hi..] == text'[..m + |repl|] + next.text + text'[hi'..] && all.count == 1 + next.count
  {
    TailMoved(text, m, m + |find|, text', hi, hi', find, repl, matchCase, next);
    ReplaceRound(text, find, repl, matchCase, from, hi, m, next, all);
    Splice(text, from, m, m + |find|, repl, next.text, hi, text', hi');
  }

  /** What stands behind a replacement is what stood behind the match. */
  lemma SameTail(text: seq<char>, m: nat, e: nat, repl: seq<char>, text': seq<char>, hi: nat, hi': nat)
    requires m <= e <= hi <= |text| && text' == Spliced(text, m, e, repl) && hi' - |text'| == hi - |text|
    ensures text[e..hi] == text'[m + |repl|..hi'] && text[hi..] == text'[hi'..]
    ensures text'[..m + |repl|] == text[..m] + repl
  {
    var d := m + |repl| - e;
    assert forall k :: e <= k < |text| ==> text'[k + d] == text[k];
    assert forall k :: 0 <= k < hi - e ==> text[e..hi][k] == text[e + k] && text'[m + |repl|..hi'][k] == text'[e + k + d];
    assert forall k :: 0 <= k < |text| - hi ==> text[hi..][k] == text[hi + k] && text'[hi'..][k] == text'[hi + k + d];
  }

  lemma TailMoved(text: seq<char>, m: nat, e: nat, text': seq<char>, hi: nat, hi': nat,
                  find: seq<char>, repl: seq<char>, matchCase: bool, next: Pass)
    requires |find| > 0 && m <= e <= hi <= |text| && text' == Spliced(text, m, e, repl) && hi' - |text'| == hi - |text|
    requires next == ReplaceAll(text', find, repl, matchCase, m + |repl|, hi')
    ensures next == ReplaceAll(text, find, repl, matchCase, e, hi)
  {
    SameTail(text, m, e, repl, text', hi, hi');
    RangeMoved(text, e, hi, text', m + |repl|, hi', find, repl, matchCase, next);
  }

  lemma RangeMoved(text: seq<char>, e: nat, hi: nat, text': seq<char>, caret: nat, hi': nat,
                   find: seq<char>, repl: seq<char>, matchCase: bool, next: Pass)
    requires |find| > 0 && e <= hi <= |text| && caret <= hi' <= |text'|
    requires text[e..hi] == text'[caret..hi']
    requires next == ReplaceAll(text', find, repl, matchCase, caret, hi')
    ensures next == ReplaceAll(text, find, repl, matchCase, e, hi)
  {
    assert |text[e..hi]| == hi - e && |text'[caret..hi']| == hi' - caret;
    SameCharsAt(text, e, text', caret, hi - e);
    assert e + (hi - e) == hi && caret + (hi - e) == hi';
    ReplaceAllShift(text, e, hi, text', caret, hi', find, repl, matchCase, ReplaceAll(text, find, repl, matchCase, e, hi), next);
  }

  lemma Splice(text: seq<char>, from: nat, m: nat, e: nat, repl: seq<char>, next: seq<char>, hi: nat, text': seq<char>, hi': nat)
    requires from <= m <= e <= hi <= |text| && text' == Spliced(text, m, e, repl) && hi' - |text'| == hi - |text|
    ensures text[..from] + (text[from..m] + repl + next) + text[hi..] == text'[..m + |repl|] + next + text'[hi'..]
  {
    SameTail(text, m, e, repl, text', hi, hi');
    SplitSlice(text, 0, from, m);
    Regroup(text[..from], text[from..m], repl, next, text[hi..]);
  }

  lemma Regroup(a: seq<char>, b: seq<char>, c: seq<char>, d: seq<char>, e: seq<char>)
    ensures a + (b + c + d) + e == ((a + b) + c) + d + e
  {
  }

  /** Whatever the state, a round either wraps, which lowers a positive starting point, or brings the selection
      closer to the limit of the search, or is the last one. */
  lemma Progress(text: seq<char>, e: nat, text': seq<char>, caret: nat, pos: int, find: seq<char>, matchCase: bool, landing: Landing)
    requires |find| > 0 && e <= |text| && caret <= |text'| && |text'| - caret == |text| - e
    requires landing == Search(text', caret, pos, find, matchCase, true)
    ensures Advanced(text, pos, e, text', landing.pos, if landing.at.Some? then landing.at.value + |find| else caret, landing.at.Some?)
  {
    assert Limit(text', pos, true) - caret == Limit(text, pos, true) - e;
  }

  /** A round of the replace loop, seen from the text before and after the replacement at `m`. */
  lemma RoundDone(text: seq<char>, m: nat, first: bool, pos: int, find: seq<char>, repl: seq<char>, matchCase: bool,
                  text': seq<char>, landing: Landing, all: Pass, rest: Pass)
    requires |find| > 0 && m + |find| <= |text| && text' == Spliced(text, m, m + |find|, repl)
    requires landing == Search(text', m + |repl|, if first then m + |repl| else pos, find, matchCase, true)
    requires all == HitOutcome(text, m, first, pos, find, repl, matchCase)
    requires rest == AfterSearch(text', landing.at, landing.pos, find, repl, matchCase)
    ensures all == Plus(rest, 1)
  {
    var caret := m + |repl|;
    SearchStep(text', caret, if first then caret else pos, find, repl, matchCase, landing,
               Outcome(text', caret, if first then caret else pos, find, repl, matchCase), rest);
  }

  // ---------- as long as the caret is not before the starting point ----------

  /** The caret has not passed the image of the starting point. */
  predicate OnTrack(text: seq<char>, caret: nat, pos: int) {
    caret <= |text| && if pos > 0 then pos <= caret else caret <= |text| + pos
  }

  /** One pass over each part of the text as it is: from the caret to the end and from the start to `pos`, or from
      the caret to `pos` from the end. What lies between starting point and caret stays. */
  ghost function OnePass(text: seq<char>, caret: nat, pos: int, find: seq<char>, repl: seq<char>, matchCase: bool): Pass
    requires |find| > 0 && OnTrack(text, caret, pos)
  {
    if pos > 0 then
      var before := ReplaceAll(text, find, repl, matchCase, 0, pos);
      var after := ReplaceAll(text, find, repl, matchCase, caret, |text|);
      Pass(before.text + text[pos..caret] + after.text, before.count + after.count)
    else
      Rewrite(text, find, repl, matchCase, caret, |text| + pos)
  }

  /** However the first pass changes the length of the text, the second one ends where the search began. */
  lemma OutcomeIsOnePass(text: seq<char>, caret: nat, pos: int, find: seq<char>, repl: seq<char>, matchCase: bool)
    requires |find| > 0 && OnTrack(text, caret, pos)
    ensures Outcome(text, caret, pos, find, repl, matchCase) == OnePass(text, caret, pos, find, repl, matchCase)
  {
    if pos > 0 {
      var after := ReplaceAll(text, find, repl, matchCase, caret, |text|);
      var first := Pass(text[..caret] + after.text + text[|text|..], after.count);
      BehindCaret(text, caret, pos, after.text, first.text);
      var before := ReplaceAll(first.text, find, repl, matchCase, 0, pos);
      RangeMoved(text, 0, pos, first.text, 0, pos, find, repl, matchCase, before);
      BothPasses(text, caret, pos, find, repl, matchCase, first, before, Outcome(text, caret, pos, find, repl, matchCase));
      assert before.text + (text[pos..caret] + after.text) == before.text + text[pos..caret] + after.text;
    }
  }

  lemma BothPasses(text: seq<char>, caret: nat, pos: nat, find: seq<char>, repl: seq<char>, matchCase: bool,
                   first: Pass, before: Pass, all: Pass)
    requires |find| > 0 && 0 < pos <= caret <= |text| && first == Rewrite(text, find, repl, matchCase, caret, |text|)
    requires pos <= |first.text| && before == ReplaceAll(first.text, find, repl, matchCase, 0, pos)
    requires all == Outcome(text, caret, pos, find, repl, matchCase)
    ensures all == Pass(before.text + first.text[pos..], before.count + first.count)
  {
    OutcomeFrom(text, caret, pos, find, repl, matchCase, first, all);
    SecondPass(first.text, pos, find, repl, matchCase, before, Outcome(first.text, 0, pos - |first.text|, find, repl, matchCase));
  }

  lemma SecondPass(text: seq<char>, pos: nat, find: seq<char>, repl: seq<char>, matchCase: bool, before: Pass, all: Pass)
    requires |find| > 0 && 0 < pos <= |text| && before == ReplaceAll(text, find, repl, matchCase, 0, pos)
    requires all == Outcome(text, 0, pos - |text|, find, repl, matchCase)
    ensures all == Pass(before.text + text[pos..], before.count)
  {
    var second := Pass(text[..0] + before.text + text[pos..], before.count);
    assert second.text == before.text + text[pos..];
    OutcomeFrom(text, 0, pos - |text|, find, repl, matchCase, second, all);
  }

  lemma BehindCaret(text: seq<char>, caret: nat, pos: nat, after: seq<char>, first: seq<char>)
    requires 0 < pos <= caret <= |text| && first == text[..caret] + after + text[|text|..]
    ensures pos <= |first| && text[0..pos] == first[0..pos] && first[pos..] == text[pos..caret] + after
  {
  }

  /** Replace-all from a fresh search with the selection `selMin..selMax`. The text before and the text from the
      starting point on are each rewritten by one left-to-right pass; matches that straddle the starting point stay. */
  ghost function FreshOutcome(text: seq<char>, selMin: nat, selMax: nat,
                              find: seq<char>, repl: seq<char>, matchCase: bool): Pass
    requires |find| > 0 && selMin <= selMax <= |text|
  {
    if selMax - selMin == |find| && MatchAt(text, find, matchCase, selMin) then
      var caret := selMin + |repl|;
      Plus(OnePass(Spliced(text, selMin, selMax, repl), caret, caret, find, repl, matchCase), 1)
    else OnePass(text, Start(selMin, selMax, true), selMin, find, repl, matchCase)
  }

  lemma FreshIsOnePass(text: seq<char>, selMin: nat, selMax: nat, pos: int, find: seq<char>, repl: seq<char>, matchCase: bool)
    requires |find| > 0 && selMin <= selMax <= |text|
    ensures StateOutcome(text, selMin, selMax, true, pos, find, repl, matchCase)
            == FreshOutcome(text, selMin, selMax, find, repl, matchCase)
  {
    if selMax - selMin == |find| && MatchAt(text, find, matchCase, selMin) {
      var caret := selMin + |repl|;
      OutcomeIsOnePass(Spliced(text, selMin, selMax, repl), caret, caret, find, repl, matchCase);
    } else {
      OutcomeIsOnePass(text, Start(selMin, selMax, true), selMin, find, repl, matchCase);
    }
  }

  /** Replace-all while an earlier search is under way, with a bare caret or a match selected that the search has not
      passed: only what that search has still to cover is rewritten. */
  lemma ResumedIsOnePass(text: seq<char>, selMin: nat, selMax: nat, pos: int, find: seq<char>, repl: seq<char>, matchCase: bool)
    requires |find| > 0 && selMin <= selMax <= |text| && OnTrack(text, selMin, pos)
    requires selMin == selMax
             || (selMax - selMin == |find| && MatchAt(text, find, matchCase, selMin) && selMax <= Limit(text, pos, true))
    ensures StateOutcome(text, selMin, selMax, false, pos, find, repl, matchCase)
            == OnePass(text, selMin, pos, find, repl, matchCase)
  {
    OutcomeIsOnePass(text, selMin, pos, find, repl, matchCase);
    if selMin != selMax {
      assert FindDown(text, find, matchCase, selMin, Limit(text, pos, true)) == Some(selMin);
      Hit(text, selMin, pos, find, repl, matchCase, selMin);
    }
  }

  // ---------- where a fresh search lands ----------

  /** The match at `i` lies in the part searched first or, unless the search began at the very start, in the part
      searched after wrapping. */
  predicate Reachable(i: nat, n: nat, start: nat, pos: nat, down: bool) {
    if down then start <= i || i + n <= pos else i + n <= start || (pos > 0 && pos <= i)
  }

  /** The match at `i` is met no later than the one at `j`. */
  predicate MetFirst(i: nat, j: nat, n: nat, start: nat, down: bool) {
    if down then (if start <= j then start <= i <= j else start <= i || i <= j)
    else if j + n <= start then j <= i && i + n <= start
    else i + n <= start || j <= i
  }

  /** A fresh search lands on the reachable match that is met first, and on none exactly when there is none. */
  lemma FreshSearchLands(text: seq<char>, start: nat, pos: nat, find: seq<char>, matchCase: bool, down: bool)
    requires |find| > 0 && start <= |text| && pos <= |text| && (if down then pos <= start else start <= pos)
    ensures var at := Search(text, start, pos, find, matchCase, down).at;
            && (at.Some? ==> MatchAt(text, find, matchCase, at.value) && Reachable(at.value, |find|, start, pos, down))
            && forall i: nat :: MatchAt(text, find, matchCase, i) && Reachable(i, |find|, start, pos, down) ==>
                 at.Some? && MetFirst(at.value, i, |find|, start, down)
  {
    if down {
      FirstMatchIsFirst(text, find, matchCase, start, |text|);
      FirstMatchIsFirst(text, find, matchCase, 0, pos);
    } else {
      if |find| <= start { LastMatchIsLast(text, find, matchCase, start - |find|); }
      if |find| <= |text| { LastMatchIsLast(text, find, matchCase, |text| - |find|); }
    }
  }

  /** An upward search that begins at the very start of the text does not wrap: it misses every match there is. From
      anywhere else it finds something exactly when a match lies wholly before the selection or wholly behind it. */
  lemma UpwardFindsIff(text: seq<char>, selMin: nat, selMax: nat, find: seq<char>, matchCase: bool)
    requires |find| > 0 && selMin <= selMax <= |text|
    ensures Search(text, selMin, selMax, find, matchCase, false).at.Some?
            <==> selMax > 0 && exists i: nat :: MatchAt(text, find, matchCase, i) && (i + |find| <= selMin || selMax <= i)
  {
    FreshSearchLands(text, selMin, selMax, find, matchCase, false);
  }

  lemma UpwardFromStartMisses()
    ensures MatchAt("ab", "b", true, 1) && Search("ab", 0, 0, "b", true, false).at.None?
  {
    AgreeAt("ab", "b", true, 1, 1);
    UpwardFindsIff("ab", 0, 0, "b", true);
  }

  /** A selection of other text is left behind by a downward search: it lands where it would from a bare caret there
      exactly when no match begins at the selection start. */
  lemma SelectionStartIff(text: seq<char>, selMin: nat, selMax: nat, find: seq<char>, matchCase: bool)
    requires |find| > 0 && selMin < selMax <= |text|
    requires !(selMax - selMin == |find| && MatchAt(text, find, matchCase, selMin))
    ensures Search(text, selMin + 1, selMin, find, matchCase, true).at == Search(text, selMin, selMin, find, matchCase, true).at
            <==> !MatchAt(text, find, matchCase, selMin)
  {
    if MatchAt(text, find, matchCase, selMin) {
      assert Search(text, selMin, selMin, find, matchCase, true).at == Some(selMin);
    }
  }

  /** A selection of other text counts as a bare caret at its start, as long as no match begins there. */
  lemma SelectionActsAsCaret(text: seq<char>, selMin: nat, selMax: nat, find: seq<char>, repl: seq<char>, matchCase: bool)
    requires |find| > 0 && selMin < selMax <= |text| && !MatchAt(text, find, matchCase, selMin)
    ensures FreshOutcome(text, selMin, selMax, find, repl, matchCase) == FreshOutcome(text, selMin, selMin, find, repl, matchCase)
  {
    var later := ReplaceAll(text, find, repl, matchCase, selMin + 1, |text|).text;
    StepOverMiss(text, find, repl, matchCase, selMin, |text|);
    if selMin > 0 {
      SkipOne(ReplaceAll(text, find, repl, matchCase, 0, selMin).text, text, selMin, later);
    } else {
      assert text[..0] + ([text[0]] + later) + text[|text|..] == text[..1] + later + text[|text|..];
    }
  }

  lemma StepOverMiss(text: seq<char>, find: seq<char>, repl: seq<char>, matchCase: bool, lo: nat, hi: nat)
    requires |find| > 0 && lo < hi <= |text| && !MatchAt(text, find, matchCase, lo)
    ensures var later := ReplaceAll(text, find, repl, matchCase, lo + 1, hi);
            ReplaceAll(text, find, repl, matchCase, lo, hi) == Pass([text[lo]] + later.text, later.count)
  {
    assert text[lo..hi] == [text[lo]] + text[lo + 1..hi];
  }

  lemma SkipOne(before: seq<char>, text: seq<char>, n: nat, later: seq<char>)
    requires n < |text|
    ensures before + text[n..n] + ([text[n]] + later) == before + text[n..n + 1] + later
  {
    assert text[n..n + 1] == [text[n]];
  }

  /** Otherwise the match that begins at the selection start is missed, although nothing was replaced before it. */
  lemma MatchAtSelectionStartMissed()
    ensures MatchAt("ab", "ab", true, 0)
    ensures FreshOutcome("ab", 0, 1, "ab", "x", true) == Pass("ab", 0)
    ensures FreshOutcome("ab", 0, 0, "ab", "x", true) == Pass("x", 1)
  {
    AgreeAt("ab", "ab", true, 0, 2);
    assert ReplaceAll("ab", "ab", "x", true, 1, 2) == Pass("b", 0);
    assert ReplaceAll("ab", "ab", "x", true, 2, 2) == Pass("", 0);
    assert ReplaceAll("ab", "ab", "x", true, 0, 2) == Pass("x", 1);
  }
}
