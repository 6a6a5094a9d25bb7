/** Find and replace for the Edit control: the search reads the control's own buffer and patches a terminator
    into it behind every candidate before comparing. Single-byte build. */
module EditControl {
  import opened Common
  import opened TextSearch

  const NUL: char := '\0'

  /** No line end in `text[lo..hi]`. */
  predicate OneLine(text: seq<char>, lo: nat, hi: nat)
    requires lo <= hi <= |text|
    decreases hi - lo
  {
    lo == hi || (text[lo] != '\r' && OneLine(text, lo + 1, hi))
  }

  lemma {:induction false} OneLineIs(text: seq<char>, lo: nat, hi: nat)
    requires lo <= hi <= |text|
    ensures OneLine(text, lo, hi) <==> forall k :: lo <= k < hi ==> text[k] != '\r'
    decreases hi - lo
  {
    if lo < hi { OneLineIs(text, lo + 1, hi); }
  }

  /** What SameAsSelected tests: the selection has the length of `find`, holds no line end (GetSelText stops
      there) and equals `find`. */
  predicate SelectionIs(text: seq<char>, selStart: nat, selEnd: nat, find: seq<char>, matchCase: bool)
    requires selStart <= selEnd <= |text|
  {
    && selEnd - selStart == |find|
    && OneLine(text, selStart, selEnd)
    && MatchAt(text, find, matchCase, selStart)
  }

  /** Where a downward search starts: at the selection start, one further when the selection already is the
      text sought. */
  function DownStart(text: seq<char>, selStart: nat, selEnd: nat, find: seq<char>, matchCase: bool): nat
    requires selStart <= selEnd <= |text|
  {
    if SelectionIs(text, selStart, selEnd, find, matchCase) then selStart + 1 else selStart
  }

  /** Comparing what GetSelText returned tests the whole selection: cut off at a line end, it is too short. */
  lemma SelectedText(text: seq<char>, selStart: nat, selEnd: nat, s: seq<char>, find: seq<char>, matchCase: bool)
    requires selStart + |s| <= selEnd <= |text| && |find| == selEnd - selStart
    requires s == text[selStart..selStart + |s|] && OneLine(text, selStart, selStart + |s|)
    requires selStart + |s| < selEnd ==> text[selStart + |s|] == '\r'
    ensures SameText(s, find, matchCase) <==> SelectionIs(text, selStart, selEnd, find, matchCase)
  {
    OneLineIs(text, selStart, selEnd);
    if |s| == |find| {
      AgreeAt(text, find, matchCase, selStart, |find|);
      assert forall k :: 0 <= k < |s| ==> s[k] == text[selStart + k];
      if MatchAt(text, find, matchCase, selStart) {
        assert forall k :: 0 <= k < |s| ==> Fold(text[selStart + k], matchCase) == Fold(find[k], matchCase);
      }
    }
  }

  /** Where a search lands; upward searches start one before the selection start. */
  ghost function FindTarget(text: seq<char>, selStart: nat, selEnd: nat,
                            find: seq<char>, matchCase: bool, down: bool): Option<nat>
    requires |find| > 0 && selStart <= selEnd <= |text|
  {
    if down then
      FirstMatch(text, find, matchCase, DownStart(text, selStart, selEnd, find, matchCase), |text|)
    else if selStart == 0 then None
    else LastMatch(text, find, matchCase, selStart - 1)
  }

  /** An upward search ends on the nearest match that begins before the selection, and fails when there is none. */
  ghost predicate NearestAbove(text: seq<char>, selStart: nat, find: seq<char>, matchCase: bool, found: bool, at: nat) {
    && (found ==> at < selStart && MatchAt(text, find, matchCase, at))
    && forall i: nat :: i < selStart && (found ==> at < i) ==> !MatchAt(text, find, matchCase, i)
  }

  /** A downward search ends on the nearest match that begins at the selection start or behind it, or strictly behind
      it when the selection is a match already and holds no line end. */
  ghost predicate NearestBelow(text: seq<char>, selStart: nat, selEnd: nat, find: seq<char>, matchCase: bool, found: bool, at: nat)
    requires selStart <= selEnd <= |text|
  {
    && (found ==> selStart <= at && MatchAt(text, find, matchCase, at))
    && (forall i: nat :: selStart < i && (found ==> i < at) ==> !MatchAt(text, find, matchCase, i))
    && (MatchAt(text, find, matchCase, selStart) ==>
          (found && at == selStart <==> selEnd - selStart != |find| || exists k :: selStart <= k < selEnd && text[k] == '\r'))
  }

  lemma TargetIsNearest(text: seq<char>, selStart: nat, selEnd: nat, find: seq<char>, matchCase: bool, down: bool, found: bool, at: nat)
    requires |find| > 0 && selStart <= selEnd <= |text|
    requires FindTarget(text, selStart, selEnd, find, matchCase, down) == if found then Some(at) else None
    ensures if down then NearestBelow(text, selStart, selEnd, find, matchCase, found, at)
            else NearestAbove(text, selStart, find, matchCase, found, at)
  {
    if down {
      FirstMatchIsFirst(text, find, matchCase, DownStart(text, selStart, selEnd, find, matchCase), |text|);
      OneLineIs(text, selStart, selEnd);
    } else if selStart > 0 {
      LastMatchIsLast(text, find, matchCase, selStart - 1);
    }
  }

  /** With a bare caret the downward search starts at the caret. */
  lemma CaretTarget(text: seq<char>, caret: nat, find: seq<char>, matchCase: bool)
    requires |find| > 0 && caret <= |text|
    ensures FindTarget(text, caret, caret, find, matchCase, true) == FirstMatch(text, find, matchCase, caret, |text|)
  {
  }

  /** Candidates that do not fit the text cannot match. */
  lemma {:induction false} LastMatchClamp(text: seq<char>, find: seq<char>, matchCase: bool, from: nat, fits: nat)
    requires fits <= from && fits + |find| >= |text|
    ensures LastMatch(text, find, matchCase, from) == LastMatch(text, find, matchCase, fits)
  {
    if fits < from { LastMatchClamp(text, find, matchCase, from - 1, fits); }
  }

  lemma {:induction false} LastMatchTooLong(text: seq<char>, find: seq<char>, matchCase: bool, from: nat)
    requires |find| > |text|
    ensures LastMatch(text, find, matchCase, from).None?
  {
    if from > 0 { LastMatchTooLong(text, find, matchCase, from - 1); }
  }

  class EditFindReplace {
    var buffer: array<char>  // the text, its terminator, and spare room
    ghost var length: nat
    var selStart: nat
    var selEnd: nat
    var firstSearch: bool
    var notFoundMessages: nat  // how often OnTextNotFound was called

    ghost predicate Valid()
      reads this, buffer
    {
      && length < buffer.Length && buffer[length] == NUL
      && (forall k :: 0 <= k < length ==> buffer[k] != NUL)
      && selStart <= selEnd <= length
    }

    ghost function Text(): seq<char>
      requires length <= buffer.Length
      reads this, buffer
    {
      buffer[..length]
    }

    /** lstrlen on the locked buffer. */
    method GetBufferLength() returns (n: nat)
      requires Valid()
      ensures n == length
    {
      n := 0;
      while buffer[n] != NUL
        invariant n <= length
        decreases length - n
      {
        n := n + 1;
      }
    }

    /** lstrcmp/lstrcmpi of the C string at `p` with `find`; `q` is where the C string ends. */
    method CompareAt(p: nat, find: seq<char>, matchCase: bool, ghost q: nat) returns (equal: bool)
      requires p <= q < buffer.Length && buffer[q] == NUL
      requires forall k :: p <= k < q ==> buffer[k] != NUL
      ensures equal <==> q == p + |find| && MatchAt(buffer[..q], find, matchCase, p)
    {
      var k := 0;
      while k < |find| && buffer[p + k] != NUL && Fold(buffer[p + k], matchCase) == Fold(find[k], matchCase)
        invariant k <= |find| && p + k <= q
        invariant forall j :: 0 <= j < k ==> Fold(buffer[..q][p + j], matchCase) == Fold(find[j], matchCase)
      {
        k := k + 1;
      }
      equal := k == |find| && buffer[p + k] == NUL;
      if q == p + |find| { AgreeAt(buffer[..q], find, matchCase, p, |find|); }
      if q == p + |find| && k < |find| {
        assert buffer[..q][p + k] == buffer[p + k];
      }
    }

    method EndOfLine(n: nat, index: nat) returns (eol: nat)
      requires index <= n <= buffer.Length
      ensures index <= eol <= n && (eol < n ==> buffer[eol] == '\r')
      ensures forall k :: index <= k < eol ==> buffer[k] != '\r'
    {
      eol := index;
      while eol < n && buffer[eol] != '\r'
        invariant index <= eol <= n && forall k :: index <= k < eol ==> buffer[k] != '\r'
      {
        eol := eol + 1;
      }
    }

    /** The selected text up to the first line end. */
    method GetSelText() returns (s: seq<char>)
      requires Valid()
      ensures selStart + |s| <= selEnd && s == Text()[selStart..selStart + |s|] && OneLine(Text(), selStart, selStart + |s|)
      ensures selStart + |s| < selEnd ==> Text()[selStart + |s|] == '\r'
    {
      var eol := EndOfLine(selEnd, selStart);
      s := buffer[selStart..eol];
      ghost var text := Text();
      assert |s| == eol - selStart && forall k :: 0 <= k < |s| ==> s[k] == text[selStart..eol][k];
      assert s == text[selStart..eol];
      OneLineIs(text, selStart, eol);
    }

    method SameAsSelected(find: seq<char>, matchCase: bool) returns (same: bool)
      requires Valid()
      ensures same <==> SelectionIs(Text(), selStart, selEnd, find, matchCase)
    {
      if |find| != selEnd - selStart {
        return false;
      }
      var s := GetSelText();
      same := SameText(s, find, matchCase);
      SelectedText(Text(), selStart, selEnd, s, find, matchCase);
    }

    /** Compares the text at `p` with `find` by patching a terminator behind the candidate and restoring the
        character it displaced. The furthest place written is the text's own terminator. */
    method CandidateMatches(p: nat, find: seq<char>, matchCase: bool) returns (equal: bool)
      requires Valid() && p + |find| <= length
      modifies buffer
      ensures Valid() && buffer[..] == old(buffer[..])
      ensures equal <==> MatchAt(Text(), find, matchCase, p)
    {
      ghost var text, all := Text(), buffer[..];
      var q := p + |find|;
      var chSave := buffer[q];
      buffer[q] := NUL;
      equal := CompareAt(p, find, matchCase, q);
      assert buffer[..q] == all[..q] == text[..q];
      MatchBelow(text, find, matchCase, p, q);
      buffer[q] := chSave;
      assert buffer[..] == all;
      assert Text() == all[..length];
    }

    /** The search loop: candidate by candidate from `nStart`, up or down. */
    method Scan(nStart: nat, nLen: nat, find: seq<char>, matchCase: bool, down: bool) returns (found: Option<nat>)
      requires Valid() && |find| > 0 && nLen == length && nStart + |find| <= nLen
      modifies buffer
      ensures Valid() && buffer[..] == old(buffer[..])
      ensures found == if down then FirstMatch(old(Text()), find, matchCase, nStart, nLen)
                       else LastMatch(old(Text()), find, matchCase, nStart)
    {
      ghost var text, all := Text(), buffer[..];
      ghost var goal := if down then FirstMatch(text, find, matchCase, nStart, nLen) else LastMatch(text, find, matchCase, nStart);
      var p: int := nStart;
      var nCompare: int := if down then nLen - p - |find| + 1 else p + 1;
      while nCompare > 0
        invariant Valid() && buffer[..] == all && Text() == text
        invariant 0 <= nCompare
        invariant if down then p >= 0 && p + nCompare == nLen - |find| + 1 else p == nCompare - 1 && p + |find| <= nLen
        invariant goal == if down then FirstMatch(text, find, matchCase, p, nLen)
                          else if p < 0 then None else LastMatch(text, find, matchCase, p)
      {
        var equal := CandidateMatches(p, find, matchCase);
        if equal {
          return Some(p);
        }
        nCompare := nCompare - 1;
        p := if down then p + 1 else p - 1;
      }
      return None;
    }

    /** The first candidate of a search, or none when no candidate fits the text. */
    method SearchStart(nLen: nat, find: seq<char>, matchCase: bool, down: bool) returns (start: Option<nat>)
      requires Valid() && |find| > 0 && nLen == length
      ensures start.Some? ==> start.value + |find| <= nLen
      ensures FindTarget(Text(), selStart, selEnd, find, matchCase, down)
              == if start.None? then None
                 else if down then FirstMatch(Text(), find, matchCase, start.value, nLen)
                 else LastMatch(Text(), find, matchCase, start.value)
    {
      var nStart := selStart;
      if nStart == 0 && !down {
        return None;  // nothing lies before the start of the text
      }
      if !down {
        nStart := nStart - 1;
      } else if selStart != selEnd {
        var same := SameAsSelected(find, matchCase);
        if same {
          nStart := nStart + 1;
        }
      }
      if nStart + |find| - 1 >= nLen {
        if !down && nLen >= |find| {
          LastMatchClamp(Text(), find, matchCase, nStart, nLen - |find|);
          nStart := nLen - |find|;
        } else {
          if !down { LastMatchTooLong(Text(), find, matchCase, nStart); }
          return None;
        }
      }
      return Some(nStart);
    }

    method FindTextSimple(find: seq<char>, matchCase: bool, down: bool) returns (found: bool)
      requires Valid() && |find| > 0
      modifies this`selStart, this`selEnd, buffer
      ensures Valid() && buffer[..] == old(buffer[..])
      ensures var target := FindTarget(old(Text()), old(selStart), old(selEnd), find, matchCase, down);
              if target.Some? then found && selStart == target.value && selEnd == target.value + |find|
              else !found && selStart == old(selStart) && selEnd == old(selEnd)
      ensures if down then NearestBelow(old(Text()), old(selStart), old(selEnd), find, matchCase, found, selStart)
              else NearestAbove(old(Text()), old(selStart), find, matchCase, found, selStart)
      ensures found ==> selEnd == selStart + |find|
    {
      ghost var target := FindTarget(Text(), selStart, selEnd, find, matchCase, down);
      TargetIsNearest(Text(), selStart, selEnd, find, matchCase, down, target.Some?, if target.Some? then target.value else selStart);
      var nLen := GetBufferLength();
      var start := SearchStart(nLen, find, matchCase, down);
      if start.None? {
        return false;
      }
      var n := Scan(start.value, nLen, find, matchCase, down);
      if n.None? {
        return false;
      }
      selStart, selEnd := n.value, n.value + |find|;
      return true;
    }

    /** EM_REPLACESEL: the control stores the new text in a new block and puts the caret behind it. */
    method ReplaceSel(repl: seq<char>)
      requires Valid() && NUL !in repl
      modifies this`buffer, this`length, this`selStart, this`selEnd
      ensures Valid() && fresh(buffer)
      ensures Text() == old(Text())[..old(selStart)] + repl + old(Text())[old(selEnd)..]
      ensures selStart == selEnd == old(selStart) + |repl|
    {
      var n := GetBufferLength();
      var text := buffer[..selStart] + repl + buffer[selEnd..n];
      assert text == Text()[..selStart] + repl + Text()[selEnd..];
      var block := new char[|text| + 1](i => if 0 <= i < |text| then text[i] else NUL);
      assert block[..|text|] == text;
      forall k | 0 <= k < |text| ensures block[k] != NUL {
        assert text[k] != NUL by {
          if selStart <= k < selStart + |repl| { assert text[k] == repl[k - selStart]; }
        }
      }
      buffer, length := block, |text|;
      selStart := selStart + |repl|;
      selEnd := selStart;
    }

    method TextNotFound()
      modifies this`firstSearch, this`notFoundMessages
      ensures firstSearch && notFoundMessages == old(notFoundMessages) + 1
    {
      firstSearch := true;
      notFoundMessages := notFoundMessages + 1;
    }

    /** The body and test of the replace loop. */
    method ReplaceAndFindNext(find: seq<char>, repl: seq<char>, matchCase: bool, ghost from: nat, ghost rest: Pass)
      returns (more: bool, ghost from': nat, ghost rest': Pass)
      requires Valid() && |find| > 0 && NUL !in repl && selEnd == selStart + |find|
      requires Standing(Text(), from, rest, Some(selStart), find, repl, matchCase)
      modifies this`buffer, this`length, this`selStart, this`selEnd, buffer
      ensures Valid() && fresh(buffer) && selEnd == (if more then selStart + |find| else selStart)
      ensures Standing(Text(), from', rest', if more then Some(selStart) else None, find, repl, matchCase)
      ensures Text()[..from'] + rest'.text == old(Text())[..from] + rest.text && rest.count == 1 + rest'.count
      ensures length - from' == old(length - selEnd)
      ensures !more ==> selStart == from'
    {
      ghost var text, m := Text(), selStart;
      ReplaceSel(repl);
      from' := selStart;
      ghost var after := Text();
      ghost var at := FindTarget(after, from', from', find, matchCase, true);
      rest' := RoundInPlace(text, find, repl, matchCase, from, m, rest, after, at);
      more := FindTextSimple(find, matchCase, true);
      assert Text() == after;
      assert at == if more then Some(selStart) else None;
    }

    /** The replace loop, entered with a match selected. */
    method ReplaceLoop(find: seq<char>, repl: seq<char>, matchCase: bool, ghost start: nat, ghost pass: Pass) returns (replaceCount: nat)
      requires Valid() && |find| > 0 && NUL !in repl && selEnd == selStart + |find|
      requires Standing(Text(), start, pass, Some(selStart), find, repl, matchCase)
      modifies this`buffer, this`length, this`selStart, this`selEnd, buffer
      ensures Valid() && selStart == selEnd && replaceCount > 0
      ensures Text() == old(Text())[..start] + pass.text && replaceCount == pass.count
      ensures FirstMatch(Text(), find, matchCase, selStart, length).None?
    {
      ghost var from, rest, goal := start, pass, Text()[..start] + pass.text;
      replaceCount := 0;
      var more := true;
      while more
        invariant Valid() && (buffer == old(buffer) || fresh(buffer)) && selEnd == (if more then selStart + |find| else selStart)
        invariant Standing(Text(), from, rest, if more then Some(selStart) else None, find, repl, matchCase)
        invariant Text()[..from] + rest.text == goal && replaceCount + rest.count == pass.count
        invariant !more ==> selStart == from && replaceCount > 0
        decreases length - selEnd, more
      {
        replaceCount := replaceCount + 1;
        more, from, rest := ReplaceAndFindNext(find, repl, matchCase, from, rest);
      }
      NothingLeft(Text(), find, repl, matchCase, from);
    }

    /** Replaces every match from the selection start to the end of the text, in one left-to-right pass. */
    method OnReplaceAll(find: seq<char>, repl: seq<char>, matchCase: bool) returns (replaceCount: nat)
      requires Valid() && |find| > 0 && NUL !in repl
      modifies this, buffer
      ensures Valid()
      ensures var pass := ReplaceAll(old(Text()), find, repl, matchCase, old(selStart), old(length));
              Text() == old(Text())[..old(selStart)] + pass.text && replaceCount == pass.count
      ensures FirstMatch(Text(), find, matchCase, selStart, length).None?
      ensures if replaceCount == 0 then
                selStart == old(selStart) && selEnd == old(selEnd) && notFoundMessages == old(notFoundMessages) + 1 && firstSearch
              else selStart == selEnd && notFoundMessages == old(notFoundMessages) && firstSearch == old(firstSearch)
    {
      ghost var text, start := Text(), selStart;
      ghost var pass := ReplaceAll(text, find, repl, matchCase, start, length);
      ghost var at := FirstStanding(text, start, selEnd, find, repl, matchCase, pass);
      // a selected match is replaced first
      var same := SameAsSelected(find, matchCase);
      if !same {
        var found := FindTextSimple(find, matchCase, true);
        assert Text() == text && at == if found then Some(selStart) else None;
        if !found {
          NothingLeft(text, find, repl, matchCase, start);
          TextNotFound();
          return 0;
        }
      }
      replaceCount := ReplaceLoop(find, repl, matchCase, start, pass);
    }
  }

  /** Where a replace-all run stands: the text up to `from` is final, `rest` is what the pass makes of the remainder,
      and `at` is the next match in it. */
  ghost predicate Standing(text: seq<char>, from: nat, rest: Pass, at: Option<nat>, find: seq<char>, repl: seq<char>, matchCase: bool)
    requires |find| > 0
  {
    && from <= |text|
    && rest == ReplaceAll(text, find, repl, matchCase, from, |text|)
    && FirstMatch(text, find, matchCase, from, |text|) == at
  }

  lemma FirstStanding(text: seq<char>, selStart: nat, selEnd: nat, find: seq<char>, repl: seq<char>, matchCase: bool, rest: Pass)
    returns (at: Option<nat>)
    requires |find| > 0 && selStart <= selEnd <= |text| && rest == ReplaceAll(text, find, repl, matchCase, selStart, |text|)
    ensures at == if SelectionIs(text, selStart, selEnd, find, matchCase) then Some(selStart)
                  else FindTarget(text, selStart, selEnd, find, matchCase, true)
    ensures Standing(text, selStart, rest, at, find, repl, matchCase)
  {
    at := FirstMatch(text, find, matchCase, selStart, |text|);
  }

  lemma NothingLeft(text: seq<char>, find: seq<char>, repl: seq<char>, matchCase: bool, from: nat)
    requires |find| > 0 && from <= |text| && FirstMatch(text, find, matchCase, from, |text|).None?
    ensures ReplaceAll(text, find, repl, matchCase, from, |text|).count == 0
    ensures text[..from] + ReplaceAll(text, find, repl, matchCase, from, |text|).text == text
  {
    ReplaceNothing(text, find, repl, matchCase, from, |text|);
  }

  /** Replacing the match at `m` in place and searching on: what the pass still has to do, and that the outcome
      stays the same. */
  lemma RoundInPlace(text: seq<char>, find: seq<char>, repl: seq<char>, matchCase: bool, from: nat, m: nat, rest: Pass,
                     text': seq<char>, at: Option<nat>) returns (next: Pass)
    requires |find| > 0 && Standing(text, from, rest, Some(m), find, repl, matchCase)
    requires text' == text[..m] + repl + text[m + |find|..]
    requires at == FindTarget(text', m + |repl|, m + |repl|, find, matchCase, true)
    ensures Standing(text', m + |repl|, next, at, find, repl, matchCase)
    ensures text'[..m + |repl|] + next.text == text[..from] + rest.text && rest.count == 1 + next.count
  {
    CaretTarget(text', m + |repl|, find, matchCase);
    next := ReplaceAll(text', find, repl, matchCase, m + |repl|, |text'|);
    RemainderMoved(text, find, repl, matchCase, m, m + |find|, text', next);
    ReplaceRound(text, find, repl, matchCase, from, |text|, m, next, rest);
    SpliceAtCaret(text, from, m, m + |find|, repl, next.text, text');
  }

  lemma RemainderMoved(text: seq<char>, find: seq<char>, repl: seq<char>, matchCase: bool, m: nat, e: nat,
                       text': seq<char>, next: Pass)
    requires |find| > 0 && m <= e <= |text| && text' == text[..m] + repl + text[e..]
    requires next == ReplaceAll(text', find, repl, matchCase, m + |repl|, |text'|)
    ensures next == ReplaceAll(text, find, repl, matchCase, e, |text|)
  {
    var caret := m + |repl|;
    SameCharsAt(text, e, text', caret, |text| - e);
    assert text[e..|text|] == text'[caret..|text'|];
    ReplaceAllShift(text, e, |text|, text', caret, |text'|, find, repl, matchCase,
                    ReplaceAll(text, find, repl, matchCase, e, |text|), next);
  }

  lemma SpliceAtCaret(text: seq<char>, from: nat, m: nat, e: nat, repl: seq<char>, tail: seq<char>, text': seq<char>)
    requires from <= m <= e <= |text| && text' == text[..m] + repl + text[e..]
    ensures text'[..m + |repl|] + tail == text[..from] + (text[from..m] + repl + tail)
  {
    assert text'[..m + |repl|] == text[..from] + text[from..m] + repl;
  }

  lemma MatchBelow(text: seq<char>, find: seq<char>, matchCase: bool, p: nat, q: nat)
    requires p + |find| == q <= |text|
    ensures MatchAt(text[..q], find, matchCase, p) == MatchAt(text, find, matchCase, p)
  {
    AgreeAt(text[..q], find, matchCase, p, |find|);
    AgreeAt(text, find, matchCase, p, |find|);
  }
}
