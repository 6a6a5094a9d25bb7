/** Left and right on the command bar: the cyclic search for the next button that can be dropped down. The loops wrap
    their index inside the body, after the test that should stop them at the starting button. */
module MenuNavigation {

  /** What the search looks at: TBSTATE_ENABLED, TBSTATE_HIDDEN, and whether the right edge is beyond the client area. */
  datatype Button = Button(enabled: bool, hidden: bool, clipped: bool)

  predicate Stops(b: Button) { b.clipped || (b.enabled && !b.hidden) }

  /** -2 stands for the chevron. */
  function Verdict(buttons: seq<Button>, i: int): int
    requires 0 <= i < |buttons|
  {
    if buttons[i].clipped then -2 else i
  }

  /** How many steps to the right button `i` is from button `from`: 1 to n, going round. */
  function Ahead(n: int, from: int, i: int): int {
    if i > from then i - from else i - from + n
  }

  /** Button `i` is the first to stop a search that starts behind `from` and goes right (or left). */
  predicate FirstStop(buttons: seq<Button>, from: int, i: int, right: bool)
    requires 0 <= from < |buttons|
  {
    var n := |buttons|;
    && 0 <= i < n && i != from && Stops(buttons[i])
    && forall j :: 0 <= j < n && j != from && (if right then Ahead(n, from, j) < Ahead(n, from, i) else Ahead(n, j, from) < Ahead(n, i, from))
         ==> !Stops(buttons[j])
  }

  predicate NoneStops(buttons: seq<Button>, from: int) {
    forall j :: 0 <= j < |buttons| && j != from ==> !Stops(buttons[j])
  }

  /** The loop ends: it meets the starting button at its own test, or some button stops it. */
  predicate Ends(buttons: seq<Button>, nBtn: int, wrapPoint: int) {
    nBtn == -1 || nBtn != wrapPoint || exists j :: 0 <= j < |buttons| && Stops(buttons[j])
  }

  method GetNextMenuItem(buttons: seq<Button>, nBtn: int) returns (r: int)
    requires -1 <= nBtn < |buttons| && Ends(buttons, nBtn, 0)
    ensures nBtn == -1 ==> r == -1
    ensures forall i :: nBtn != -1 && FirstStop(buttons, nBtn, i, true) ==> r == Verdict(buttons, i)
    ensures nBtn != -1 && NoneStops(buttons, nBtn) ==> r == if nBtn == 0 && buttons[0].clipped then -2 else -1
    ensures r >= 0 ==> r < |buttons| && r != nBtn && buttons[r].enabled && !buttons[r].hidden && !buttons[r].clipped
    ensures r >= 0 ==> forall j :: 0 <= j < |buttons| && (if nBtn < r then nBtn < j < r else j > nBtn || j < r)
                                   ==> !buttons[j].clipped && (!buttons[j].enabled || buttons[j].hidden)
    ensures r < 0 ==> r == -1 || (r == -2 && exists i :: 0 <= i < |buttons| && buttons[i].clipped)
    ensures r == -1 && nBtn != -1 ==>
              forall j :: 0 <= j < |buttons| && j != nBtn ==> !buttons[j].clipped && (!buttons[j].enabled || buttons[j].hidden)
  {
    if nBtn == -1 {
      return -1;
    }
    var nCount := |buttons|;
    var nNextBtn := nBtn + 1;
    while nNextBtn != nBtn
      invariant 1 <= nNextBtn <= nCount
      invariant forall j :: 0 <= j < nCount && j != nBtn && Ahead(nCount, nBtn, j) < Ahead(nCount, nBtn, nNextBtn) ==> !Stops(buttons[j])
      decreases nCount - Ahead(nCount, nBtn, nNextBtn)
    {
      if nNextBtn >= nCount {
        nNextBtn := 0;
      }
      if buttons[nNextBtn].clipped {
        return -2;  // the chevron menu takes over
      }
      if buttons[nNextBtn].enabled && !buttons[nNextBtn].hidden {
        break;
      }
      nNextBtn := nNextBtn + 1;
    }
    return if nNextBtn != nBtn then nNextBtn else -1;
  }

  method GetPreviousMenuItem(buttons: seq<Button>, nBtn: int) returns (r: int)
    requires -1 <= nBtn < |buttons| && Ends(buttons, nBtn, |buttons| - 1)
    ensures nBtn == -1 ==> r == -1
    ensures forall i :: nBtn != -1 && FirstStop(buttons, nBtn, i, false) ==> r == Verdict(buttons, i)
    ensures nBtn != -1 && NoneStops(buttons, nBtn) ==>
              r == if nBtn == |buttons| - 1 && buttons[nBtn].clipped then -2 else -1
    ensures r >= 0 ==> r < |buttons| && r != nBtn && buttons[r].enabled && !buttons[r].hidden && !buttons[r].clipped
    ensures r >= 0 ==> forall j :: 0 <= j < |buttons| && (if r < nBtn then r < j < nBtn else j < nBtn || j > r)
                                   ==> !buttons[j].clipped && (!buttons[j].enabled || buttons[j].hidden)
    ensures r < 0 ==> r == -1 || (r == -2 && exists i :: 0 <= i < |buttons| && buttons[i].clipped)
    ensures r == -1 && nBtn != -1 ==>
              forall j :: 0 <= j < |buttons| && j != nBtn ==> !buttons[j].clipped && (!buttons[j].enabled || buttons[j].hidden)
  {
    if nBtn == -1 {
      return -1;
    }
    var nNextBtn := nBtn - 1;
    while nNextBtn != nBtn
      invariant -1 <= nNextBtn < |buttons| - 1
      invariant forall j :: 0 <= j < |buttons| && j != nBtn && Ahead(|buttons|, j, nBtn) < Ahead(|buttons|, nNextBtn, nBtn) ==> !Stops(buttons[j])
      decreases |buttons| - Ahead(|buttons|, nNextBtn, nBtn)
    {
      if nNextBtn < 0 {
        nNextBtn := |buttons| - 1;
      }
      if buttons[nNextBtn].clipped {
        return -2;  // the chevron menu takes over
      }
      if buttons[nNextBtn].enabled && !buttons[nNextBtn].hidden {
        break;
      }
      nNextBtn := nNextBtn - 1;
    }
    return if nNextBtn != nBtn then nNextBtn else -1;
  }

  /** Either some other button stops the search first, or none does: the contracts above leave no case open. */
  lemma FirstStopExists(buttons: seq<Button>, from: int, right: bool)
    requires 0 <= from < |buttons| && !NoneStops(buttons, from)
    ensures exists i :: FirstStop(buttons, from, i, right)
  {
    var i :| 0 <= i < |buttons| && i != from && Stops(buttons[i]);
    Nearest(buttons, from, i, right);
  }

  lemma Nearest(buttons: seq<Button>, from: int, i: int, right: bool)
    requires 0 <= from < |buttons| && 0 <= i < |buttons| && i != from && Stops(buttons[i])
    ensures exists k :: FirstStop(buttons, from, k, right)
    decreases if right then Ahead(|buttons|, from, i) else Ahead(|buttons|, i, from)
  {
    if !FirstStop(buttons, from, i, right) {
      var n := |buttons|;
      var j :| 0 <= j < n && j != from && Stops(buttons[j])
               && if right then Ahead(n, from, j) < Ahead(n, from, i) else Ahead(n, j, from) < Ahead(n, i, from);
      Nearest(buttons, from, j, right);
    }
  }

  // ---------- when the loops do not end ----------

  /** The wrap-around at the head of the loop body. */
  function Wrapped(n: int, nNextBtn: int, right: bool): int {
    if right then (if nNextBtn >= n then 0 else nNextBtn) else if nNextBtn < 0 then n - 1 else nNextBtn
  }

  /** The loop, entered with the given loop variable, is still running after `k` iterations. */
  predicate Running(buttons: seq<Button>, nBtn: int, nNextBtn: int, right: bool, k: nat)
    decreases k
  {
    k == 0
    || (nNextBtn != nBtn
        && var i := Wrapped(|buttons|, nNextBtn, right);
           0 <= i < |buttons| && !Stops(buttons[i]) && Running(buttons, nBtn, if right then i + 1 else i - 1, right, k - 1))
  }

  /** From the first button to the right, or the last to the left, with no button to stop at, the starting one
      included, the loop steps over its own end and runs for ever: the condition in the contracts is exact. */
  lemma {:induction false} NeverEnds(buttons: seq<Button>, nBtn: int, nNextBtn: int, right: bool, k: nat)
    requires 0 <= nBtn < |buttons| && !Ends(buttons, nBtn, if right then 0 else |buttons| - 1)
    requires if right then 1 <= nNextBtn <= |buttons| else -1 <= nNextBtn < |buttons| - 1
    ensures Running(buttons, nBtn, nNextBtn, right, k)
    decreases k
  {
    if k > 0 {
      var i := Wrapped(|buttons|, nNextBtn, right);
      NeverEnds(buttons, nBtn, if right then i + 1 else i - 1, right, k - 1);
    }
  }

  lemma NeverEndsFromStart(buttons: seq<Button>, nBtn: int, right: bool, k: nat)
    requires 0 <= nBtn < |buttons| && !Ends(buttons, nBtn, if right then 0 else |buttons| - 1)
    ensures Running(buttons, nBtn, if right then nBtn + 1 else nBtn - 1, right, k)
  {
    NeverEnds(buttons, nBtn, if right then nBtn + 1 else nBtn - 1, right, k);
  }

  /** It happens with two disabled buttons, going right from the first. */
  lemma DisabledBar(k: nat)
    ensures var off := Button(false, false, false); Running([off, off], 0, 1, true, k)
  {
    var off := Button(false, false, false);
    NeverEndsFromStart([off, off], 0, true, k);
  }
}
