/** Status bar panes: right edges of fixed panes and of the one variable-width default pane. */
module StatusPanes {

  const ID_DEFAULT_PANE: int := 0

  /** Where `id` is first, or the number of panes. */
  function IndexOf(panes: seq<int>, id: int): (i: nat)
    ensures i <= |panes| && id !in panes[..i] && (i < |panes| ==> panes[i] == id)
  {
    if panes == [] || panes[0] == id then 0
    else
      var i := IndexOf(panes[1..], id);
      assert panes[..i + 1] == [panes[0]] + panes[1..][..i];
      i + 1
  }

  function LeftEdge(pos: seq<int>, i: nat): int
    requires i < |pos|
  {
    if i == 0 then 0 else pos[i - 1]
  }

  function Width(pos: seq<int>, i: nat): int
    requires i < |pos|
  {
    pos[i] - LeftEdge(pos, i)
  }

  /** Only the widths of the panes `a` and `b` may differ. */
  predicate OthersKeepWidth(pos: seq<int>, pos': seq<int>, a: nat, b: nat) {
    |pos'| == |pos| && forall i :: 0 <= i < |pos| && i != a && i != b ==> Width(pos', i) == Width(pos, i)
  }

  /** UpdatePanesLayout as a whole: the panes from the default one on move so that the last edge meets `target`, unless
      that leaves the default pane without width. */
  function Laid(panes: seq<int>, pos: seq<int>, target: int): seq<int>
    requires |panes| == |pos| > 0
  {
    var d, off := IndexOf(panes, ID_DEFAULT_PANE), target - pos[|pos| - 1];
    if d < |pos| && Width(pos, d) + off > 0 then seq(|pos|, i requires 0 <= i < |pos| => if i < d then pos[i] else pos[i] + off)
    else pos
  }

  /** Only the default pane changes, the last edge meets the target or nothing changes, and laying out again changes
      nothing more. */
  lemma LaidIsStable(panes: seq<int>, pos: seq<int>, target: int)
    requires |panes| == |pos| > 0
    ensures var laid, d := Laid(panes, pos, target), IndexOf(panes, ID_DEFAULT_PANE);
            && OthersKeepWidth(pos, laid, d, d)
            && (laid == pos || (d < |pos| && laid[|pos| - 1] == target && Width(laid, d) > 0))
            && Laid(panes, laid, target) == laid
            && (d < |pos| && Width(pos, d) + target - pos[|pos| - 1] > 0 ==> laid[|pos| - 1] == target)
  {
    var d := IndexOf(panes, ID_DEFAULT_PANE);
    if d < |pos| && Width(pos, d) + target - pos[|pos| - 1] > 0 {
      Widened(panes, pos, target, d, Laid(panes, pos, target));
      LaidSettled(panes, Laid(panes, pos, target), target);
    }
  }

  lemma Widened(panes: seq<int>, pos: seq<int>, target: int, d: nat, laid: seq<int>)
    requires |panes| == |pos| > 0 && d == IndexOf(panes, ID_DEFAULT_PANE) < |pos| && laid == Laid(panes, pos, target)
    requires Width(pos, d) + target - pos[|pos| - 1] > 0
    ensures OthersKeepWidth(pos, laid, d, d) && laid[|pos| - 1] == target && Width(laid, d) > 0
  {
  }

  /** Where the last edge meets the target already there is nothing to do. */
  lemma LaidSettled(panes: seq<int>, pos: seq<int>, target: int)
    requires |panes| == |pos| > 0 && pos[|pos| - 1] == target
    ensures Laid(panes, pos, target) == pos
  {
  }

  class MultiPaneStatusBar {
    var panes: seq<int>
    var parts: seq<int>  // the right edges, as the control keeps them

    ghost predicate Valid()
      reads this
    {
      |parts| == |panes|
    }

    method GetPaneIndexFromID(nPaneID: int) returns (n: int)
      ensures n == if nPaneID in panes then IndexOf(panes, nPaneID) else -1
    {
      n := 0;
      while n < |panes|
        invariant 0 <= n <= |panes| && nPaneID !in panes[..n]
      {
        if panes[n] == nPaneID {
          FirstIndex(panes, nPaneID, n);
          return;
        }
        n := n + 1;
      }
      return -1;
    }

    /** The index of the variable-width pane, or the number of panes. */
    method DefaultPane() returns (nDef: nat)
      ensures nDef == IndexOf(panes, ID_DEFAULT_PANE)
    {
      nDef := |panes|;
      var i := 0;
      while i < |panes|
        invariant 0 <= i <= |panes| && ID_DEFAULT_PANE !in panes[..i] && nDef == |panes|
      {
        if panes[i] == ID_DEFAULT_PANE {
          nDef := i;
          break;
        }
        i := i + 1;
      }
      FirstIndex(panes, ID_DEFAULT_PANE, nDef);
    }

    /** Adds `off` to the edges from `lo` up to `hi`. */
    method Shift(pos: seq<int>, lo: nat, hi: nat, off: int) returns (r: seq<int>)
      requires lo <= hi <= |pos|
      ensures |r| == |pos| && forall i :: 0 <= i < |pos| ==> r[i] == if lo <= i < hi then pos[i] + off else pos[i]
    {
      r := pos;
      var i := lo;
      while i < hi
        invariant lo <= i <= hi && |r| == |pos|
        invariant forall k :: 0 <= k < |pos| ==> r[k] == if lo <= k < i then pos[k] + off else pos[k]
      {
        r := r[i := r[i] + off];
        i := i + 1;
      }
    }

    /** Gives a fixed pane the requested width at the expense of the default pane; without a default pane the panes
        behind it move. The default pane itself keeps its width. */
    method SetPaneWidth(nPaneID: int, cxWidth: int) returns (ok: bool)
      requires Valid()
      modifies this`parts
      ensures Valid() && ok == (nPaneID in panes)
      ensures !ok || nPaneID == ID_DEFAULT_PANE ==> parts == old(parts)
      ensures ok && nPaneID != ID_DEFAULT_PANE ==>
                var k, d := IndexOf(panes, nPaneID), IndexOf(panes, ID_DEFAULT_PANE);
                && Width(parts, k) == cxWidth
                && OthersKeepWidth(old(parts), parts, k, d)
                && (d < |panes| ==>
                      parts[|parts| - 1] == old(parts)[|parts| - 1]
                      && Width(parts, d) == Width(old(parts), d) - (cxWidth - Width(old(parts), k)))
    {
      var nIndex := GetPaneIndexFromID(nPaneID);
      if nIndex == -1 {
        return false;
      }
      var cxPaneWidth := parts[nIndex] - if nIndex == 0 then 0 else parts[nIndex - 1];
      var cxOff := cxWidth - cxPaneWidth;
      var nDef := DefaultPane();
      if nIndex < nDef {  // left of the default pane
        parts := Shift(parts, nIndex, nDef, cxOff);
      } else {  // the default pane or one on its right
        parts := Shift(parts, nDef, nIndex, -cxOff);
      }
      return true;
    }

    /** `target` is the right edge to meet: the client area, less the size grip. */
    method UpdatePanesLayout(target: int)
      requires Valid() && |panes| > 0
      modifies this`parts
      ensures Valid() && parts == Laid(panes, old(parts), target)
    {
      var cxOff := target - parts[|panes| - 1];
      var i := DefaultPane();
      if i < |panes| && parts[i] + cxOff > (if i == 0 then 0 else parts[i - 1]) {
        parts := Shift(parts, i, |panes|, cxOff);
      }
    }
  }

  lemma FirstIndex(panes: seq<int>, id: int, n: nat)
    requires n <= |panes| && id !in panes[..n] && (n < |panes| ==> panes[n] == id)
    ensures IndexOf(panes, id) == n
  {
    var i := IndexOf(panes, id);
    forall k | 0 <= k < n ensures panes[k] != id { assert panes[..n][k] in panes[..n]; }
    forall k | 0 <= k < i ensures panes[k] != id { assert panes[..i][k] in panes[..i]; }
  }
}
