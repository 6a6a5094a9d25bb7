/** Tab pages: inserting, removing, activating and moving pages, and which page window is visible. */
module TabView {
  import opened Common

  type HWnd = nat

  /** The pages of the tab control, the active page index, and the windows that are visible. */
  datatype Tabs = Tabs(pages: seq<HWnd>, active: int, shown: set<HWnd>)

  predicate ValidIndex(t: Tabs, n: int) { 0 <= n < |t.pages| }

  /** No window is used twice, the active index is -1 exactly when there are no pages, and of the page windows
      exactly the active one is visible. */
  ghost predicate Ok(t: Tabs) {
    && (forall i, j :: 0 <= i < j < |t.pages| ==> t.pages[i] != t.pages[j])
    && (if t.pages == [] then t.active == -1 else ValidIndex(t, t.active))
    && (forall i :: 0 <= i < |t.pages| ==> (t.pages[i] in t.shown <==> i == t.active))
  }

  // ---------- what the operations do ----------

  /** SetActivePage hides the window at the active index and shows the one at the new index. */
  function Activate(t: Tabs, n: int): Tabs
    requires ValidIndex(t, n) && (t.active == -1 || ValidIndex(t, t.active))
  {
    var hidden := if t.active != -1 then t.shown - {t.pages[t.active]} else t.shown;
    Tabs(t.pages, n, hidden + {t.pages[n]})
  }

  function Insert(t: Tabs, n: int, w: HWnd): Tabs
    requires 0 <= n <= |t.pages| && (t.active == -1 || ValidIndex(t, t.active))
  {
    Activate(Tabs(InsertAt(t.pages, n, w), if n <= t.active then t.active + 1 else t.active, t.shown), n)
  }

  /** Which page is active after a removal, in the numbering of the pages left; -1 if none is left. */
  function ActiveAfterRemoval(count: int, active: int, n: int): int {
    if active == n then (if n > 0 then n - 1 else if count > 1 then n else -1)
    else if n < active then active - 1
    else active
  }

  function Remove(t: Tabs, n: int): Tabs
    requires ValidIndex(t, n) && ValidIndex(t, t.active)
  {
    var left := Tabs(RemoveAt(t.pages, n), -1, t.shown - {t.pages[n]});
    var next := ActiveAfterRemoval(|t.pages|, t.active, n);
    if next == -1 then left else Activate(left, next)
  }

  /** MovePage inserts a copy of the tab, deletes the original and activates the target; the active index is not
      adjusted in between. */
  function Move(t: Tabs, from: int, to: int): Tabs
    requires ValidIndex(t, from) && ValidIndex(t, to) && ValidIndex(t, t.active)
  {
    if from == to then t else Activate(t.(pages := MovedPages(t.pages, from, to)), to)
  }

  function MovedPages(s: seq<HWnd>, from: int, to: int): (r: seq<HWnd>)
    requires 0 <= from < |s| && 0 <= to < |s|
    ensures |r| == |s|
  {
    RemoveAt(InsertAt(s, if to > from then to + 1 else to, s[from]), if from > to then from + 1 else from)
  }

  // ---------- what they keep ----------

  lemma ActivateKeepsOk(t: Tabs, n: int)
    requires Ok(t) && ValidIndex(t, n)
    ensures Ok(Activate(t, n)) && Activate(t, n).active == n && Activate(t, n).pages == t.pages
  {
  }

  /** A new page becomes the active one, whether its window was visible before or not. */
  lemma InsertKeepsOk(t: Tabs, n: int, w: HWnd)
    requires Ok(t) && 0 <= n <= |t.pages| && w !in t.pages
    ensures Ok(Insert(t, n, w)) && Insert(t, n, w).active == n && Insert(t, n, w).pages[n] == w
  {
  }

  lemma RemoveKeepsOk(t: Tabs, n: int)
    requires Ok(t) && ValidIndex(t, n)
    ensures Ok(Remove(t, n))
  {
    RemovedDistinct(t.pages, n);
  }

  lemma RemovedDistinct(s: seq<HWnd>, n: nat)
    requires n < |s| && forall i, j :: 0 <= i < j < |s| ==> s[i] != s[j]
    ensures var r := RemoveAt(s, n);
            && (forall i, j :: 0 <= i < j < |r| ==> r[i] != r[j])
            && (forall k :: 0 <= k < |r| ==> r[k] == s[if k < n then k else k + 1])
  {
  }

  /** Removing another page keeps the same page active; removing the active page activates the one before it, or the
      new first one. The window removed is not visible any more. */
  lemma RemoveActivates(t: Tabs, n: int)
    requires Ok(t) && ValidIndex(t, n)
    ensures Remove(t, n).pages == RemoveAt(t.pages, n) && t.pages[n] !in Remove(t, n).shown
    ensures n != t.active ==> Remove(t, n).pages[Remove(t, n).active] == t.pages[t.active]
    ensures n == t.active && |t.pages| > 1 ==> Remove(t, n).pages[Remove(t, n).active] == t.pages[if n > 0 then n - 1 else 1]
  {
  }

  /** Where page `k` stands after a move. */
  function NewIndex(k: int, from: int, to: int): int {
    if k == from then to
    else if from < k <= to then k - 1
    else if to <= k < from then k + 1
    else k
  }

  lemma MovedPage(s: seq<HWnd>, from: int, to: int, k: int)
    requires 0 <= from < |s| && 0 <= to < |s| && 0 <= k < |s|
    ensures 0 <= NewIndex(k, from, to) < |s| && MovedPages(s, from, to)[NewIndex(k, from, to)] == s[k]
    ensures NewIndex(NewIndex(k, from, to), to, from) == k
  {
    var copied := InsertAt(s, if to > from then to + 1 else to, s[from]);
    assert k != from ==> copied[if k < (if to > from then to + 1 else to) then k else k + 1] == s[k];
    assert copied[if to > from then to + 1 else to] == s[from];
  }

  /** MovePage is a permutation: the moved page ends at the target index and the others keep their order. */
  lemma MoveIsPermutation(t: Tabs, from: int, to: int)
    requires ValidIndex(t, from) && ValidIndex(t, to) && ValidIndex(t, t.active)
    ensures var pages := Move(t, from, to).pages;
            && |pages| == |t.pages| && pages[to] == t.pages[from]
            && RemoveAt(pages, to) == RemoveAt(t.pages, from)
            && multiset(pages) == multiset(t.pages)
  {
    var pages := MovedPages(t.pages, from, to);
    if from == to {
      assert Move(t, from, to).pages == t.pages;
    } else {
      OthersKeepOrder(t.pages, from, to);
      MovedPage(t.pages, from, to, from);
      SameMultiset(pages, to);
      SameMultiset(t.pages, from);
    }
  }

  /** After any move the moved page is active and visible; what is hidden is the page that has come to stand at the
      old active index. */
  lemma MoveActivates(t: Tabs, from: int, to: int)
    requires ValidIndex(t, from) && ValidIndex(t, to) && ValidIndex(t, t.active) && from != to
    ensures var u := Move(t, from, to);
            && u.active == to && u.pages[u.active] == t.pages[from]
            && u.shown == t.shown - {u.pages[t.active]} + {t.pages[from]}
  {
    MovedPage(t.pages, from, to, from);
  }

  lemma OthersKeepOrder(s: seq<HWnd>, from: int, to: int)
    requires 0 <= from < |s| && 0 <= to < |s|
    ensures RemoveAt(MovedPages(s, from, to), to) == RemoveAt(s, from)
  {
    var a, b := RemoveAt(MovedPages(s, from, to), to), RemoveAt(s, from);
    forall k | 0 <= k < |b| ensures a[k] == b[k] {
      MovedPage(s, from, to, if k < from then k else k + 1);
    }
  }

  lemma SameMultiset(s: seq<HWnd>, i: nat)
    requires i < |s|
    ensures multiset(s) == multiset(RemoveAt(s, i)) + multiset{s[i]}
  {
    assert s == s[..i] + [s[i]] + s[i + 1..];
  }

  lemma MovedDistinct(s: seq<HWnd>, from: int, to: int)
    requires 0 <= from < |s| && 0 <= to < |s| && forall i, j :: 0 <= i < j < |s| ==> s[i] != s[j]
    ensures var r := MovedPages(s, from, to); forall i, j :: 0 <= i < j < |r| ==> r[i] != r[j]
  {
    var r := MovedPages(s, from, to);
    forall i, j | 0 <= i < j < |r| ensures r[i] != r[j] {
      MovedPage(s, from, to, NewIndex(i, to, from));
      MovedPage(s, from, to, NewIndex(j, to, from));
    }
  }

  /** The page windows stay as they should exactly when the page moved is the active one, which is how dragging uses
      MovePage, or the active page lies outside the stretch that shifts. Otherwise the index of the active page is
      stale when the target is activated: the wrong window is hidden, and two stay visible. */
  lemma MoveKeepsOkIff(t: Tabs, from: int, to: int)
    requires Ok(t) && ValidIndex(t, from) && ValidIndex(t, to) && from != to
    ensures Ok(Move(t, from, to)) <==> from == t.active || NewIndex(t.active, from, to) == t.active
  {
    var u := Move(t, from, to);
    var a := NewIndex(t.active, from, to);
    MovedPage(t.pages, from, to, t.active);
    if from != t.active && a != t.active {
      assert u.pages[a] in u.shown && a != to;
    } else {
      MoveKeepsOk(t, from, to);
    }
  }

  /** Moving the last of three pages to the front while the first one is active leaves two windows visible. */
  lemma TwoWindowsVisible()
    ensures var t := Tabs([1, 2, 3], 0, {1}); Ok(t) && Move(t, 2, 0) == Tabs([3, 1, 2], 0, {1, 3}) && !Ok(Move(t, 2, 0))
  {
    var t := Tabs([1, 2, 3], 0, {1});
    assert MovedPages(t.pages, 2, 0) == [3, 1, 2];
    assert Move(t, 2, 0) == Tabs([3, 1, 2], 0, {1, 3});
    MoveKeepsOkIff(t, 2, 0);
  }

  lemma MoveKeepsOk(t: Tabs, from: int, to: int)
    requires Ok(t) && ValidIndex(t, from) && ValidIndex(t, to) && from != to
    requires from == t.active || NewIndex(t.active, from, to) == t.active
    ensures Ok(Move(t, from, to))
  {
    var u := Move(t, from, to);
    MovedDistinct(t.pages, from, to);
    MovedPage(t.pages, from, to, t.active);
    forall i | 0 <= i < |u.pages| ensures u.pages[i] in u.shown <==> i == u.active {
      MovedPage(t.pages, from, to, NewIndex(i, to, from));
    }
  }

  // ---------- runs ----------

  datatype Step = DoInsert(at: int, w: HWnd) | DoRemove(at: int) | DoActivate(at: int) | DragActiveTo(target: int)

  /** The calls the control allows: indices in range, and no window inserted twice. */
  predicate Enabled(t: Tabs, step: Step) {
    && (if t.pages == [] then t.active == -1 else ValidIndex(t, t.active))
    && match step
       case DoInsert(n, w) => 0 <= n <= |t.pages| && w !in t.pages
       case DoRemove(n) => ValidIndex(t, n)
       case DoActivate(n) => ValidIndex(t, n)
       case DragActiveTo(n) => ValidIndex(t, n)
  }

  function Next(t: Tabs, step: Step): Tabs
    requires Enabled(t, step)
  {
    match step
    case DoInsert(n, w) => Insert(t, n, w)
    case DoRemove(n) => Remove(t, n)
    case DoActivate(n) => Activate(t, n)
    case DragActiveTo(n) => Move(t, t.active, n)
  }

  /** A run; calls that are not allowed when their turn comes are not made. */
  function Run(t: Tabs, steps: seq<Step>): Tabs
    decreases |steps|
  {
    if steps == [] then t else Run(if Enabled(t, steps[0]) then Next(t, steps[0]) else t, steps[1..])
  }

  lemma {:induction false} RunKeepsOk(t: Tabs, steps: seq<Step>)
    requires Ok(t)
    ensures Ok(Run(t, steps))
    decreases |steps|
  {
    if steps != [] {
      if Enabled(t, steps[0]) {
        match steps[0] {
          case DoInsert(n, w) => InsertKeepsOk(t, n, w);
          case DoRemove(n) => RemoveKeepsOk(t, n);
          case DoActivate(n) => ActivateKeepsOk(t, n);
          case DragActiveTo(n) => if n != t.active { MoveKeepsOkIff(t, t.active, n); }
        }
        RunKeepsOk(Next(t, steps[0]), steps[1..]);
      } else {
        RunKeepsOk(t, steps[1..]);
      }
    }
  }

  // ---------- the control ----------

  class TabView {
    var pages: seq<HWnd>  // the items of the tab control
    var activePage: int
    var shown: set<HWnd>
    var destroyPageOnRemove: bool
    var destroyed: set<HWnd>

    ghost function Current(): Tabs
      reads this
    {
      Tabs(pages, activePage, shown)
    }

    constructor ()
      ensures Ok(Current()) && pages == []
    {
      pages, activePage, shown, destroyPageOnRemove, destroyed := [], -1, {}, true, {};
    }

    method ShowWindow(w: HWnd, show: bool)
      modifies this`shown
      ensures shown == if show then old(shown) + {w} else old(shown) - {w}
    {
      shown := if show then shown + {w} else shown - {w};
    }

    method SetActivePage(nPage: int)
      requires ValidIndex(Current(), nPage) && (activePage == -1 || ValidIndex(Current(), activePage))
      modifies this`activePage, this`shown
      ensures Current() == Activate(old(Current()), nPage)
    {
      if activePage != -1 {
        ShowWindow(pages[activePage], false);
      }
      activePage := nPage;
      ShowWindow(pages[activePage], true);
    }

    /** `accepted` says whether the tab control takes the new item. */
    method InsertPage(nPage: int, w: HWnd, accepted: bool) returns (done: bool)
      requires 0 <= nPage <= |pages| && (activePage == -1 || ValidIndex(Current(), activePage))
      modifies this`pages, this`activePage, this`shown
      ensures done == accepted && Current() == if accepted then Insert(old(Current()), nPage, w) else old(Current())
    {
      if !accepted {
        return false;
      }
      pages := InsertAt(pages, nPage, w);
      // a page inserted at or before the active one pushes it back
      if nPage <= activePage {
        activePage := activePage + 1;
      }
      SetActivePage(nPage);
      return true;
    }

    method RemovePage(nPage: int)
      requires ValidIndex(Current(), nPage) && ValidIndex(Current(), activePage)
      modifies this`pages, this`activePage, this`shown, this`destroyed
      ensures Current() == Remove(old(Current()), nPage)
      ensures destroyed == if destroyPageOnRemove then old(destroyed) + {old(pages)[nPage]} else old(destroyed)
    {
      ghost var next := ActiveAfterRemoval(|pages|, activePage, nPage);
      DeleteItem(nPage);
      if activePage == nPage {
        activePage := -1;
        if nPage > 0 {
          assert next == nPage - 1;
          SetActivePage(nPage - 1);
        } else if |pages| > 0 {
          assert next == nPage;
          SetActivePage(nPage);
        }
      } else {
        var n := if nPage < activePage then activePage - 1 else activePage;
        assert next == n;
        activePage := -1;
        SetActivePage(n);
      }
    }

    /** Destroys or hides the page window and deletes the tab item. */
    method DeleteItem(nPage: int)
      requires ValidIndex(Current(), nPage)
      modifies this`pages, this`shown, this`destroyed
      ensures pages == RemoveAt(old(pages), nPage) && shown == old(shown) - {old(pages)[nPage]}
      ensures destroyed == if destroyPageOnRemove then old(destroyed) + {old(pages)[nPage]} else old(destroyed)
    {
      if destroyPageOnRemove {
        destroyed := destroyed + {pages[nPage]};
      }
      ShowWindow(pages[nPage], false);  // a destroyed window is not visible either
      pages := RemoveAt(pages, nPage);
    }

    /** `read` and `accepted` say whether the tab control hands out the item and takes its copy. */
    method MovePage(nMovePage: int, nInsertBeforePage: int, read: bool, accepted: bool) returns (done: bool)
      requires pages == [] || ValidIndex(Current(), activePage)
      modifies this`pages, this`activePage, this`shown
      ensures done == (ValidIndex(old(Current()), nMovePage) && ValidIndex(old(Current()), nInsertBeforePage)
                       && (nMovePage == nInsertBeforePage || (read && accepted)))
      ensures Current() == if done then Move(old(Current()), nMovePage, nInsertBeforePage) else old(Current())
    {
      if !(0 <= nMovePage < |pages|) || !(0 <= nInsertBeforePage < |pages|) {
        return false;
      }
      if nMovePage == nInsertBeforePage {
        return true;
      }
      if !read {
        return false;
      }
      var nInsertItem := if nInsertBeforePage > nMovePage then nInsertBeforePage + 1 else nInsertBeforePage;
      var nNewItem := if accepted then nInsertItem else -1;
      if nNewItem != nInsertItem {
        return false;
      }
      MoveItem(nMovePage, nInsertBeforePage, nInsertItem);
      SetActivePage(nInsertBeforePage);
      return true;
    }

    /** Inserts a copy of the item and deletes the original. */
    method MoveItem(nMovePage: nat, nInsertBeforePage: nat, nInsertItem: nat)
      requires nMovePage < |pages| && nInsertBeforePage < |pages| && nMovePage != nInsertBeforePage
      requires nInsertItem == if nInsertBeforePage > nMovePage then nInsertBeforePage + 1 else nInsertBeforePage
      modifies this`pages
      ensures pages == MovedPages(old(pages), nMovePage, nInsertBeforePage)
    {
      pages := InsertAt(pages, nInsertItem, pages[nMovePage]);
      if nMovePage > nInsertBeforePage {
        pages := RemoveAt(pages, nMovePage + 1);
      } else if nMovePage < nInsertBeforePage {
        pages := RemoveAt(pages, nMovePage);
      }
    }
  }
}
