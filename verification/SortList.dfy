/** The sortable list view: sort types and sort column while columns come and go, and the loan of the item data
    words to the comparison records while the control sorts. */
module SortList {
  import opened Common

  const LVCOLSORT_NONE: nat := 0
  const LVCOLSORT_TEXT: nat := 1
  const LVCOLSORT_TEXTNOCASE: nat := 2
  const LVCOLSORT_CUSTOM: nat := 9
  const LVCOLSORT_LAST: nat := LVCOLSORT_CUSTOM

  /** What the item data word of a row holds: the program's own value, or during a sort a comparison record. */
  datatype ItemData = Own(value: int) | Param(index: nat)

  datatype Row = Row(texts: seq<string>, data: ItemData)

  /** A comparison record: the row it was made for, the row's data word, and whether it owns a string. */
  datatype CompareParam = CompareParam(iItem: nat, itemData: ItemData, ownsText: bool)

  /** `order` lists every row index once. */
  ghost predicate Permutation(order: seq<nat>, n: nat) {
    |order| == n && forall i: nat :: multiset(order)[i] == if i < n then 1 else 0
  }

  lemma PermutationInRange(order: seq<nat>, n: nat)
    requires Permutation(order, n)
    ensures forall i :: 0 <= i < n ==> order[i] < n
  {
    forall i | 0 <= i < n ensures order[i] < n {
      assert order[i] in multiset(order);
    }
  }

  class SortListView {
    var columns: seq<nat>  // the columns of the control, by identity
    var colSortType: seq<nat>
    var sortColumn: int
    var sortDescending: bool
    var rows: seq<Row>
    ghost var freedTexts: seq<nat>  // the records whose strings the latest sort freed

    ghost predicate Valid()
      reads this
    {
      && |colSortType| == |columns| && -1 <= sortColumn < |columns|
      && (forall i :: 0 <= i < |colSortType| ==> colSortType[i] <= LVCOLSORT_LAST)
      && (forall i :: 0 <= i < |rows| ==> rows[i].data.Own?)
    }

    /** The columns with their sort types. */
    ghost function Typed(): seq<(nat, nat)>
      requires |colSortType| == |columns|
      reads this
    {
      seq(|columns|, i requires 0 <= i < |columns| && |colSortType| == |columns| reads this => (columns[i], colSortType[i]))
    }

    /** The column the sort column index names. */
    ghost function SortedBy(): Option<nat>
      requires -1 <= sortColumn < |columns|
      reads this
    {
      if sortColumn == -1 then None else Some(columns[sortColumn])
    }

    /** LVM_INSERTCOLUMN: `at` is where the control put the column, -1 if it refused. */
    method OnInsertColumn(column: nat, at: int) returns (lRet: int)
      requires Valid() && -1 <= at <= |columns|
      modifies this`columns, this`colSortType, this`sortColumn
      ensures Valid() && lRet == at
      ensures at == -1 ==> columns == old(columns) && colSortType == old(colSortType) && sortColumn == old(sortColumn)
      ensures at != -1 ==> columns == InsertAt(old(columns), at, column)
                           && Typed() == InsertAt(old(Typed()), at, (column, LVCOLSORT_TEXT))
                           && SortedBy() == old(SortedBy())
    {
      lRet := at;
      if lRet == -1 {
        return;
      }
      columns := InsertAt(columns, at, column);
      MakeRoom(at);
      if lRet <= sortColumn {
        sortColumn := sortColumn + 1;
      }
    }

    /** Grows the array by one and shifts the types behind the new column. */
    method MakeRoom(at: nat)
      requires at <= |colSortType|
      modifies this`colSortType
      ensures colSortType == InsertAt(old(colSortType), at, LVCOLSORT_TEXT)
    {
      colSortType := colSortType + [0];
      var i := |colSortType| - 1;
      while i > at
        invariant at <= i < |colSortType| == |old(colSortType)| + 1
        invariant forall k :: 0 <= k < i ==> colSortType[k] == old(colSortType)[k]
        invariant forall k :: i < k < |colSortType| ==> colSortType[k] == old(colSortType)[k - 1]
      {
        colSortType := colSortType[i := colSortType[i - 1]];
        i := i - 1;
      }
      colSortType := colSortType[at := LVCOLSORT_TEXT];
    }

    /** LVM_DELETECOLUMN; `deleted` is the control's answer. */
    method OnDeleteColumn(iCol: nat, deleted: bool)
      requires Valid() && (deleted ==> iCol < |columns|)
      modifies this`columns, this`colSortType, this`sortColumn
      ensures Valid()
      ensures !deleted ==> columns == old(columns) && colSortType == old(colSortType) && sortColumn == old(sortColumn)
      ensures deleted ==> columns == RemoveAt(old(columns), iCol) && Typed() == RemoveAt(old(Typed()), iCol)
                          && SortedBy() == if old(sortColumn) == iCol then None else old(SortedBy())
    {
      if !deleted {
        return;
      }
      columns := RemoveAt(columns, iCol);
      if sortColumn == iCol {
        sortColumn := -1;
      } else if sortColumn > iCol {
        sortColumn := sortColumn - 1;
      }
      colSortType := RemoveAt(colSortType, iCol);
    }

    /** Lends the data words of all rows to fresh comparison records. */
    method LendItemData(params: array<CompareParam>, strValue: bool)
      requires params.Length == |rows| && forall i :: 0 <= i < |rows| ==> rows[i].data.Own?
      modifies this`rows, params
      ensures |rows| == |old(rows)|
      ensures forall i :: 0 <= i < |rows| ==> rows[i] == old(rows)[i].(data := Param(i))
      ensures forall i :: 0 <= i < |rows| ==> params[i] == CompareParam(i, old(rows)[i].data, strValue)
    {
      var i := 0;
      while i < |rows|
        invariant 0 <= i <= |rows| == |old(rows)|
        invariant forall k :: 0 <= k < i ==> rows[k] == old(rows)[k].(data := Param(k))
        invariant forall k :: 0 <= k < i ==> params[k] == CompareParam(k, old(rows)[k].data, strValue)
        invariant forall k :: i <= k < |rows| ==> rows[k] == old(rows)[k]
      {
        params[i] := CompareParam(i, rows[i].data, strValue);
        rows := rows[i := rows[i].(data := Param(i))];
        i := i + 1;
      }
    }

    /** LVM_SORTITEMS: whatever the comparisons say, the control permutes its rows, data words included. */
    method ControlSorts(order: seq<nat>)
      requires Permutation(order, |rows|)
      modifies this`rows
      ensures |rows| == |old(rows)|
      ensures forall i :: 0 <= i < |rows| ==> order[i] < |rows| && rows[i] == old(rows)[order[i]]
    {
      PermutationInRange(order, |rows|);
      var before := rows;
      rows := seq(|before|, i requires 0 <= i < |before| == |order| && order[i] < |before| => before[order[i]]);
    }

    /** Gives every row the data word its record holds, and frees the record's string. */
    method ReturnItemData(params: array<CompareParam>, strValue: bool)
      requires params.Length == |rows| && forall i :: 0 <= i < |rows| ==> rows[i].data.Param? && rows[i].data.index < |rows|
      requires forall i :: 0 <= i < |rows| ==> params[i].ownsText == strValue
      modifies this`rows, this`freedTexts
      ensures |rows| == |old(rows)|
      ensures forall i :: 0 <= i < |rows| ==> rows[i] == old(rows)[i].(data := params[old(rows)[i].data.index].itemData)
      ensures freedTexts == if strValue then Indices(old(rows)) else []
    {
      freedTexts := [];
      var i := 0;
      while i < |rows|
        invariant 0 <= i <= |rows| == |old(rows)|
        invariant forall k :: 0 <= k < i ==> rows[k] == old(rows)[k].(data := params[old(rows)[k].data.index].itemData)
        invariant forall k :: i <= k < |rows| ==> rows[k] == old(rows)[k]
        invariant freedTexts == if strValue then Indices(old(rows)[..i]) else []
      {
        var p := rows[i].data.index;
        if strValue {
          freedTexts := freedTexts + [p];
        }
        assert Indices(old(rows)[..i + 1]) == Indices(old(rows)[..i]) + [p];
        rows := rows[i := rows[i].(data := params[p].itemData)];
        i := i + 1;
      }
      assert old(rows)[..i] == old(rows);
    }

    /** The text, no-case and custom sorts copy the texts to strings of their own. */
    method DoSortItems(iCol: nat, descending: bool, order: seq<nat>, sorted: bool) returns (ret: bool)
      requires Valid() && iCol < |columns| && Permutation(order, |rows|)
      modifies this`rows, this`sortColumn, this`sortDescending, this`freedTexts
      ensures Valid() && |rows| == |old(rows)|
      ensures var none, small := old(colSortType)[iCol] == LVCOLSORT_NONE, |old(rows)| < 2;
              && ret == (!none && (small || sorted))
              && (if none || small then rows == old(rows)
                  else forall i :: 0 <= i < |rows| ==> order[i] < |rows| && rows[i] == old(rows)[order[i]])
              && (if ret then sortColumn == iCol && sortDescending == descending
                  else sortColumn == old(sortColumn) && sortDescending == old(sortDescending))
              && (!none && !small ==>
                    forall i: nat :: multiset(freedTexts)[i] == if i < |rows| && old(colSortType)[iCol] in {1, 2, 9} then 1 else 0)
    {
      var wType := colSortType[iCol];
      if wType == LVCOLSORT_NONE {
        return false;
      }
      var nCount := |rows|;
      if nCount < 2 {
        sortDescending, sortColumn := descending, iCol;
        return true;
      }
      var strValue := wType == LVCOLSORT_TEXT || wType == LVCOLSORT_TEXTNOCASE || wType == LVCOLSORT_CUSTOM;
      SortRows(strValue, order);
      ret := sorted;
      if ret {
        sortDescending, sortColumn := descending, iCol;
      }
    }

    /** Lends the data words, lets the control sort, and takes them back. */
    method SortRows(strValue: bool, order: seq<nat>)
      requires Permutation(order, |rows|) && forall i :: 0 <= i < |rows| ==> rows[i].data.Own?
      modifies this`rows, this`freedTexts
      ensures |rows| == |old(rows)| && forall i :: 0 <= i < |rows| ==> order[i] < |rows| && rows[i] == old(rows)[order[i]]
      ensures freedTexts == if strValue then order else []
    {
      ghost var before := rows;
      var params := new CompareParam[|rows|](_ => CompareParam(0, Own(0), false));
      LendItemData(params, strValue);
      ControlSorts(order);
      assert Indices(rows) == order;
      ReturnItemData(params, strValue);
      forall i | 0 <= i < |rows| ensures rows[i] == before[order[i]] { }
    }
  }

  /** The records the rows point to. */
  ghost function Indices(rows: seq<Row>): seq<nat>
    requires forall i :: 0 <= i < |rows| ==> rows[i].data.Param?
  {
    seq(|rows|, i requires 0 <= i < |rows| && (forall i :: 0 <= i < |rows| ==> rows[i].data.Param?) => rows[i].data.index)
  }
}
