/** Popup menus of the command bar: while a menu is tracked its items are converted to owner-draw, with a heap
    record each; afterwards all menus opened are converted back, from a stack of their handles. */
module PopupMenus {
  import opened Common
  import CommandImages

  type HMenu = nat  // 0 is the null handle

  const MFT_OWNERDRAW: nat := 0x100
  const MFT_SEPARATOR: nat := 0x800
  const MAX_MENU_ITEM_TEXT_LENGTH: nat := 100

  predicate IsOwnerDraw(fType: nat) { fType / MFT_OWNERDRAW % 2 == 1 }

  predicate IsSeparator(fType: nat) { fType / MFT_SEPARATOR % 2 == 1 }

  /** `fType | MFT_OWNERDRAW` for a type without that bit. */
  function WithOwnerDraw(fType: nat): (t: nat)
    requires !IsOwnerDraw(fType)
    ensures IsOwnerDraw(t) && t != fType
  {
    fType + MFT_OWNERDRAW
  }

  /** The application's value of a menu item: none, something of the program's own, or a command-bar record (told
      apart by its magic number). */
  datatype ItemData = Null | Foreign(value: nat) | Record(ptr: nat)

  datatype MenuItem = MenuItem(id: nat, fType: nat, fState: nat, text: string, data: ItemData)

  datatype ItemRecord = ItemRecord(text: string, fType: nat, fState: nat, iButton: int)

  /** GetMenuItemInfo copies at most 99 characters and the terminator. */
  function Fetched(text: string): string {
    if |text| < MAX_MENU_ITEM_TEXT_LENGTH then text else text[..MAX_MENU_ITEM_TEXT_LENGTH - 1]
  }

  /** What cleanup makes of an item that was opened as `o`. The cleanup after TrackPopupMenu puts the saved state
      back; the one for an attached menu writes a zero state. */
  function Restored(o: MenuItem, keepState: bool): MenuItem {
    if IsOwnerDraw(o.fType) then o
    else MenuItem(o.id, o.fType, if keepState then o.fState else 0, if IsSeparator(o.fType) then "" else Fetched(o.text), Null)
  }

  /** An item comes back as it was exactly when it is foreign owner-draw or when it carried no data of its own and its
      text is shorter than 100 characters; for an attached menu its state must have been zero as well. */
  lemma RestoredExactlyIff(o: MenuItem, keepState: bool)
    requires IsSeparator(o.fType) ==> o.text == ""
    ensures Restored(o, keepState) == o
            <==> IsOwnerDraw(o.fType)
                 || (o.data.Null? && |o.text| < MAX_MENU_ITEM_TEXT_LENGTH && (keepState || o.fState == 0))
    ensures Restored(o, true).fType == o.fType && Restored(o, true).fState == o.fState && Restored(o, true).id == o.id
  {
  }

  /** Of a longer text the first 99 characters come back; a separator has no text. */
  lemma TextRestored(o: MenuItem, keepState: bool)
    requires !IsOwnerDraw(o.fType)
    ensures Restored(o, keepState).text == if IsSeparator(o.fType) then "" else if |o.text| <= 99 then o.text else o.text[..99]
  {
  }

  /** The two type flags the code looks at are bits 8 and 11. */
  lemma OwnerDrawFlag(fType: nat)
    ensures IsOwnerDraw(fType) <==> fType % 0x200 >= 0x100
  {
    assert fType / 0x100 == 2 * (fType / 0x200) + if fType % 0x200 >= 0x100 then 1 else 0;
  }

  lemma SeparatorFlag(fType: nat)
    ensures IsSeparator(fType) <==> fType % 0x1000 >= 0x800
  {
    assert fType / 0x800 == 2 * (fType / 0x1000) + if fType % 0x1000 >= 0x800 then 1 else 0;
  }

  /** It happens: a disabled item of an attached menu comes back enabled, and an item loses its data in either case. */
  lemma NotRestored()
    ensures var disabled := MenuItem(1, 0, 3, "Open", Null);
            Restored(disabled, true) == disabled && Restored(disabled, false).fState == 0
    ensures forall keepState :: Restored(MenuItem(1, 0, 0, "Open", Foreign(5)), keepState).data == Null
  {
  }

  /** The converted form of `o`: owner-draw, without text of its own, pointing to a record that holds the rest. */
  ghost predicate ConvertedFrom(o: MenuItem, item: MenuItem, records: map<nat, ItemRecord>) {
    && !IsOwnerDraw(o.fType) && item.data.Record? && item.data.ptr in records
    && item == MenuItem(o.id, WithOwnerDraw(o.fType), o.fState, "", item.data)
    && var r := records[item.data.ptr];
    && r.fType == o.fType && r.fState == o.fState && (!IsSeparator(o.fType) ==> r.text == Fetched(o.text))
  }

  /** The item that was opened as `o`, untouched if its menu was not opened or it is foreign owner-draw, else converted. */
  ghost predicate ItemOk(o: MenuItem, item: MenuItem, records: map<nat, ItemRecord>, shown: bool) {
    if !shown || IsOwnerDraw(o.fType) then item == o && !o.data.Record? else ConvertedFrom(o, item, records)
  }

  /** The same during the cleanup, where items are converted still or restored. */
  ghost predicate CleanOk(o: MenuItem, item: MenuItem, records: map<nat, ItemRecord>, shown: bool, keepState: bool) {
    ItemOk(o, item, records, shown) || (shown && !IsOwnerDraw(o.fType) && item == Restored(o, keepState))
  }

  /** An item: its menu and its position there. */
  datatype Loc = Loc(menu: HMenu, pos: nat)

  /** The menus in `shown` have been converted, and so have the items below `upto` of the menu `cur`. */
  ghost predicate ItemsOk(original: map<Loc, MenuItem>, items: map<Loc, MenuItem>, records: map<nat, ItemRecord>,
                          shown: set<HMenu>, cur: HMenu, upto: nat) {
    && items.Keys == original.Keys
    && forall l :: l in items ==> ItemOk(original[l], items[l], records, l.menu in shown || (l.menu == cur && l.pos < upto))
  }

  ghost predicate Cleaning(original: map<Loc, MenuItem>, items: map<Loc, MenuItem>, records: map<nat, ItemRecord>,
                           shown: set<HMenu>, keepState: bool) {
    && items.Keys == original.Keys
    && forall l :: l in items ==> CleanOk(original[l], items[l], records, l.menu in shown, keepState)
  }

  /** Records and converted items correspond one to one, and every converted item belongs to a menu in `live`. */
  ghost predicate OwnersOk(items: map<Loc, MenuItem>, records: map<nat, ItemRecord>, owner: map<nat, Loc>, live: set<HMenu>) {
    && owner.Keys == records.Keys
    && (forall p :: p in owner ==> owner[p] in items && items[owner[p]].data == Record(p) && owner[p].menu in live)
    && (forall l :: l in items && items[l].data.Record? ==> items[l].data.ptr in owner && owner[items[l].data.ptr] == l)
  }

  /** Of the records made so far, those in use have not been freed and all others have been freed once. */
  ghost predicate RecordsOk(records: map<nat, ItemRecord>, next: nat, freed: multiset<nat>) {
    && (forall p :: p in records ==> p < next)
    && (forall p: nat :: freed[p] == if p < next && p !in records then 1 else 0)
  }

  /** `iButton` is the first index of the command, or -1 if the command has no image. */
  ghost predicate RightImage(commands: seq<nat>, id: nat, iButton: int) {
    if iButton == -1 then id !in commands
    else 0 <= iButton < |commands| && commands[iButton] == id && id !in commands[..iButton]
  }

  /** The record of every converted item refers to the image of the item's command. */
  ghost predicate ImagesOk(items: map<Loc, MenuItem>, records: map<nat, ItemRecord>, commands: seq<nat>) {
    forall l :: l in items && items[l].data.Record? ==>
      items[l].data.ptr in records && RightImage(commands, items[l].id, records[items[l].data.ptr].iButton)
  }

  lemma ConvertKeepsImages(items: map<Loc, MenuItem>, records: map<nat, ItemRecord>, commands: seq<nat>, l: Loc, p: nat, r: ItemRecord)
    requires ImagesOk(items, records, commands) && l in items && !IsOwnerDraw(items[l].fType) && p !in records
    requires RightImage(commands, items[l].id, r.iButton)
    ensures ImagesOk(items[l := Converted(items[l], p)], records[p := r], commands)
  {
  }

  function Members(s: seq<HMenu>): set<HMenu> { set h | h in s }

  function Converted(item: MenuItem, p: nat): MenuItem
    requires !IsOwnerDraw(item.fType)
  {
    item.(fType := WithOwnerDraw(item.fType), text := "", data := Record(p))
  }

  lemma ConvertKeepsItems(original: map<Loc, MenuItem>, items: map<Loc, MenuItem>, records: map<nat, ItemRecord>,
                          shown: set<HMenu>, l: Loc, p: nat, r: ItemRecord)
    requires ItemsOk(original, items, records, shown, l.menu, l.pos)
    requires l in items && !IsOwnerDraw(items[l].fType) && p !in records
    requires r.fType == items[l].fType && r.fState == items[l].fState && (!IsSeparator(r.fType) ==> r.text == Fetched(items[l].text))
    ensures ItemsOk(original, items[l := Converted(items[l], p)], records[p := r], shown, l.menu, l.pos + 1)
  {
    var items', records' := items[l := Converted(items[l], p)], records[p := r];
    forall k | k in items'
      ensures ItemOk(original[k], items'[k], records', k.menu in shown || (k.menu == l.menu && k.pos < l.pos + 1))
    {
      assert ItemOk(original[k], items[k], records, k.menu in shown || (k.menu == l.menu && k.pos < l.pos));
      if k != l { assert !(k.menu == l.menu && k.pos == l.pos); }
    }
  }

  /** An item that is owner-draw when it is reached needs nothing; one that is not carries no record yet. */
  lemma ReachItem(original: map<Loc, MenuItem>, items: map<Loc, MenuItem>, records: map<nat, ItemRecord>,
                  shown: set<HMenu>, l: Loc)
    requires ItemsOk(original, items, records, shown, l.menu, l.pos) && l in items
    ensures IsOwnerDraw(items[l].fType) ==> ItemsOk(original, items, records, shown, l.menu, l.pos + 1)
    ensures !IsOwnerDraw(items[l].fType) ==> !items[l].data.Record?
  {
    forall k | k in items && IsOwnerDraw(items[l].fType)
      ensures ItemOk(original[k], items[k], records, k.menu in shown || (k.menu == l.menu && k.pos < l.pos + 1))
    {
      assert ItemOk(original[k], items[k], records, k.menu in shown || (k.menu == l.menu && k.pos < l.pos));
      if k != l { assert !(k.menu == l.menu && k.pos == l.pos); }
    }
  }

  /** Nothing of the menu has been converted, or all of it. */
  lemma MenuBegins(original: map<Loc, MenuItem>, items: map<Loc, MenuItem>, records: map<nat, ItemRecord>,
                   shown: set<HMenu>, h: HMenu, h': HMenu)
    requires ItemsOk(original, items, records, shown, h, 0)
    ensures ItemsOk(original, items, records, shown, h', 0)
  {
    forall k | k in items ensures ItemOk(original[k], items[k], records, k.menu in shown) {
      assert ItemOk(original[k], items[k], records, k.menu in shown || (k.menu == h && k.pos < 0));
    }
  }

  lemma MenuDone(original: map<Loc, MenuItem>, items: map<Loc, MenuItem>, records: map<nat, ItemRecord>,
                 shown: set<HMenu>, h: HMenu, n: nat)
    requires ItemsOk(original, items, records, shown, h, n) && forall l :: l in items && l.menu == h ==> l.pos < n
    ensures ItemsOk(original, items, records, shown + {h}, 0, 0)
  {
    forall k | k in items ensures ItemOk(original[k], items[k], records, k.menu in shown + {h}) {
      assert ItemOk(original[k], items[k], records, k.menu in shown || (k.menu == h && k.pos < n));
    }
  }

  lemma NewRecordOk(records: map<nat, ItemRecord>, next: nat, freed: multiset<nat>, r: ItemRecord)
    requires RecordsOk(records, next, freed)
    ensures next !in records && RecordsOk(records[next := r], next + 1, freed)
  {
  }

  lemma ConvertKeepsOwners(items: map<Loc, MenuItem>, records: map<nat, ItemRecord>, owner: map<nat, Loc>, live: set<HMenu>,
                           l: Loc, p: nat, r: ItemRecord)
    requires OwnersOk(items, records, owner, live)
    requires l in items && l.menu in live && !items[l].data.Record? && !IsOwnerDraw(items[l].fType) && p !in records
    ensures OwnersOk(items[l := Converted(items[l], p)], records[p := r], owner[p := l], live)
  {
  }

  /** The record of an item holds what the item was. */
  lemma RecordHolds(original: map<Loc, MenuItem>, items: map<Loc, MenuItem>, records: map<nat, ItemRecord>,
                    shown: set<HMenu>, l: Loc, p: nat, keepState: bool)
    requires Cleaning(original, items, records, shown, keepState) && l in items && items[l].data == Record(p)
    ensures p in records && !IsOwnerDraw(original[l].fType) && l.menu in shown
    ensures var r := records[p];
            Restored(original[l], keepState) == MenuItem(items[l].id, r.fType, if keepState then r.fState else 0,
                                                         if IsSeparator(r.fType) then "" else r.text, Null)
  {
    assert CleanOk(original[l], items[l], records, l.menu in shown, keepState);
  }

  lemma RestoreKeepsItems(original: map<Loc, MenuItem>, items: map<Loc, MenuItem>, records: map<nat, ItemRecord>, owner: map<nat, Loc>,
                          live: set<HMenu>, shown: set<HMenu>, l: Loc, p: nat, keepState: bool)
    requires Cleaning(original, items, records, shown, keepState) && OwnersOk(items, records, owner, live)
    requires l in items && items[l].data == Record(p) && !IsOwnerDraw(original[l].fType) && l.menu in shown
    ensures Cleaning(original, items[l := Restored(original[l], keepState)], records - {p}, shown, keepState)
  {
    var items', records' := items[l := Restored(original[l], keepState)], records - {p};
    forall k | k in items' ensures CleanOk(original[k], items'[k], records', k.menu in shown, keepState) {
      assert CleanOk(original[k], items[k], records, k.menu in shown, keepState);
      if k != l && items[k].data.Record? { assert owner[items[k].data.ptr] == k && owner[p] == l; }
    }
  }

  lemma RestoreKeepsOwners(items: map<Loc, MenuItem>, records: map<nat, ItemRecord>, owner: map<nat, Loc>, live: set<HMenu>,
                           l: Loc, p: nat, item: MenuItem)
    requires OwnersOk(items, records, owner, live) && l in items && items[l].data == Record(p) && !item.data.Record?
    ensures OwnersOk(items[l := item], records - {p}, owner - {p}, live)
  {
    var items', owner' := items[l := item], owner - {p};
    forall q | q in owner' ensures owner'[q] in items' && items'[owner'[q]].data == Record(q) && owner'[q].menu in live {
      assert items[owner[q]].data == Record(q);
    }
    forall k | k in items' && items'[k].data.Record? ensures items'[k].data.ptr in owner' && owner'[items'[k].data.ptr] == k {
      assert owner[items[k].data.ptr] == k && owner[p] == l;
    }
  }

  lemma FreedRecordOk(records: map<nat, ItemRecord>, next: nat, freed: multiset<nat>, p: nat)
    requires RecordsOk(records, next, freed) && p in records
    ensures RecordsOk(records - {p}, next, freed[p := freed[p] + 1])
  {
  }

  /** The items of a menu below `n` carry no records. */
  ghost predicate Clear(items: map<Loc, MenuItem>, h: HMenu, n: nat) {
    forall l :: l in items && l.menu == h && l.pos < n ==> !items[l].data.Record?
  }

  lemma ClearNext(before: map<Loc, MenuItem>, items: map<Loc, MenuItem>, h: HMenu, n: nat)
    requires Clear(before, h, n) && Loc(h, n) in items && !items[Loc(h, n)].data.Record?
    requires items == before[Loc(h, n) := items[Loc(h, n)]]
    ensures Clear(items, h, n + 1)
  {
    forall l | l in items && l.menu == h && l.pos < n + 1 ensures !items[l].data.Record? {
      if l.pos == n { assert l == Loc(h, n); }
    }
  }

  /** Once the items of a menu carry no records, it need not be on the stack any more. */
  lemma NoneLeftIn(items: map<Loc, MenuItem>, records: map<nat, ItemRecord>, owner: map<nat, Loc>, below: set<HMenu>, h: HMenu, n: nat)
    requires OwnersOk(items, records, owner, below + {h, 0})
    requires forall l :: l in items && l.menu == h ==> l.pos < n
    requires Clear(items, h, n)
    ensures OwnersOk(items, records, owner, below + {0})
  {
    forall p | p in owner ensures owner[p].menu in below + {0} {
      assert owner[p] == Loc(owner[p].menu, owner[p].pos);
    }
  }

  lemma StackMembers(before: seq<HMenu>, after: seq<HMenu>, h: HMenu)
    requires if before == [] then h == 0 && after == [] else before == after + [h]
    ensures Members(before) + {0} == Members(after) + {h, 0} && Members(after) <= Members(before)
    ensures before != [] ==> h in Members(before)
  {
    if before != [] {
      assert before[|before| - 1] == h;
      forall x | x in after ensures x in before { }
    }
  }

  /** When no menu is left to restore, all records are gone and all items are as they should be. */
  lemma AllRestored(original: map<Loc, MenuItem>, items: map<Loc, MenuItem>, records: map<nat, ItemRecord>, owner: map<nat, Loc>,
                    shown: set<HMenu>, keepState: bool)
    requires Cleaning(original, items, records, shown, keepState) && OwnersOk(items, records, owner, {0})
    requires forall l :: l in items ==> l.menu != 0
    ensures records == map[] && owner == map[] && items == Cleaned(original, shown, keepState)
    ensures forall l :: l in items ==> !items[l].data.Record?
  {
    assert forall p :: p in owner ==> owner[p].menu == 0 && owner[p] in items;
    assert owner.Keys == {};
    forall l | l in items
      ensures !items[l].data.Record? && items[l] == if l.menu in shown then Restored(original[l], keepState) else original[l]
    {
      assert CleanOk(original[l], items[l], records, l.menu in shown, keepState);
    }
  }

  lemma CleaningMayStart(original: map<Loc, MenuItem>, items: map<Loc, MenuItem>, records: map<nat, ItemRecord>,
                         shown: set<HMenu>, keepState: bool)
    requires ItemsOk(original, items, records, shown, 0, 0)
    ensures Cleaning(original, items, records, shown, keepState)
  {
    forall l | l in items ensures CleanOk(original[l], items[l], records, l.menu in shown, keepState) {
      assert ItemOk(original[l], items[l], records, l.menu in shown || (l.menu == 0 && l.pos < 0));
    }
  }

  /** What a tracking during which the menus in `shown` were converted leaves of the items. */
  ghost function Cleaned(before: map<Loc, MenuItem>, shown: set<HMenu>, keepState: bool): map<Loc, MenuItem> {
    map l | l in before :: if l.menu in shown then Restored(before[l], keepState) else before[l]
  }

  /** A menu that opens: a popup of the bar or of some menu, or the system menu. */
  datatype Popup = Popup(menu: HMenu, system: bool)

  /** The menus opened that are not the system menu. */
  function Opened(popups: seq<Popup>): set<HMenu> {
    if popups == [] then {}
    else
      var last := popups[|popups| - 1];
      Opened(popups[..|popups| - 1]) + if last.system then {} else {last.menu}
  }

  /** The menus converted by a command bar that converts menus, or by one that does not. */
  function ShownBy(popups: seq<Popup>, converts: bool): set<HMenu> { if converts then Opened(popups) else {} }

  function Shows(popup: Popup, converts: bool): set<HMenu> { if converts && !popup.system then {popup.menu} else {} }

  lemma OpenedIs(popups: seq<Popup>, h: HMenu)
    ensures h in Opened(popups) <==> Popup(h, false) in popups
  {
    if popups != [] {
      var before, last := popups[..|popups| - 1], popups[|popups| - 1];
      OpenedIs(before, h);
      assert popups == before + [last];
    }
  }

  lemma ShownNext(popups: seq<Popup>, k: nat, converts: bool)
    requires k < |popups|
    ensures ShownBy(popups[..k + 1], converts) == ShownBy(popups[..k], converts) + Shows(popups[k], converts)
  {
    var after := popups[..k + 1];
    assert after[..k] == popups[..k] && after[k] == popups[k];
  }

  class CommandBar {
    var counts: map<HMenu, nat>  // GetMenuItemCount
    var items: map<Loc, MenuItem>
    var bitmaps: map<Loc, Option<nat>>  // the bitmaps of menu items, set by the command bar only
    var records: map<nat, ItemRecord>  // the heap records in use
    var nextRecord: nat
    var stackMenuHandle: seq<HMenu>
    var arrCommand: seq<nat>
    var arrVistaBitmap: seq<nat>
    var imagesVisible: bool
    var attachedMenu: bool
    var menuActive: bool
    var vistaMenus: bool
    ghost var freed: multiset<nat>
    ghost var owner: map<nat, Loc>  // the item each record belongs to

    ghost predicate Menus()
      reads this`counts, this`items, this`vistaMenus, this`arrCommand, this`arrVistaBitmap
    {
      && 0 !in counts && (forall l :: l in items <==> l.menu in counts && l.pos < counts[l.menu])
      && (vistaMenus ==> |arrVistaBitmap| == |arrCommand|)
    }

    /** Menus that open are converted now. */
    predicate Converts()
      reads this`attachedMenu, this`menuActive, this`vistaMenus, this`imagesVisible
    {
      (attachedMenu || menuActive) && !vistaMenus && imagesVisible
    }

    /** The state of one tracking that began with the items `original`; the items below `upto` of the menu `cur` have
        been dealt with. */
    ghost predicate Tracking(original: map<Loc, MenuItem>, shown: set<HMenu>, cur: HMenu, upto: nat)
      reads this`counts, this`items, this`vistaMenus, this`arrCommand, this`arrVistaBitmap
      reads this`records, this`owner, this`nextRecord, this`freed, this`stackMenuHandle
    {
      && Menus() && Members(stackMenuHandle) <= shown <= counts.Keys
      && ItemsOk(original, items, records, shown, cur, upto)
      && OwnersOk(items, records, owner, Members(stackMenuHandle) + {cur})
      && RecordsOk(records, nextRecord, freed)
      && ImagesOk(items, records, arrCommand)
    }

    method Push(h: HMenu)
      modifies this`stackMenuHandle
      ensures stackMenuHandle == old(stackMenuHandle) + [h]
    {
      stackMenuHandle := stackMenuHandle + [h];
    }

    method Pop() returns (h: HMenu)
      modifies this`stackMenuHandle
      ensures old(stackMenuHandle) == [] ==> h == 0 && stackMenuHandle == []
      ensures old(stackMenuHandle) != [] ==> old(stackMenuHandle) == stackMenuHandle + [h]
    {
      if |stackMenuHandle| == 0 {
        return 0;
      }
      h := stackMenuHandle[|stackMenuHandle| - 1];
      stackMenuHandle := stackMenuHandle[..|stackMenuHandle| - 1];
    }

    /** The image of a command: its first index in m_arrCommand, or -1. */
    method ButtonIndex(id: nat) returns (j: int)
      ensures -1 <= j < |arrCommand|
      ensures j == -1 ==> id !in arrCommand
      ensures j >= 0 ==> arrCommand[j] == id && id !in arrCommand[..j]
      ensures RightImage(arrCommand, id, j)
    {
      j := 0;
      while j < |arrCommand|
        invariant 0 <= j <= |arrCommand| && id !in arrCommand[..j]
      {
        if arrCommand[j] == id { return; }
        j := j + 1;
      }
      return -1;
    }

    /** Converts an item, unless it is owner-draw already. `szString` is the buffer the text is fetched into;
        separators leave it as it was. */
    method ConvertItem(l: Loc, szString: string, ghost original: map<Loc, MenuItem>, ghost shown: set<HMenu>) returns (szString': string)
      requires l in items && Tracking(original, shown, l.menu, l.pos)
      modifies this`items, this`records, this`nextRecord, this`owner
      ensures Tracking(original, shown, l.menu, l.pos + 1)
    {
      ReachItem(original, items, records, shown, l);
      var item := items[l];
      szString' := if IsSeparator(item.fType) then szString else Fetched(item.text);
      if !IsOwnerDraw(item.fType) {
        var iButton := ButtonIndex(item.id);
        var p := nextRecord;
        var r := ItemRecord(szString', item.fType, item.fState, iButton);
        var converted := item.(fType := WithOwnerDraw(item.fType), text := "", data := Record(p));
        assert converted == Converted(items[l], p);
        NewRecordOk(records, p, freed, r);
        ConvertKeepsItems(original, items, records, shown, l, p, r);
        ConvertKeepsOwners(items, records, owner, Members(stackMenuHandle) + {l.menu}, l, p, r);
        ConvertKeepsImages(items, records, arrCommand, l, p, r);
        StoreRecord(l, r, converted, original, shown);
      }
    }

    /** Puts a new record beside the heap records in use and its item's new form into the menu. */
    method StoreRecord(l: Loc, r: ItemRecord, converted: MenuItem, ghost original: map<Loc, MenuItem>, ghost shown: set<HMenu>)
      requires l in items && Tracking(original, shown, l.menu, l.pos)
      requires ItemsOk(original, items[l := converted], records[nextRecord := r], shown, l.menu, l.pos + 1)
      requires OwnersOk(items[l := converted], records[nextRecord := r], owner[nextRecord := l], Members(stackMenuHandle) + {l.menu})
      requires RecordsOk(records[nextRecord := r], nextRecord + 1, freed)
      requires ImagesOk(items[l := converted], records[nextRecord := r], arrCommand)
      modifies this`items, this`records, this`nextRecord, this`owner
      ensures Tracking(original, shown, l.menu, l.pos + 1)
    {
      records := records[nextRecord := r];
      owner := owner[nextRecord := l];
      items := items[l := converted];
      nextRecord := nextRecord + 1;
    }

    /** WM_INITMENUPOPUP: nothing for the system menu and for menus that are not the bar's; bitmaps only, with Vista
        menus; otherwise the items are converted and the menu is pushed, unless images are switched off. */
    method OnInitMenuPopup(popup: Popup, ghost original: map<Loc, MenuItem>, ghost shown: set<HMenu>, ghost shown': set<HMenu>)
      requires popup.menu in counts && Tracking(original, shown, 0, 0) && shown' == shown + Shows(popup, Converts())
      modifies this`items, this`records, this`nextRecord, this`owner, this`stackMenuHandle, this`bitmaps
      ensures Tracking(original, shown', 0, 0)
      ensures if Converts() && !popup.system then stackMenuHandle == old(stackMenuHandle) + [popup.menu]
              else stackMenuHandle == old(stackMenuHandle) && items == old(items)
      ensures if vistaMenus && (attachedMenu || menuActive) && !popup.system then
                VistaShown(popup.menu) && BitmapsKept(old(bitmaps), bitmaps, popup.menu)
              else bitmaps == old(bitmaps)
    {
      if popup.system {
        return;
      }
      if !(attachedMenu || menuActive) {
        return;
      }
      if vistaMenus {
        SetBitmaps(popup.menu);
        return;
      }
      if imagesVisible {
        ConvertMenu(popup.menu, original, shown);
      }
    }

    /** Converts the items of a menu and pushes it. */
    method ConvertMenu(h: HMenu, ghost original: map<Loc, MenuItem>, ghost shown: set<HMenu>)
      requires h in counts && Tracking(original, shown, 0, 0)
      modifies this`items, this`records, this`nextRecord, this`owner, this`stackMenuHandle
      ensures Tracking(original, shown + {h}, 0, 0) && stackMenuHandle == old(stackMenuHandle) + [h]
    {
      ConvertItems(h, original, shown);
      MenuDone(original, items, records, shown, h, counts[h]);
      PushMembers(stackMenuHandle, h);
      OwnersMove(items, records, owner, Members(stackMenuHandle) + {h}, Members(stackMenuHandle + [h]) + {0});
      Push(h);
    }

    method ConvertItems(h: HMenu, ghost original: map<Loc, MenuItem>, ghost shown: set<HMenu>)
      requires h in counts && Tracking(original, shown, 0, 0)
      modifies this`items, this`records, this`nextRecord, this`owner
      ensures Tracking(original, shown, h, counts[h])
    {
      MenuBegins(original, items, records, shown, 0, h);
      NoneInNullMenu(items, records, owner, Members(stackMenuHandle), h);
      var szString := "";
      var i := 0;
      while i < counts[h]
        invariant 0 <= i <= counts[h] && Tracking(original, shown, h, i)
      {
        szString := ConvertItem(Loc(h, i), szString, original, shown);
        i := i + 1;
      }
    }

    /** What the items of a menu show with Vista menus. */
    ghost predicate VistaShown(h: HMenu)
      requires vistaMenus ==> |arrVistaBitmap| == |arrCommand|
      reads this
    {
      vistaMenus && forall l :: l in items && l.menu == h ==> l in bitmaps && bitmaps[l] == Bitmap(items[l].id)
    }

    ghost function Bitmap(id: nat): Option<nat>
      requires |arrVistaBitmap| == |arrCommand|
      reads this
    {
      if imagesVisible then CommandImages.ImageOf(arrCommand, arrVistaBitmap, id % 0x1_0000) else None
    }

    /** Gives every item the bitmap of its command, or none. */
    method SetBitmaps(h: HMenu)
      requires h in counts && Menus() && vistaMenus
      modifies this`bitmaps
      ensures VistaShown(h) && BitmapsKept(old(bitmaps), bitmaps, h)
      ensures forall l :: l in items && l.menu == h ==>
                l in bitmaps && (bitmaps[l].Some? <==> imagesVisible && items[l].id % 0x1_0000 in arrCommand)
    {
      var i := 0;
      while i < counts[h]
        invariant 0 <= i <= counts[h] && BitmapsKept(old(bitmaps), bitmaps, h)
        invariant forall l :: l in items && l.menu == h && l.pos < i ==> l in bitmaps && bitmaps[l] == Bitmap(items[l].id)
      {
        var nID := items[Loc(h, i)].id % 0x1_0000;
        var nIndex := ButtonIndex(nID);
        CommandImages.ImageOfFirst(arrCommand, arrVistaBitmap, nID, nIndex);
        bitmaps := bitmaps[Loc(h, i) := if imagesVisible && nIndex != -1 then Some(arrVistaBitmap[nIndex]) else None];
        i := i + 1;
      }
      forall l | l in items && l.menu == h ensures bitmaps[l].Some? <==> imagesVisible && items[l].id % 0x1_0000 in arrCommand {
        CommandImages.ImageOfSome(arrCommand, arrVistaBitmap, items[l].id % 0x1_0000);
      }
    }

    /** `delete` of a record, which must be in use. */
    method Delete(p: nat)
      requires p in records && RecordsOk(records, nextRecord, freed)
      modifies this`records, this`freed
      ensures records == old(records) - {p} && RecordsOk(records, nextRecord, freed)
      ensures freed == old(freed)[p := old(freed)[p] + 1]
    {
      FreedRecordOk(records, nextRecord, freed, p);
      records := records - {p};
      freed := freed[p := freed[p] + 1];
    }

    /** Restores an item that carries a command-bar record and frees the record, whose `delete` must find it in use. */
    method RestoreItem(l: Loc, keepState: bool, ghost original: map<Loc, MenuItem>, ghost shown: set<HMenu>, ghost live: set<HMenu>)
      requires l in items && Cleaning(original, items, records, shown, keepState)
      requires OwnersOk(items, records, owner, live) && RecordsOk(records, nextRecord, freed)
      modifies this`items, this`records, this`freed, this`owner
      ensures Cleaning(original, items, records, shown, keepState)
      ensures OwnersOk(items, records, owner, live) && RecordsOk(records, nextRecord, freed)
      ensures items.Keys == old(items.Keys) && !items[l].data.Record? && items == old(items)[l := items[l]]
    {
      var item := items[l];
      if item.data.Record? {
        var p := item.data.ptr;
        RecordHolds(original, items, records, shown, l, p, keepState);
        var r := records[p];
        var restored := MenuItem(item.id, r.fType, if keepState then r.fState else 0, if IsSeparator(r.fType) then "" else r.text, Null);
        assert restored == Restored(original[l], keepState);
        RestoreKeepsItems(original, items, records, owner, live, shown, l, p, keepState);
        RestoreKeepsOwners(items, records, owner, live, l, p, restored);
        items := items[l := restored];
        owner := owner - {p};
        Delete(p);
      }
    }

    /** Restores the items of one menu. */
    method RestoreMenu(h: HMenu, keepState: bool, ghost original: map<Loc, MenuItem>, ghost shown: set<HMenu>, ghost below: set<HMenu>)
      requires Menus() && h in counts && Cleaning(original, items, records, shown, keepState)
      requires OwnersOk(items, records, owner, below + {h, 0}) && RecordsOk(records, nextRecord, freed)
      modifies this`items, this`records, this`freed, this`owner
      ensures Menus() && items.Keys == old(items.Keys) && Cleaning(original, items, records, shown, keepState)
      ensures OwnersOk(items, records, owner, below + {0}) && RecordsOk(records, nextRecord, freed)
    {
      var i := 0;
      while i < counts[h]
        invariant 0 <= i <= counts[h] && Menus() && items.Keys == old(items.Keys)
        invariant Clear(items, h, i)
        invariant Cleaning(original, items, records, shown, keepState)
        invariant OwnersOk(items, records, owner, below + {h, 0}) && RecordsOk(records, nextRecord, freed)
      {
        ghost var before := items;
        RestoreItem(Loc(h, i), keepState, original, shown, below + {h, 0});
        ClearNext(before, items, h, i);
        i := i + 1;
      }
      NoneLeftIn(items, records, owner, below, h, counts[h]);
    }

    /** The cleanup loop: pops menu after menu and restores its items. DoTrackPopupMenu keeps the saved state; the
        handler of the closing menu, in OnMenuSelect, does not. */
    method RestoreMenus(keepState: bool, ghost original: map<Loc, MenuItem>, ghost shown: set<HMenu>)
      requires Menus() && Members(stackMenuHandle) <= shown <= counts.Keys && Cleaning(original, items, records, shown, keepState)
      requires OwnersOk(items, records, owner, Members(stackMenuHandle) + {0}) && RecordsOk(records, nextRecord, freed)
      modifies this`items, this`records, this`freed, this`owner, this`stackMenuHandle
      ensures Quiet() && items == Cleaned(original, shown, keepState)
    {
      ghost var before := stackMenuHandle;
      var h := Pop();
      StackMembers(before, stackMenuHandle, h);
      while h != 0
        invariant Menus() && items.Keys == old(items.Keys)
        invariant h == 0 ==> stackMenuHandle == []
        invariant Members(stackMenuHandle) <= shown && (h == 0 || h in shown)
        invariant Cleaning(original, items, records, shown, keepState)
        invariant OwnersOk(items, records, owner, Members(stackMenuHandle) + {h, 0}) && RecordsOk(records, nextRecord, freed)
        decreases |stackMenuHandle| + if h == 0 then 0 else 1
      {
        RestoreMenu(h, keepState, original, shown, Members(stackMenuHandle));
        before := stackMenuHandle;
        h := Pop();
        StackMembers(before, stackMenuHandle, h);
      }
      assert Members(stackMenuHandle) + {h, 0} == {0};
      AllRestored(original, items, records, owner, shown, keepState);
    }

    /** No menu is converted, and no record is in use. */
    ghost predicate Quiet()
      reads this`counts, this`items, this`vistaMenus, this`arrCommand, this`arrVistaBitmap
      reads this`records, this`owner, this`nextRecord, this`freed, this`stackMenuHandle
    {
      && Menus() && stackMenuHandle == [] && records == map[] && owner == map[]
      && (forall l :: l in items ==> !items[l].data.Record?)
      && RecordsOk(records, nextRecord, freed)
    }

    /** No menu is being tracked. */
    ghost predicate Idle()
      reads this
    {
      Quiet() && !menuActive
    }

    /** Any menus open, any of them repeatedly. */
    method OpenPopups(popups: seq<Popup>, ghost original: map<Loc, MenuItem>, ghost converts: bool)
      requires Tracking(original, {}, 0, 0) && converts == Converts() && forall k :: 0 <= k < |popups| ==> popups[k].menu in counts
      modifies this`items, this`records, this`nextRecord, this`owner, this`stackMenuHandle, this`bitmaps
      ensures Tracking(original, ShownBy(popups, converts), 0, 0)
    {
      ghost var shown := {};
      var k := 0;
      while k < |popups|
        invariant 0 <= k <= |popups| && Tracking(original, shown, 0, 0)
        invariant shown == ShownBy(popups[..k], converts)
      {
        ghost var shown' := ShownBy(popups[..k + 1], converts);
        ShownNext(popups, k, converts);
        OnInitMenuPopup(popups[k], original, shown, shown');
        shown := shown';
        k := k + 1;
      }
      assert popups[..k] == popups;
    }

    lemma NothingShown()
      requires Quiet()
      ensures Tracking(items, {}, 0, 0)
    {
    }

    /** The cleanup, if images are visible; if they are not, no menu has been converted. */
    method CleanUp(keepState: bool, ghost original: map<Loc, MenuItem>, ghost shown: set<HMenu>)
      requires Tracking(original, shown, 0, 0) && (imagesVisible || shown == {})
      modifies this`items, this`records, this`freed, this`owner, this`stackMenuHandle
      ensures Quiet() && items == Cleaned(original, shown, keepState)
    {
      if imagesVisible {
        CleaningMayStart(original, items, records, shown, keepState);
        RestoreMenus(keepState, original, shown);
      } else {
        NothingToClean(original, keepState);
      }
    }

    /** DoTrackPopupMenu, during which the given menus open. */
    method DoTrackPopupMenu(popups: seq<Popup>)
      requires Idle() && forall k :: 0 <= k < |popups| ==> popups[k].menu in counts
      modifies this`items, this`records, this`nextRecord, this`owner, this`freed, this`stackMenuHandle, this`bitmaps, this`menuActive
      ensures Idle() && items == Cleaned(old(items), ShownBy(popups, old(imagesVisible && !vistaMenus)), true)
    {
      ghost var original, converts := items, imagesVisible && !vistaMenus;
      NothingShown();
      TrackPopupMenu(popups, original, converts);
      CleanUp(true, original, ShownBy(popups, converts));
    }

    /** TrackPopupMenuEx: the bar's own menu is active meanwhile. */
    method TrackPopupMenu(popups: seq<Popup>, ghost original: map<Loc, MenuItem>, ghost converts: bool)
      requires Tracking(original, {}, 0, 0) && forall k :: 0 <= k < |popups| ==> popups[k].menu in counts
      requires converts == (imagesVisible && !vistaMenus)
      modifies this`items, this`records, this`nextRecord, this`owner, this`stackMenuHandle, this`bitmaps, this`menuActive
      ensures Tracking(original, ShownBy(popups, converts), 0, 0) && !menuActive
    {
      menuActive := true;
      OpenPopups(popups, original, converts);
      menuActive := false;
    }

    /** An attached menu, from the first menu that opens to the OnMenuSelect that closes it. A bar whose menu is not
        attached leaves all menus alone. */
    method UseAttachedMenu(popups: seq<Popup>)
      requires Idle() && forall k :: 0 <= k < |popups| ==> popups[k].menu in counts
      modifies this`items, this`records, this`nextRecord, this`owner, this`freed, this`stackMenuHandle, this`bitmaps
      ensures Quiet() && items == Cleaned(old(items), ShownBy(popups, old(attachedMenu && imagesVisible && !vistaMenus)), false)
    {
      ghost var original, converts := items, attachedMenu && imagesVisible && !vistaMenus;
      NothingShown();
      OpenPopups(popups, original, converts);
      OnMenuSelect(original, ShownBy(popups, converts), converts);
    }

    /** The message for the closing menu; other menu messages change nothing. */
    method OnMenuSelect(ghost original: map<Loc, MenuItem>, ghost shown: set<HMenu>, ghost converts: bool)
      requires Tracking(original, shown, 0, 0) && if converts then attachedMenu && imagesVisible else shown == {}
      modifies this`items, this`records, this`freed, this`owner, this`stackMenuHandle
      ensures Quiet() && items == Cleaned(original, shown, false)
    {
      if !attachedMenu {
        NothingToClean(original, false);
        return;
      }
      CleanUp(false, original, shown);
    }

    /** Without a menu converted there is nothing to restore. */
    lemma NothingToClean(original: map<Loc, MenuItem>, keepState: bool)
      requires Tracking(original, {}, 0, 0)
      ensures Quiet() && items == Cleaned(original, {}, keepState)
    {
      CleaningMayStart(original, items, records, {}, keepState);
      NoMembers(stackMenuHandle);
      AllRestored(original, items, records, owner, {}, keepState);
    }
  }

  /** Only the bitmaps of one menu have changed. */
  ghost predicate BitmapsKept(before: map<Loc, Option<nat>>, after: map<Loc, Option<nat>>, h: HMenu) {
    forall l: Loc :: l.menu != h ==> (l in after <==> l in before) && (l in before ==> after[l] == before[l])
  }

  lemma NoMembers(s: seq<HMenu>)
    ensures s != [] ==> Members(s) != {}
  {
    if s != [] { assert s[0] in Members(s); }
  }

  lemma PushMembers(s: seq<HMenu>, h: HMenu)
    ensures Members(s + [h]) == Members(s) + {h}
  {
    forall x | x in s + [h] ensures x in Members(s) + {h} { }
    forall x | x in s ensures x in s + [h] { }
    assert h in s + [h] by { assert (s + [h])[|s|] == h; }
  }

  lemma NoneInNullMenu(items: map<Loc, MenuItem>, records: map<nat, ItemRecord>, owner: map<nat, Loc>, live: set<HMenu>, h: HMenu)
    requires OwnersOk(items, records, owner, live + {0}) && forall l :: l in items ==> l.menu != 0
    ensures OwnersOk(items, records, owner, live + {h})
  {
  }

  lemma OwnersMove(items: map<Loc, MenuItem>, records: map<nat, ItemRecord>, owner: map<nat, Loc>, live: set<HMenu>, live': set<HMenu>)
    requires OwnersOk(items, records, owner, live) && live <= live'
    ensures OwnersOk(items, records, owner, live')
  {
  }
}
