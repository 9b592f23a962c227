/**
 * The layer tree as the layer list sees it: a flat, preorder sequence of
 * items carrying modified-preorder-tree-traversal (MPTT) `left`/`right`
 * bounds.  This module holds the item record and the specification
 * functions for navigating it (sibling walk, parent search, root count,
 * autoselection), with the lemmas that tie them to the tree they encode.
 */
module LayerTree {
  import opened Common
  import opened Protocol

  datatype LayerListItem = LayerListItem(
    id: U16,
    title: string,
    hidden: bool,
    censored: bool,
    fixed: bool,
    isolated: bool,
    group: bool,
    children: U16,
    relIndex: U16,
    left: int,
    right: int)

  /** `uint8((id & 0xff00) >> 8)`: the high byte of the id. */
  function CreatorId(id: U16): (u: Byte)
    ensures u * 256 <= id < u * 256 + 256
  {
    id / 256
  }

  /** An id composed as `(u << 8) | i` belongs to user `u`. */
  lemma CreatorOfComposedId(u: Byte, i: Byte)
    ensures u * 256 + i < 0x1_0000
    ensures CreatorId(u * 256 + i) == u
  {
  }

  /** `LayerListItem::attributeFlags`: the censor, fixed and isolated bits. */
  function AttributeFlags(item: LayerListItem): (flags: bv8)
    ensures flags == 0 <==> !item.censored && !item.fixed && !item.isolated
  {
    (if item.censored then LAYER_ATTRIBUTES_FLAGS_CENSOR else 0)
    | (if item.fixed then LAYER_ATTRIBUTES_FLAGS_FIXED else 0)
    | (if item.isolated then LAYER_ATTRIBUTES_FLAGS_ISOLATED else 0)
  }

  /** Each attribute is read back from its own bit, and no other bit is set. */
  lemma AttributeFlagsDecode(item: LayerListItem)
    ensures (AttributeFlags(item) & LAYER_ATTRIBUTES_FLAGS_CENSOR != 0) == item.censored
    ensures (AttributeFlags(item) & LAYER_ATTRIBUTES_FLAGS_FIXED != 0) == item.fixed
    ensures (AttributeFlags(item) & LAYER_ATTRIBUTES_FLAGS_ISOLATED != 0) == item.isolated
    ensures AttributeFlags(item) & 0xf8 == 0
  {
  }

  // ---------------------------------------------------------------------
  // Position lookup

  predicate HasId(items: seq<LayerListItem>, id: int)
  {
    exists k :: 0 <= k < |items| && items[k].id == id
  }

  /** The first position holding `id`, or -1. */
  function PositionOf(items: seq<LayerListItem>, id: int): (r: int)
    ensures -1 <= r < |items|
    ensures r == -1 <==> !HasId(items, id)
    ensures r >= 0 ==> items[r].id == id && forall j :: 0 <= j < r ==> items[j].id != id
  {
    if items == [] then -1
    else if items[0].id == id then 0
    else
      var r := PositionOf(items[1..], id);
      assert forall j :: 0 <= j < |items| - 1 ==> items[1..][j] == items[j + 1];
      if r == -1 then -1 else r + 1
  }

  // ---------------------------------------------------------------------
  // MPTT shape

  /** `a` encloses `b`: `b` is a descendant of `a`. */
  predicate Encloses(a: LayerListItem, b: LayerListItem) { a.left < b.left && b.right < a.right }

  /** The items are a preorder listing of an MPTT forest: lefts strictly
    * increase, every interval is non-empty, and two intervals are either
    * nested or disjoint. */
  predicate WellFormed(items: seq<LayerListItem>)
  {
    (forall i, j :: 0 <= i < j < |items| ==> items[i].left < items[j].left)
    && (forall i :: 0 <= i < |items| ==> items[i].left < items[i].right)
    && (forall i, j :: 0 <= i < j < |items| ==>
          items[j].right < items[i].right || items[i].right < items[j].left)
  }

  // ---------------------------------------------------------------------
  // Parent search (LayerListModel::parent)

  /** The nearest position before `p` whose right bound exceeds that of `p`. */
  function ParentPos(items: seq<LayerListItem>, p: nat): (r: Option<nat>)
    requires p < |items|
    ensures r.Some? ==> r.value < p && items[r.value].right > items[p].right
    ensures r.Some? ==> forall j :: r.value < j < p ==> items[j].right <= items[p].right
    ensures r.None? ==> forall j :: 0 <= j < p ==> items[j].right <= items[p].right
  {
    ParentSearch(items, p, p)
  }

  /** The search from `seek` downwards, as the loop performs it. */
  function ParentSearch(items: seq<LayerListItem>, p: nat, seek: nat): (r: Option<nat>)
    requires p < |items| && seek <= p
    ensures r.Some? ==> r.value < seek && items[r.value].right > items[p].right
    ensures r.Some? ==> forall j :: r.value < j < seek ==> items[j].right <= items[p].right
    ensures r.None? ==> forall j :: 0 <= j < seek ==> items[j].right <= items[p].right
  {
    if seek == 0 then None
    else if items[seek - 1].right > items[p].right then Some(seek - 1)
    else ParentSearch(items, p, seek - 1)
  }

  /** In a well-formed list, a preceding item has a larger right bound exactly
    * when it encloses the item. */
  lemma PrecedingEncloses(items: seq<LayerListItem>, q: nat, p: nat)
    requires WellFormed(items) && q < p < |items|
    ensures items[q].right > items[p].right <==> Encloses(items[q], items[p])
  {
  }

  /** The parent search finds the innermost enclosing item: it encloses the
    * item, every other enclosing item also encloses it, and there is none
    * exactly when the item is a root. */
  lemma ParentIsInnermostAncestor(items: seq<LayerListItem>, p: nat)
    requires WellFormed(items) && p < |items|
    ensures ParentPos(items, p).None? <==> forall a :: 0 <= a < |items| ==> !Encloses(items[a], items[p])
    ensures ParentPos(items, p).Some? ==>
      var q := ParentPos(items, p).value;
      Encloses(items[q], items[p]) &&
      forall a :: 0 <= a < |items| && a != q && Encloses(items[a], items[p]) ==> Encloses(items[a], items[q])
  {
    var r := ParentPos(items, p);
    forall a | 0 <= a < |items| && Encloses(items[a], items[p])
      ensures a < p
      ensures r.Some? && (a != r.value ==> Encloses(items[a], items[r.value]))
    {
      PrecedingEncloses(items, a, p);
      if a != r.value {
        PrecedingEncloses(items, r.value, p);
      }
    }
    if r.Some? {
      PrecedingEncloses(items, r.value, p);
    }
  }

  // ---------------------------------------------------------------------
  // Sibling walk (LayerListModel::index)

  /** The first position from `c` whose left bound reaches `next`, or the end. */
  function ScanFrom(items: seq<LayerListItem>, c: nat, next: int): (r: nat)
    requires c <= |items|
    ensures c <= r <= |items|
    ensures forall j :: c <= j < r ==> items[j].left < next
    ensures r < |items| ==> items[r].left >= next
    decreases |items| - c
  {
    if c == |items| || items[c].left >= next then c else ScanFrom(items, c + 1, next)
  }

  /** One sibling step from `c`: the item whose left bound is `right + 1`,
    * found by skipping everything that starts before it. */
  function Step(items: seq<LayerListItem>, c: nat): (r: Option<nat>)
    requires c < |items|
    ensures r.Some? ==> c <= r.value < |items| && items[r.value].left == items[c].right + 1
  {
    var next := items[c].right + 1;
    var d := ScanFrom(items, c, next);
    if d == |items| || items[d].left > next then None else Some(d)
  }

  /** `k` sibling steps from `c`. */
  function Walk(items: seq<LayerListItem>, c: nat, k: nat): (r: Option<nat>)
    requires c < |items|
    ensures r.Some? ==> c <= r.value < |items|
    decreases k
  {
    if k == 0 then Some(c)
    else match Step(items, c)
      case None => None
      case Some(d) => Walk(items, d, k - 1)
  }

  // ---------------------------------------------------------------------
  // Root count (LayerListModel::setLayers)

  /** The number of items from `i` on that continue the chain of roots, each
    * starting right after the previous root ends. */
  function RootCountFrom(items: seq<LayerListItem>, i: nat, next: int): nat
    requires i <= |items|
    decreases |items| - i
  {
    if i == |items| then 0
    else if items[i].left == next then 1 + RootCountFrom(items, i + 1, items[i].right + 1)
    else RootCountFrom(items, i + 1, next)
  }

  /** 0 for no items; otherwise the first item plus the chain after it. */
  function RootCount(items: seq<LayerListItem>): (r: nat)
    ensures items == [] <==> r == 0
  {
    if items == [] then 0 else 1 + RootCountFrom(items, 1, items[0].right + 1)
  }

  lemma {:induction false} RootCountFromBound(items: seq<LayerListItem>, i: nat, next: int)
    requires i <= |items|
    ensures RootCountFrom(items, i, next) <= |items| - i
    decreases |items| - i
  {
    if i < |items| {
      RootCountFromBound(items, i + 1, if items[i].left == next then items[i].right + 1 else next);
    }
  }

  /** There are never more roots than items. */
  lemma RootCountBound(items: seq<LayerListItem>)
    ensures RootCount(items) <= |items|
  {
    if items != [] {
      RootCountFromBound(items, 1, items[0].right + 1);
    }
  }

  /** Items that start before `next` are not roots of the chain. */
  lemma {:induction false} RootCountSkip(items: seq<LayerListItem>, i: nat, d: nat, next: int)
    requires i <= d <= |items|
    requires forall j :: i <= j < d ==> items[j].left < next
    ensures RootCountFrom(items, i, next) == RootCountFrom(items, d, next)
    decreases d - i
  {
    if i < d {
      RootCountSkip(items, i + 1, d, next);
    }
  }

  /** Once the lefts have passed `next`, the chain is over. */
  lemma {:induction false} RootCountPast(items: seq<LayerListItem>, d: nat, next: int)
    requires WellFormed(items)
    requires d < |items| && items[d].left > next
    ensures RootCountFrom(items, d, next) == 0
    decreases |items| - d
  {
    if d + 1 < |items| {
      RootCountPast(items, d + 1, next);
    }
  }

  /** From a root at `c`, `k` sibling steps succeed exactly when at least `k`
    * further roots follow it in the chain. */
  lemma {:induction false} WalkMatchesRootChain(items: seq<LayerListItem>, c: nat, k: nat)
    requires WellFormed(items) && c < |items|
    ensures Walk(items, c, k).Some? <==> k <= RootCountFrom(items, c + 1, items[c].right + 1)
    decreases k
  {
    var next := items[c].right + 1;
    if k > 0 {
      var d := ScanFrom(items, c, next);
      assert d > c;
      RootCountSkip(items, c + 1, d, next);
      if d == |items| {
        assert Step(items, c) == None;
      } else if items[d].left > next {
        assert Step(items, c) == None;
        RootCountPast(items, d, next);
      } else {
        assert Step(items, c) == Some(d);
        assert Walk(items, c, k) == Walk(items, d, k - 1);
        assert RootCountFrom(items, d, next) == 1 + RootCountFrom(items, d + 1, items[d].right + 1);
        WalkMatchesRootChain(items, d, k - 1);
      }
    }
  }

  /** The root rows the tree view can reach by walking siblings from the first
    * item are exactly the rows below the root count. */
  lemma RootRowsReachable(items: seq<LayerListItem>, row: nat)
    requires WellFormed(items) && items != []
    ensures Walk(items, 0, row).Some? <==> row < RootCount(items)
  {
    WalkMatchesRootChain(items, 0, row);
  }

  // ---------------------------------------------------------------------
  // Row numbering

  /** `relIndex` numbers the children of every parent (and the roots) 0, 1, …:
    * the first item and every first child are 0, and an item starting right
    * after another ends is that item's next sibling. */
  predicate RowsNumbered(items: seq<LayerListItem>)
  {
    (|items| > 0 ==> items[0].relIndex == 0)
    && (forall i :: 0 <= i < |items| - 1 && items[i].children > 0 ==> items[i + 1].relIndex == 0)
    && (forall i, j :: 0 <= i < |items| && 0 <= j < |items| && items[j].left == items[i].right + 1 ==>
          items[j].relIndex == items[i].relIndex + 1)
  }

  /** Each sibling step advances the row number by one. */
  lemma {:induction false} WalkRelIndex(items: seq<LayerListItem>, c: nat, k: nat)
    requires RowsNumbered(items) && c < |items|
    requires Walk(items, c, k).Some?
    ensures items[Walk(items, c, k).value].relIndex == items[c].relIndex + k
    decreases k
  {
    if k > 0 {
      var d := Step(items, c).value;
      WalkRelIndex(items, d, k - 1);
    }
  }

  // ---------------------------------------------------------------------
  // Autoselection (LayerListModel::setLayers)

  predicate IsNew(oldItems: seq<LayerListItem>, id: U16) { !HasId(oldItems, id) }

  /** Created by the local user, or — while any layer may be autoselected —
    * the default layer, or any layer when there is no default. */
  predicate Qualifies(id: U16, localUser: Byte, autoselectAny: bool, defaultLayer: U16)
  {
    CreatorId(id) == localUser
    || (autoselectAny && ((defaultLayer > 0 && id == defaultLayer) || defaultLayer == 0))
  }

  predicate Selectable(oldItems: seq<LayerListItem>, item: LayerListItem, localUser: Byte, autoselectAny: bool, defaultLayer: U16)
  {
    IsNew(oldItems, item.id) && Qualifies(item.id, localUser, autoselectAny, defaultLayer)
  }

  /** The first selectable item from position `k` on. */
  function FirstSelectable(oldItems: seq<LayerListItem>, items: seq<LayerListItem>, k: nat,
                           localUser: Byte, autoselectAny: bool, defaultLayer: U16): (r: Option<nat>)
    requires k <= |items|
    ensures r.Some? ==> k <= r.value < |items| && Selectable(oldItems, items[r.value], localUser, autoselectAny, defaultLayer)
    ensures r.Some? ==> forall j :: k <= j < r.value ==> !Selectable(oldItems, items[j], localUser, autoselectAny, defaultLayer)
    ensures r.None? ==> forall j :: k <= j < |items| ==> !Selectable(oldItems, items[j], localUser, autoselectAny, defaultLayer)
    decreases |items| - k
  {
    if k == |items| then None
    else if Selectable(oldItems, items[k], localUser, autoselectAny, defaultLayer) then Some(k)
    else FirstSelectable(oldItems, items, k + 1, localUser, autoselectAny, defaultLayer)
  }

  /** The id to autoselect after replacing `oldItems` with `items`: only when
    * the list grew, and then the first new item that qualifies. */
  function Autoselect(oldItems: seq<LayerListItem>, items: seq<LayerListItem>,
                      localUser: Byte, autoselectAny: bool, defaultLayer: U16): (r: Option<U16>)
    ensures r.Some? ==> |oldItems| < |items| && HasId(items, r.value) && IsNew(oldItems, r.value)
  {
    if |oldItems| < |items| then
      match FirstSelectable(oldItems, items, 0, localUser, autoselectAny, defaultLayer)
      case Some(k) => Some(items[k].id)
      case None => None
    else None
  }

  /** Autoselection picks a new, qualifying id that appears in the new list,
    * never fires when the list did not grow, and fires whenever some new item
    * qualifies and the list grew. */
  lemma AutoselectChoice(oldItems: seq<LayerListItem>, items: seq<LayerListItem>,
                         localUser: Byte, autoselectAny: bool, defaultLayer: U16)
    ensures Autoselect(oldItems, items, localUser, autoselectAny, defaultLayer).Some? ==>
      var id := Autoselect(oldItems, items, localUser, autoselectAny, defaultLayer).value;
      |oldItems| < |items| && HasId(items, id) && IsNew(oldItems, id)
      && Qualifies(id, localUser, autoselectAny, defaultLayer)
    ensures Autoselect(oldItems, items, localUser, autoselectAny, defaultLayer).None? <==>
      (|oldItems| >= |items|
       || forall j :: 0 <= j < |items| ==> !Selectable(oldItems, items[j], localUser, autoselectAny, defaultLayer))
  {
    var r := FirstSelectable(oldItems, items, 0, localUser, autoselectAny, defaultLayer);
    if |oldItems| < |items| && r.Some? {
      assert items[r.value].id == Autoselect(oldItems, items, localUser, autoselectAny, defaultLayer).value;
    }
  }

  /** With autoselect-any on and no default layer, the first new layer of a
    * grown list is always selected, whoever created it. */
  lemma AutoselectAnyPicksFirstNew(oldItems: seq<LayerListItem>, items: seq<LayerListItem>, localUser: Byte, k: nat)
    requires |oldItems| < |items| && k < |items| && IsNew(oldItems, items[k].id)
    requires forall j :: 0 <= j < k ==> !IsNew(oldItems, items[j].id)
    ensures Autoselect(oldItems, items, localUser, true, 0) == Some(items[k].id)
  {
    var r := FirstSelectable(oldItems, items, 0, localUser, true, 0);
    assert Selectable(oldItems, items[k], localUser, true, 0);
  }
}
