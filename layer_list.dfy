/**
 * `LayerListModel`: the client's list of layers as the layer dock's tree view
 * sees it.  The model holds the flat MPTT item list, the number of root rows,
 * the default layer, the autoselect-any switch and the local user id of the
 * attached ACL state; its navigation, reset, reorder and allocation
 * operations are methods proved against the specification functions of
 * `LayerTree`, `LayerOrder` and `LayerNames`.
 */
module LayerList {
  import opened Common
  import opened Protocol
  import opened NumericText
  import opened LayerTree
  import opened LayerOrder
  import opened LayerNames

  /** A `QModelIndex` that is valid: row, column and the item's position in the
    * flat list (its internal id).  An invalid index is `None`. */
  datatype ModelIndex = ModelIndex(row: int, column: int, internalId: nat)

  /** The ids of the items, in list order. */
  function Ids(items: seq<LayerListItem>): (r: seq<U16>)
    ensures |r| == |items|
    ensures forall k :: 0 <= k < |items| ==> r[k] == items[k].id
  {
    if items == [] then [] else [items[0].id] + Ids(items[1..])
  }

  /** The titles of the items, in list order. */
  function Titles(items: seq<LayerListItem>): (r: seq<string>)
    ensures |r| == |items|
    ensures forall k :: 0 <= k < |items| ==> r[k] == items[k].title
  {
    if items == [] then [] else [items[0].title] + Titles(items[1..])
  }

  /** The ids of `items` in user `u`'s namespace, in list order. */
  function TakenIds(items: seq<LayerListItem>, u: Byte): seq<int>
  {
    if items == [] then []
    else TakenIds(items[..|items| - 1], u)
         + (if CreatorId(items[|items| - 1].id) == u then [items[|items| - 1].id] else [])
  }

  /** An id is in the taken list exactly when some item has it and it lies in
    * the user's namespace. */
  lemma {:induction false} TakenIdsMembers(items: seq<LayerListItem>, u: Byte, x: int)
    ensures x in TakenIds(items, u) <==> HasId(items, x) && 0 <= x < 0x1_0000 && CreatorId(x) == u
  {
    if items != [] {
      var init := items[..|items| - 1];
      TakenIdsMembers(init, u, x);
      if HasId(items, x) {
        var k :| 0 <= k < |items| && items[k].id == x;
        if k < |init| {
          assert init[k].id == x;
        }
      }
      if HasId(init, x) {
        var k :| 0 <= k < |init| && init[k].id == x;
        assert items[k].id == x;
      }
    }
  }

  /** The first unused id `(u << 8) | i` with `i` from `i0` on, or 0. */
  function FreeIdFrom(items: seq<LayerListItem>, u: Byte, i0: nat): (r: U16)
    requires i0 <= 256
    decreases 256 - i0
  {
    if i0 == 256 then 0
    else if !HasId(items, u * 256 + i0) then u * 256 + i0
    else FreeIdFrom(items, u, i0 + 1)
  }

  /** The scan from `i0` returns the first unused id of the namespace at or
    * after `i0`, and 0 only when there is none (or that id is 0 itself). */
  lemma {:induction false} FreeIdFromSpec(items: seq<LayerListItem>, u: Byte, i0: nat)
    requires i0 <= 256
    ensures var r := FreeIdFrom(items, u, i0);
      (r != 0 || (u == 0 && i0 == 0 && !HasId(items, 0)) ==>
        u * 256 + i0 <= r < u * 256 + 256 && !HasId(items, r)
        && forall j :: u * 256 + i0 <= j < r ==> HasId(items, j))
      && (r == 0 && !(u == 0 && i0 == 0 && !HasId(items, 0)) ==>
        forall j :: u * 256 + i0 <= j < u * 256 + 256 ==> HasId(items, j))
    decreases 256 - i0
  {
    if i0 < 256 && HasId(items, u * 256 + i0) {
      FreeIdFromSpec(items, u, i0 + 1);
    }
  }

  /** `getAvailableLayerId` for local user `u`: the lowest free id of `u`'s
    * 256-id namespace, or 0 when every one is taken. */
  function AvailableLayerId(items: seq<LayerListItem>, u: Byte): (id: U16)
    ensures id != 0 ==> id / 256 == u as int && !HasId(items, id)
  {
    FreeIdFromSpec(items, u, 0);
    FreeIdFrom(items, u, 0)
  }

  /** An adjusted drop index: moving to a higher index counts the slot of the
    * moved layer itself. */
  function AdjustedIndex(oldIdx: int, newIdx: int): int
  {
    if newIdx > oldIdx then newIdx - 1 else newIdx
  }

  /** The row a drop lands on: the given row, or below the last of `count`
    * layers when dropped on the empty area (`row < 0`). */
  function DropRow(count: nat, row: int): int
  {
    if row < 0 then count else row
  }

  /** Whether a reorder from `oldIdx` to `newIdx` goes ahead in a list of
    * `count` layers. */
  predicate MoveAccepted(count: int, oldIdx: int, newIdx: int)
  {
    count >= 2 && 0 <= oldIdx < count && 0 <= AdjustedIndex(oldIdx, newIdx) < count
  }

  /** A sequence of `2 * |items|` entries holding each id followed by a 0 is
    * the pair list of the ids. */
  lemma PairListOfItems(items: seq<LayerListItem>, layers: seq<U16>)
    requires |layers| == 2 * |items|
    requires forall j :: 0 <= j < |items| ==> layers[2 * j] == items[j].id && layers[2 * j + 1] == 0
    ensures layers == PairList(Ids(items))
  {
    var ids := Ids(items);
    forall j | 0 <= j < |items|
      ensures layers[2 * j] == PairList(ids)[2 * j] && layers[2 * j + 1] == PairList(ids)[2 * j + 1]
    {
      PairListAt(ids, j);
    }
    PairwiseEqual(layers, PairList(ids), |items|);
  }

  /** A walk of `k > 0` steps is one step followed by the remaining walk. */
  lemma WalkStep(items: seq<LayerListItem>, c: nat, k: nat, d: nat)
    requires c < |items| && k > 0
    requires d == ScanFrom(items, c, items[c].right + 1) && d < |items| && items[d].left == items[c].right + 1
    ensures Walk(items, c, k) == Walk(items, d, k - 1)
  {
    assert Step(items, c) == Some(d);
  }

  /** A walk of `k > 0` steps fails when the first step finds no sibling. */
  lemma WalkStops(items: seq<LayerListItem>, c: nat, k: nat, d: nat)
    requires c < |items| && k > 0
    requires d == ScanFrom(items, c, items[c].right + 1)
    requires d == |items| || items[d].left > items[c].right + 1
    ensures Walk(items, c, k).None?
  {
    assert Step(items, c).None?;
  }

  /** The test in the loop of `getAvailableLayerName`: a title counts with
    * its trailing number when it has one and starts with `stem`. */
  method TitleSuffix(title: string, stem: string) returns (c: Option<nat>)
    ensures c == Contribution(title, stem)
  {
    c := None;
    if HasSuffixNumber(title) {
      if StartsWith(title, stem) {
        c := Some(ToInt(Captured(title)));
      }
    }
  }

  /** The loop of `getAvailableLayerName`: the largest trailing number among
    * the titles that start with `stem`, 0 when there is none. */
  method LargestSuffix(titles: seq<string>, stem: string) returns (suffix: nat)
    ensures suffix == MaxSuffix(titles, stem)
  {
    suffix := 0;
    var k := 0;
    while k < |titles|
      invariant 0 <= k <= |titles|
      invariant suffix == MaxSuffix(titles[..k], stem)
    {
      MaxSuffixStep(titles, k, stem);
      var c := TitleSuffix(titles[k], stem);
      if c.Some? {
        suffix := Max(suffix, c.value);
      }
      k := k + 1;
    }
    FullPrefix(titles, k);
  }

  class LayerListModel {
    /** `m_items`: the flat preorder list of layers */
    var items: seq<LayerListItem>
    /** `m_rootLayerCount` */
    var rootLayerCount: int
    /** `m_defaultLayer`; zero means there is no default layer */
    var defaultLayer: U16
    /** `m_autoselectAny`: whether any new layer, not just the local user's
      * own, may be autoselected */
    var autoselectAny: bool
    /** The local user id of the attached ACL state; `None` while no ACL
      * state is attached */
    var localUserId: Option<Byte>

    /** The root count always describes the current items. */
    predicate Valid()
      reads this
    {
      rootLayerCount == RootCount(items)
    }

    constructor()
      ensures items == [] && rootLayerCount == 0 && defaultLayer == 0
      ensures autoselectAny && localUserId == None
      ensures Valid()
    {
      items := [];
      rootLayerCount := 0;
      defaultLayer := 0;
      autoselectAny := true;
      localUserId := None;
    }

    /** `setAclState` */
    method SetAclState(userId: Option<Byte>)
      modifies this
      ensures localUserId == userId
      ensures items == old(items) && rootLayerCount == old(rootLayerCount)
      ensures defaultLayer == old(defaultLayer) && autoselectAny == old(autoselectAny)
    {
      localUserId := userId;
    }

    /** `setAutoselectAny` */
    method SetAutoselectAny(autoselect: bool)
      modifies this
      ensures autoselectAny == autoselect
      ensures items == old(items) && rootLayerCount == old(rootLayerCount)
      ensures defaultLayer == old(defaultLayer) && localUserId == old(localUserId)
    {
      autoselectAny := autoselect;
    }

    /** `setDefaultLayer`: its body is compiled out, so the default layer
      * keeps the value the constructor gave it. */
    method SetDefaultLayer(id: U16)
      ensures defaultLayer == old(defaultLayer)
    {
    }

    /** `indexOf`: the first position holding `id`, or -1. */
    method IndexOf(id: U16) returns (r: int)
      ensures r == PositionOf(items, id)
    {
      var i := 0;
      while i < |items|
        invariant 0 <= i <= |items|
        invariant PositionOf(items, id) == -1 || i <= PositionOf(items, id)
      {
        if items[i].id == id {
          return i;
        }
        i := i + 1;
      }
      return -1;
    }

    /** `layerIndex`: the index of the layer with `id`, whose row is the
      * layer's index within its parent. */
    method LayerIndex(id: U16) returns (r: Option<ModelIndex>)
      ensures r.Some? <==> HasId(items, id)
      ensures r.Some? ==> var p := r.value.internalId;
        p < |items| && items[p].id == id && r.value.row == items[p].relIndex && r.value.column == 0
        && forall j :: 0 <= j < p ==> items[j].id != id
    {
      var i := IndexOf(id);
      if i >= 0 {
        return Some(ModelIndex(items[i].relIndex, 0, i));
      }
      return None;
    }

    /** `rowCount`: a parent's child count, or the root count for the
      * invalid parent; the root count is exactly the number of root rows
      * reachable by walking siblings from the first item. */
    method RowCount(parent: Option<ModelIndex>) returns (n: int)
      requires parent.Some? ==> parent.value.internalId < |items|
      ensures parent.Some? ==> n == items[parent.value.internalId].children
      ensures parent.None? ==> n == rootLayerCount
      ensures parent.None? && Valid() && WellFormed(items) && items != [] ==>
        forall row: nat :: Walk(items, 0, row).Some? <==> row < n
    {
      if parent.Some? {
        return items[parent.value.internalId].children;
      }
      n := rootLayerCount;
      if Valid() && WellFormed(items) && items != [] {
        forall row: nat
          ensures Walk(items, 0, row).Some? <==> row < n
        {
          RootRowsReachable(items, row);
        }
      }
    }

    /** `parent`: the nearest preceding item with a larger right bound, which
      * in a well-formed tree is the innermost enclosing group. */
    method Parent(index: Option<ModelIndex>) returns (r: Option<ModelIndex>)
      requires index.Some? ==> index.value.internalId < |items|
      ensures index.None? ==> r.None?
      ensures index.Some? ==> var p := index.value.internalId;
        match ParentPos(items, p)
        case None => r.None?
        case Some(q) => r == Some(ModelIndex(items[q].relIndex, 0, q))
      ensures r.Some? ==> r.value.internalId < index.value.internalId
      ensures index.Some? && WellFormed(items) ==> var p := index.value.internalId;
        (r.None? <==> forall a :: 0 <= a < |items| ==> !Encloses(items[a], items[p]))
        && (r.Some? ==> Encloses(items[r.value.internalId], items[p]))
    {
      if index.None? {
        return None;
      }
      var p := index.value.internalId;
      if WellFormed(items) {
        ParentIsInnermostAncestor(items, p);
      }
      var seek := p;
      var right := items[p].right;
      while seek > 0
        invariant 0 <= seek <= p
        invariant ParentSearch(items, p, seek) == ParentPos(items, p)
      {
        seek := seek - 1;
        if items[seek].right > right {
          return Some(ModelIndex(items[seek].relIndex, 0, seek));
        }
      }
      return None;
    }

    /** `index(row, column, parent)`: invalid for an empty list, a negative
      * row, a column other than 0 or a row beyond the parent's child count
      * (the root count for the invalid parent); otherwise the item reached
      * by `row` sibling steps from the parent's first child (or the first
      * item).  When the rows are numbered, that item's `relIndex` is `row`;
      * for the roots of a well-formed list it exists for every row below the
      * root count. */
    method Index(row: int, column: int, parent: Option<nat>) returns (r: Option<ModelIndex>)
      requires parent.Some? ==> parent.value < |items|
      requires parent.Some? && 0 <= row < items[parent.value].children ==> parent.value + 1 < |items|
      ensures items == [] || row < 0 || column != 0 ==> r.None?
      ensures parent.Some? && row >= items[parent.value].children ==> r.None?
      ensures parent.None? && row >= rootLayerCount ==> r.None?
      ensures r.Some? ==> r.value.row == row && r.value.column == 0 && r.value.internalId < |items|
      ensures r.Some? ==> var start := if parent.Some? then parent.value + 1 else 0;
        start < |items| && Walk(items, start, row) == Some(r.value.internalId)
      ensures items != [] && 0 <= row && column == 0 && parent.Some? && row < items[parent.value].children ==>
        r.Some? == Walk(items, parent.value + 1, row).Some?
      ensures items != [] && 0 <= row && column == 0 && parent.None? && row < rootLayerCount ==>
        r.Some? == Walk(items, 0, row).Some?
      ensures r.Some? && RowsNumbered(items) ==> items[r.value.internalId].relIndex == row
      ensures parent.None? && Valid() && WellFormed(items) && column == 0 && row >= 0 ==>
        (r.Some? <==> row < rootLayerCount)
    {
      if items == [] || row < 0 || column != 0 {
        return None;
      }
      var cursor: nat;
      if parent.Some? {
        cursor := parent.value;
        if row >= items[cursor].children {
          return None;
        }
        cursor := cursor + 1;
      } else {
        if row >= rootLayerCount {
          return None;
        }
        cursor := 0;
      }
      var start := cursor;
      if RowsNumbered(items) && parent.Some? {
        assert items[parent.value].children > 0;
      }
      if Valid() && WellFormed(items) && parent.None? {
        RootRowsReachable(items, row);
      }
      var found := WalkSiblings(cursor, row);
      if found.None? {
        return None;
      }
      if RowsNumbered(items) {
        WalkRelIndex(items, start, row);
      }
      return Some(ModelIndex(row, column, found.value));
    }

    /** The sibling loop of `index`: `row` jumps from `start`, each to the
      * item whose left bound is the previous right bound plus one. */
    method WalkSiblings(start: nat, row: nat) returns (r: Option<nat>)
      requires start < |items|
      ensures r == Walk(items, start, row)
    {
      var cursor := start;
      var next := items[cursor].right + 1;
      var i := 0;
      while i < row
        invariant 0 <= i <= row && cursor < |items|
        invariant next == items[cursor].right + 1
        invariant Walk(items, start, row) == Walk(items, cursor, row - i)
      {
        var c0 := cursor;
        ghost var left := row - i;
        cursor := SkipDescendants(c0, next);
        if cursor == |items| || items[cursor].left > next {
          WalkStops(items, c0, left, cursor);
          return None;
        }
        WalkStep(items, c0, left, cursor);
        assert Walk(items, start, row) == Walk(items, cursor, left - 1);
        next := items[cursor].right + 1;
        i := i + 1;
      }
      return Some(cursor);
    }

    /** The inner loop of `index`: skips the items that lie inside the
      * current sibling, stopping at the first whose left bound reaches `next`. */
    method SkipDescendants(c0: nat, next: int) returns (cursor: nat)
      requires c0 <= |items|
      ensures cursor == ScanFrom(items, c0, next)
    {
      cursor := c0;
      while cursor < |items| && items[cursor].left < next
        invariant c0 <= cursor <= |items|
        invariant ScanFrom(items, c0, next) == ScanFrom(items, cursor, next)
      {
        cursor := cursor + 1;
      }
    }

    /** `setLayers`: replaces the items and recounts the roots; returns the id
      * to autoselect, if any (the `autoSelectRequest` signal). */
    method SetLayers(newItems: seq<LayerListItem>) returns (autoselect: Option<U16>)
      modifies this
      ensures items == newItems && rootLayerCount == RootCount(newItems) && Valid()
      ensures defaultLayer == old(defaultLayer) && autoselectAny == old(autoselectAny)
      ensures localUserId == old(localUserId)
      ensures autoselect == Autoselect(old(items), newItems,
                                       if localUserId.Some? then localUserId.value else 0,
                                       autoselectAny, defaultLayer)
    {
      var user: Byte := if localUserId.Some? then localUserId.value else 0;
      autoselect := None;
      if |items| < |newItems| {
        var k := 0;
        while k < |newItems| && autoselect.None?
          invariant 0 <= k <= |newItems|
          invariant autoselect.None? ==>
            FirstSelectable(items, newItems, 0, user, autoselectAny, defaultLayer)
            == FirstSelectable(items, newItems, k, user, autoselectAny, defaultLayer)
          invariant autoselect.Some? ==>
            autoselect == Autoselect(items, newItems, user, autoselectAny, defaultLayer)
        {
          var newItem := newItems[k];
          var isNew := true;
          var j := 0;
          while j < |items| && isNew
            invariant 0 <= j <= |items|
            invariant isNew <==> forall m :: 0 <= m < j ==> items[m].id != newItem.id
            invariant !isNew ==> HasId(items, newItem.id)
          {
            if items[j].id == newItem.id {
              isNew := false;
            }
            j := j + 1;
          }
          if isNew && Qualifies(newItem.id, user, autoselectAny, defaultLayer) {
            autoselect := Some(newItem.id);
          }
          k := k + 1;
        }
      }
      var rootLayers := 0;
      if newItems != [] {
        rootLayers := 1;
        var next := newItems[0].right + 1;
        var i := 1;
        while i < |newItems|
          invariant 1 <= i <= |newItems|
          invariant rootLayers + RootCountFrom(newItems, i, next) == RootCount(newItems)
        {
          if newItems[i].left == next {
            rootLayers := rootLayers + 1;
            next := newItems[i].right + 1;
          }
          i := i + 1;
        }
      }
      rootLayerCount := rootLayers;
      items := newItems;
    }

    /** `getAvailableLayerId`: the lowest id of the local user's namespace
      * that no item uses, or 0 when all 256 are taken.  (For user 0 the
      * free id 0 is indistinguishable from "all taken".) */
    method GetAvailableLayerId() returns (id: int)
      requires localUserId.Some?
      ensures id == AvailableLayerId(items, localUserId.value)
      ensures var u := localUserId.value;
        id != 0 ==> (CreatorId(id) == u && !HasId(items, id)
                     && forall j :: u * 256 <= j < id ==> HasId(items, j))
      ensures var u := localUserId.value;
        id == 0 <==> (forall j :: u * 256 <= j < u * 256 + 256 ==> HasId(items, j))
                     || (u == 0 && !HasId(items, 0))
    {
      var u := localUserId.value;
      var prefix: int := (u as int) * 256;
      var taken: seq<int> := [];
      var k := 0;
      while k < |items|
        invariant 0 <= k <= |items|
        invariant taken == TakenIds(items[..k], u)
      {
        InitOfPrefix(items, k);
        if CreatorId(items[k].id) == u {
          taken := taken + [items[k].id];
        }
        k := k + 1;
      }
      FullPrefix(items, k);
      FreeIdFromSpec(items, u, 0);
      var i := 0;
      while i < 256
        invariant 0 <= i <= 256
        invariant FreeIdFrom(items, u, i) == AvailableLayerId(items, u)
        invariant forall j :: prefix <= j < prefix + i ==> HasId(items, j)
      {
        var candidate := prefix + i;
        TakenIdsMembers(items, u, candidate);
        if candidate !in taken {
          return candidate;
        }
        i := i + 1;
      }
      return 0;
    }

    /** `getAvailableLayerName`: the base name without its trailing number,
      * a space and one more than the largest trailing number among titles
      * starting with it; it equals no current title while that number fits
      * in an int. */
    method GetAvailableLayerName(basename: string) returns (name: string)
      ensures name == AvailableName(basename, Titles(items))
      ensures MaxSuffix(Titles(items), Stem(basename)) < INT_MAX ==>
        forall k :: 0 <= k < |items| ==> items[k].title != name
    {
      var stem := basename;
      if HasSuffixNumber(basename) {
        stem := Trimmed(basename[..MatchStart(basename)]);
      }
      assert stem == Stem(basename);
      var titles := Titles(items);
      var suffix := LargestSuffix(titles, stem);
      var next := if suffix >= INT_MAX then -0x8000_0000 else suffix + 1;
      name := stem + " " + SignedDecimal(next);
      assert name == AvailableName(basename, titles);
      if suffix < INT_MAX {
        NameIsFresh(basename, titles);
      }
    }

    /** `handleMoveLayer` as written: the pair list moved id first, then the
      * entry at the id's old 0 slot, then reversed.  The list is a
      * rearrangement of the pair list; `AsWrittenAgreesDownward` and
      * `UpwardMoveBreaksPairs` say when it is the reordered pair list. */
    method HandleMoveLayerAsWritten(oldIdx: int, newIdx: int) returns (msg: Option<Message>)
      requires MoveAccepted(|items|, oldIdx, newIdx) ==> localUserId.Some?
      ensures msg.Some? <==> MoveAccepted(|items|, oldIdx, newIdx)
      ensures msg.Some? ==>
        msg.value == Message.LayerOrder(localUserId.value, OrderAsWritten(Ids(items), oldIdx, AdjustedIndex(oldIdx, newIdx)))
      ensures msg.Some? ==> (|msg.value.layers| == 2 * |items|
                             && multiset(msg.value.layers) == multiset(PairList(Ids(items))))
    {
      var count := |items|;
      if count < 2 {
        return None;
      }
      var adjusted := if newIdx > oldIdx then newIdx - 1 else newIdx;
      if oldIdx < 0 || oldIdx >= count || adjusted < 0 || adjusted >= count {
        return None;
      }
      assert adjusted == AdjustedIndex(oldIdx, newIdx);
      var layers := LayersAsWritten(oldIdx, adjusted);
      return Some(Message.LayerOrder(localUserId.value, layers));
    }

    /** The list building of `handleMoveLayer` as written: the pair list, the
      * id moved, then the entry at its old 0 slot, then reversed. */
    method LayersAsWritten(oldIdx: nat, adjusted: nat) returns (layers: seq<U16>)
      requires oldIdx < |items| && adjusted < |items|
      ensures layers == OrderAsWritten(Ids(items), oldIdx, adjusted)
      ensures |layers| == 2 * |items| && multiset(layers) == multiset(PairList(Ids(items)))
    {
      layers := PairLayers();
      layers := Move(layers, 2 * oldIdx, 2 * adjusted);
      layers := Move(layers, 2 * oldIdx + 1, 2 * adjusted + 1);
      layers := Reversed(layers);
      AsWrittenPermutes(Ids(items), oldIdx, adjusted);
    }

    /** `handleMoveLayer` with the two moves ordered so that each id keeps
      * its 0: nothing is sent for fewer than two layers or an index out of
      * range; otherwise the layer order sent is the reordered ids, bottom
      * first, each followed by a 0, with the moved layer at the adjusted
      * index. */
    method HandleMoveLayer(oldIdx: int, newIdx: int) returns (msg: Option<Message>)
      requires MoveAccepted(|items|, oldIdx, newIdx) ==> localUserId.Some?
      ensures msg.Some? <==> MoveAccepted(|items|, oldIdx, newIdx)
      ensures msg.Some? ==>
        msg.value == Message.LayerOrder(localUserId.value, OrderCorrected(Ids(items), oldIdx, AdjustedIndex(oldIdx, newIdx)))
      ensures msg.Some? ==>
        msg.value.layers == Reversed(PairList(Move(Ids(items), oldIdx, AdjustedIndex(oldIdx, newIdx))))
      ensures msg.Some? ==> Move(Ids(items), oldIdx, AdjustedIndex(oldIdx, newIdx))[AdjustedIndex(oldIdx, newIdx)]
                            == items[oldIdx].id
    {
      var count := |items|;
      if count < 2 {
        return None;
      }
      var adjusted := if newIdx > oldIdx then newIdx - 1 else newIdx;
      if oldIdx < 0 || oldIdx >= count || adjusted < 0 || adjusted >= count {
        return None;
      }
      assert adjusted == AdjustedIndex(oldIdx, newIdx);
      var layers := LayersCorrected(oldIdx, adjusted);
      MoveLands(Ids(items), oldIdx, adjusted);
      return Some(Message.LayerOrder(localUserId.value, layers));
    }

    /** The list building of the corrected `handleMoveLayer`: for a move to a
      * higher index the 0 goes first, so each id keeps its 0. */
    method LayersCorrected(oldIdx: nat, adjusted: nat) returns (layers: seq<U16>)
      requires oldIdx < |items| && adjusted < |items|
      ensures layers == OrderCorrected(Ids(items), oldIdx, adjusted)
      ensures layers == Reversed(PairList(Move(Ids(items), oldIdx, adjusted)))
    {
      layers := PairLayers();
      if oldIdx < adjusted {
        layers := Move(layers, 2 * oldIdx + 1, 2 * adjusted + 1);
        layers := Move(layers, 2 * oldIdx, 2 * adjusted);
      } else {
        layers := Move(layers, 2 * oldIdx, 2 * adjusted);
        layers := Move(layers, 2 * oldIdx + 1, 2 * adjusted + 1);
      }
      layers := Reversed(layers);
      CorrectedOrderIsReorderedPairs(Ids(items), oldIdx, adjusted);
    }

    /** The loop of `handleMoveLayer` that lists every id followed by a 0. */
    method PairLayers() returns (layers: seq<U16>)
      ensures layers == PairList(Ids(items))
    {
      layers := [];
      var k := 0;
      while k < |items|
        invariant 0 <= k <= |items| && |layers| == 2 * k
        invariant forall j :: 0 <= j < k ==> layers[2 * j] == items[j].id && layers[2 * j + 1] == 0
      {
        layers := layers + [items[k].id, 0];
        k := k + 1;
      }
      PairListOfItems(items, layers);
    }

    /** `dropMimeData`: a layer dragged from this model is moved from its
      * position to the drop row, or below the last layer when dropped on the
      * empty area (`row < 0`), through `handleMoveLayer` as written; anything
      * else is ignored.  The order sent rearranges the pair list, and it is
      * the reordered pair list for a drop at or above the layer's row. */
    method DropMimeData(layerId: U16, fromThisModel: bool, row: int) returns (msg: Option<Message>)
      requires (fromThisModel && MoveAccepted(|items|, PositionOf(items, layerId), DropRow(|items|, row)))
               ==> localUserId.Some?
      ensures !fromThisModel ==> msg.None?
      ensures fromThisModel ==>
        (msg.Some? <==> MoveAccepted(|items|, PositionOf(items, layerId), DropRow(|items|, row)))
      ensures msg.Some? ==> HasId(items, layerId)
      ensures msg.Some? ==> var p := PositionOf(items, layerId);
        var to := AdjustedIndex(p, DropRow(|items|, row));
        msg.value == Message.LayerOrder(localUserId.value, OrderAsWritten(Ids(items), p, to))
        && multiset(msg.value.layers) == multiset(PairList(Ids(items)))
        && (to <= p ==> msg.value.layers == Reversed(PairList(Move(Ids(items), p, to))))
      ensures msg.Some? && row < 0 ==> AdjustedIndex(PositionOf(items, layerId), DropRow(|items|, row)) == |items| - 1
    {
      if !fromThisModel {
        return None;
      }
      var i := IndexOf(layerId);
      msg := HandleMoveLayerAsWritten(i, DropRow(|items|, row));
      if msg.Some? && AdjustedIndex(i, DropRow(|items|, row)) <= i {
        AsWrittenAgreesDownward(Ids(items), i, AdjustedIndex(i, DropRow(|items|, row)));
      }
    }

    /** `dropMimeData` calling the corrected `handleMoveLayer`: every drop
      * sends the reordered pair list, with the dragged layer at the adjusted
      * drop row. */
    method DropMimeDataCorrected(layerId: U16, fromThisModel: bool, row: int) returns (msg: Option<Message>)
      requires (fromThisModel && MoveAccepted(|items|, PositionOf(items, layerId), DropRow(|items|, row)))
               ==> localUserId.Some?
      ensures !fromThisModel ==> msg.None?
      ensures fromThisModel ==>
        (msg.Some? <==> MoveAccepted(|items|, PositionOf(items, layerId), DropRow(|items|, row)))
      ensures msg.Some? ==> HasId(items, layerId)
      ensures msg.Some? ==> var p := PositionOf(items, layerId);
        var to := AdjustedIndex(p, DropRow(|items|, row));
        msg.value == Message.LayerOrder(localUserId.value, Reversed(PairList(Move(Ids(items), p, to))))
        && Move(Ids(items), p, to)[to] == layerId
      ensures msg.Some? && row < 0 ==> AdjustedIndex(PositionOf(items, layerId), DropRow(|items|, row)) == |items| - 1
    {
      if !fromThisModel {
        return None;
      }
      var i := IndexOf(layerId);
      msg := HandleMoveLayer(i, DropRow(|items|, row));
    }
  }
}
