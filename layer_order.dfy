/**
 * The layer-order list that a drag-and-drop reorder sends: every layer id
 * followed by a 0, rearranged with `QVector::move` and then reversed so the
 * bottom layer comes first.
 */
module LayerOrder {
  import opened Common

  /** `[id0, 0, id1, 0, …]`: each id followed by a 0. */
  function PairList(ids: seq<U16>): (r: seq<U16>)
    ensures |r| == 2 * |ids|
  {
    if ids == [] then [] else [ids[0], 0] + PairList(ids[1..])
  }

  lemma {:induction false} PairListAt(ids: seq<U16>, i: nat)
    requires i < |ids|
    ensures PairList(ids)[2 * i] == ids[i]
    ensures PairList(ids)[2 * i + 1] == 0
  {
    if i > 0 {
      PairListAt(ids[1..], i - 1);
    }
  }

  /** Where entry `k` of a moved sequence comes from: the moved element lands
    * at `to`, the ones in between shift by one towards `from`, and the rest
    * stay put. */
  function MoveSource(from: nat, to: nat, k: nat): (r: nat)
    ensures r == from || r == k || (r == k + 1 && k < to) || r + 1 == k
  {
    if k == to then from
    else if from < to && from <= k < to then k + 1
    else if to < from && to < k <= from then k - 1
    else k
  }

  /** The first `n` entries of `s` after moving the element at `from` to `to`. */
  function MovedPrefix(s: seq<U16>, from: nat, to: nat, n: nat): (r: seq<U16>)
    requires from < |s| && to < |s| && n <= |s|
    ensures |r| == n
  {
    if n == 0 then [] else MovedPrefix(s, from, to, n - 1) + [s[MoveSource(from, to, n - 1)]]
  }

  /** `QVector::move(from, to)` */
  function Move(s: seq<U16>, from: nat, to: nat): (r: seq<U16>)
    requires from < |s| && to < |s|
    ensures |r| == |s|
  {
    MovedPrefix(s, from, to, |s|)
  }

  lemma {:induction false} MovedPrefixAt(s: seq<U16>, from: nat, to: nat, n: nat, k: nat)
    requires from < |s| && to < |s| && k < n <= |s|
    ensures MovedPrefix(s, from, to, n)[k] == s[MoveSource(from, to, k)]
  {
    if k < n - 1 {
      MovedPrefixAt(s, from, to, n - 1, k);
    }
  }

  lemma {:induction false} MoveAt(s: seq<U16>, from: nat, to: nat, k: nat)
    requires from < |s| && to < |s| && k < |s|
    ensures Move(s, from, to)[k] == s[MoveSource(from, to, k)]
  {
    MovedPrefixAt(s, from, to, |s|, k);
  }

  /** The moved element lands at `to`. */
  lemma MoveLands(s: seq<U16>, from: nat, to: nat)
    requires from < |s| && to < |s|
    ensures Move(s, from, to)[to] == s[from]
  {
    MoveAt(s, from, to, to);
  }

  /** Move is exactly "take the element out, then insert it so that it ends up
    * at `to`". */
  lemma {:induction false} MoveIsRemoveInsert(s: seq<U16>, from: nat, to: nat)
    requires from < |s| && to < |s|
    ensures Move(s, from, to) == (s[..from] + s[from + 1..])[..to] + [s[from]] + (s[..from] + s[from + 1..])[to..]
  {
    var rest := s[..from] + s[from + 1..];
    assert forall j :: 0 <= j < |rest| ==> rest[j] == if j < from then s[j] else s[j + 1];
    var r := rest[..to] + [s[from]] + rest[to..];
    forall k | 0 <= k < |s| ensures Move(s, from, to)[k] == r[k] {
      MoveAt(s, from, to, k);
      if k < to {
        assert r[k] == rest[k];
      } else if k > to {
        assert r[k] == rest[k - 1];
      }
    }
  }

  lemma {:induction false} MovePermutes(s: seq<U16>, from: nat, to: nat)
    requires from < |s| && to < |s|
    ensures multiset(Move(s, from, to)) == multiset(s)
  {
    MoveIsRemoveInsert(s, from, to);
    var rest := s[..from] + s[from + 1..];
    assert s == s[..from] + [s[from]] + s[from + 1..];
    assert multiset(s) == multiset(rest) + multiset{s[from]};
    assert rest == rest[..to] + rest[to..];
    assert multiset(rest) == multiset(rest[..to]) + multiset(rest[to..]);
  }

  /** `std::reverse` */
  function Reversed(s: seq<U16>): (r: seq<U16>)
    ensures |r| == |s|
  {
    if s == [] then [] else Reversed(s[1..]) + [s[0]]
  }

  lemma {:induction false} ReversedAt(s: seq<U16>, k: nat)
    requires k < |s|
    ensures Reversed(s)[k] == s[|s| - 1 - k]
  {
    if k < |s| - 1 {
      ReversedAt(s[1..], k);
    }
  }

  lemma {:induction false} ReversedPermutes(s: seq<U16>)
    ensures multiset(Reversed(s)) == multiset(s)
  {
    if s != [] {
      ReversedPermutes(s[1..]);
      assert s == [s[0]] + s[1..];
    }
  }

  /** The list `handleMoveLayer` sends, as written: move the id, then move the
    * element at the old position of its 0, then reverse. */
  function OrderAsWritten(ids: seq<U16>, oldIdx: nat, adjusted: nat): (r: seq<U16>)
    requires oldIdx < |ids| && adjusted < |ids|
    ensures |r| == 2 * |ids|
  {
    Reversed(Move(Move(PairList(ids), 2 * oldIdx, 2 * adjusted), 2 * oldIdx + 1, 2 * adjusted + 1))
  }

  /** The list with each (id, 0) pair kept together: for a move to a higher
    * index the 0 is moved first, so that moving the id does not displace it. */
  function OrderCorrected(ids: seq<U16>, oldIdx: nat, adjusted: nat): (r: seq<U16>)
    requires oldIdx < |ids| && adjusted < |ids|
    ensures |r| == 2 * |ids|
  {
    if oldIdx < adjusted then
      Reversed(Move(Move(PairList(ids), 2 * oldIdx + 1, 2 * adjusted + 1), 2 * oldIdx, 2 * adjusted))
    else
      Reversed(Move(Move(PairList(ids), 2 * oldIdx, 2 * adjusted), 2 * oldIdx + 1, 2 * adjusted + 1))
  }

  /** Two moves and a reversal only rearrange a sequence. */
  lemma {:induction false} TwoMovesReversedPermute(p: seq<U16>, f1: nat, t1: nat, f2: nat, t2: nat)
    requires f1 < |p| && t1 < |p| && f2 < |p| && t2 < |p|
    ensures multiset(Reversed(Move(Move(p, f1, t1), f2, t2))) == multiset(p)
  {
    var m1 := Move(p, f1, t1);
    MovePermutes(p, f1, t1);
    MovePermutes(m1, f2, t2);
    ReversedPermutes(Move(m1, f2, t2));
  }

  /** As written, the list sent is still a rearrangement of the pair list:
    * nothing is lost, only the pairing breaks. */
  lemma {:induction false} AsWrittenPermutes(ids: seq<U16>, oldIdx: nat, adjusted: nat)
    requires oldIdx < |ids| && adjusted < |ids|
    ensures multiset(OrderAsWritten(ids, oldIdx, adjusted)) == multiset(PairList(ids))
  {
    TwoMovesReversedPermute(PairList(ids), 2 * oldIdx, 2 * adjusted, 2 * oldIdx + 1, 2 * adjusted + 1);
  }

  /** The two index maps of a downward move send the pair at position `i`
    * of the result to the pair of the moved id's source, both halves alike. */
  lemma {:induction false} DownwardSources(oldIdx: nat, adjusted: nat, i: nat)
    requires adjusted <= oldIdx
    ensures MoveSource(2 * oldIdx, 2 * adjusted, MoveSource(2 * oldIdx + 1, 2 * adjusted + 1, 2 * i))
            == 2 * MoveSource(oldIdx, adjusted, i)
    ensures MoveSource(2 * oldIdx, 2 * adjusted, MoveSource(2 * oldIdx + 1, 2 * adjusted + 1, 2 * i + 1))
            == 2 * MoveSource(oldIdx, adjusted, i) + 1
  {
  }

  /** The same for an upward move with the 0 moved first. */
  lemma {:induction false} UpwardSources(oldIdx: nat, adjusted: nat, i: nat)
    requires oldIdx < adjusted
    ensures MoveSource(2 * oldIdx + 1, 2 * adjusted + 1, MoveSource(2 * oldIdx, 2 * adjusted, 2 * i))
            == 2 * MoveSource(oldIdx, adjusted, i)
    ensures MoveSource(2 * oldIdx + 1, 2 * adjusted + 1, MoveSource(2 * oldIdx, 2 * adjusted, 2 * i + 1))
            == 2 * MoveSource(oldIdx, adjusted, i) + 1
  {
  }

  /** Two sequences of `n` pairs agree when they agree on every pair. */
  lemma {:induction false} PairwiseEqual(s: seq<U16>, t: seq<U16>, n: nat)
    requires |s| == |t| == 2 * n
    requires forall i :: 0 <= i < n ==> s[2 * i] == t[2 * i] && s[2 * i + 1] == t[2 * i + 1]
    ensures s == t
  {
    forall k | 0 <= k < |s| ensures s[k] == t[k] {
      var i := k / 2;
      assert k == 2 * i || k == 2 * i + 1;
    }
  }

  /** Entry `k` after two moves, read back in the original sequence. */
  lemma {:induction false} TwoMovesAt(p: seq<U16>, f1: nat, t1: nat, f2: nat, t2: nat, k: nat)
    requires f1 < |p| && t1 < |p| && f2 < |p| && t2 < |p| && k < |p|
    ensures Move(Move(p, f1, t1), f2, t2)[k] == p[MoveSource(f1, t1, MoveSource(f2, t2, k))]
  {
    MoveAt(Move(p, f1, t1), f2, t2, k);
    MoveAt(p, f1, t1, MoveSource(f2, t2, k));
  }

  /** Pair `i` after a downward move is the moved id's pair. */
  lemma {:induction false} DownwardPairAt(ids: seq<U16>, oldIdx: nat, adjusted: nat, i: nat)
    requires oldIdx < |ids| && adjusted <= oldIdx && i < |ids|
    ensures Move(Move(PairList(ids), 2 * oldIdx, 2 * adjusted), 2 * oldIdx + 1, 2 * adjusted + 1)[2 * i]
            == PairList(Move(ids, oldIdx, adjusted))[2 * i]
    ensures Move(Move(PairList(ids), 2 * oldIdx, 2 * adjusted), 2 * oldIdx + 1, 2 * adjusted + 1)[2 * i + 1]
            == PairList(Move(ids, oldIdx, adjusted))[2 * i + 1]
  {
    var p := PairList(ids);
    DownwardSources(oldIdx, adjusted, i);
    PairListAt(ids, MoveSource(oldIdx, adjusted, i));
    PairListAt(Move(ids, oldIdx, adjusted), i);
    MoveAt(ids, oldIdx, adjusted, i);
    TwoMovesAt(p, 2 * oldIdx, 2 * adjusted, 2 * oldIdx + 1, 2 * adjusted + 1, 2 * i);
    TwoMovesAt(p, 2 * oldIdx, 2 * adjusted, 2 * oldIdx + 1, 2 * adjusted + 1, 2 * i + 1);
    var src := MoveSource(oldIdx, adjusted, i);
    var moved := Move(ids, oldIdx, adjusted);
    assert Move(Move(p, 2 * oldIdx, 2 * adjusted), 2 * oldIdx + 1, 2 * adjusted + 1)[2 * i] == p[2 * src] == ids[src] == moved[i] == PairList(moved)[2 * i];
    assert Move(Move(p, 2 * oldIdx, 2 * adjusted), 2 * oldIdx + 1, 2 * adjusted + 1)[2 * i + 1] == p[2 * src + 1] == 0 == PairList(moved)[2 * i + 1];
  }

  /** Moving to a lower (or the same) index: the two moves shift the id and
    * its 0 together, which is the pair list of the reordered ids. */
  lemma {:induction false} DownwardMoveKeepsPairs(ids: seq<U16>, oldIdx: nat, adjusted: nat)
    requires oldIdx < |ids| && adjusted <= oldIdx
    ensures Move(Move(PairList(ids), 2 * oldIdx, 2 * adjusted), 2 * oldIdx + 1, 2 * adjusted + 1)
            == PairList(Move(ids, oldIdx, adjusted))
  {
    forall i | 0 <= i < |ids| {
      DownwardPairAt(ids, oldIdx, adjusted, i);
    }
    PairwiseEqual(Move(Move(PairList(ids), 2 * oldIdx, 2 * adjusted), 2 * oldIdx + 1, 2 * adjusted + 1),
                  PairList(Move(ids, oldIdx, adjusted)), |ids|);
  }

  /** Pair `i` after an upward move, 0 first, is the moved id's pair. */
  lemma {:induction false} UpwardPairAt(ids: seq<U16>, oldIdx: nat, adjusted: nat, i: nat)
    requires oldIdx < adjusted < |ids| && i < |ids|
    ensures Move(Move(PairList(ids), 2 * oldIdx + 1, 2 * adjusted + 1), 2 * oldIdx, 2 * adjusted)[2 * i]
            == PairList(Move(ids, oldIdx, adjusted))[2 * i]
    ensures Move(Move(PairList(ids), 2 * oldIdx + 1, 2 * adjusted + 1), 2 * oldIdx, 2 * adjusted)[2 * i + 1]
            == PairList(Move(ids, oldIdx, adjusted))[2 * i + 1]
  {
    var p := PairList(ids);
    UpwardSources(oldIdx, adjusted, i);
    PairListAt(ids, MoveSource(oldIdx, adjusted, i));
    PairListAt(Move(ids, oldIdx, adjusted), i);
    MoveAt(ids, oldIdx, adjusted, i);
    TwoMovesAt(p, 2 * oldIdx + 1, 2 * adjusted + 1, 2 * oldIdx, 2 * adjusted, 2 * i);
    TwoMovesAt(p, 2 * oldIdx + 1, 2 * adjusted + 1, 2 * oldIdx, 2 * adjusted, 2 * i + 1);
    var src := MoveSource(oldIdx, adjusted, i);
    var moved := Move(ids, oldIdx, adjusted);
    assert Move(Move(p, 2 * oldIdx + 1, 2 * adjusted + 1), 2 * oldIdx, 2 * adjusted)[2 * i] == p[2 * src] == ids[src] == moved[i] == PairList(moved)[2 * i];
    assert Move(Move(p, 2 * oldIdx + 1, 2 * adjusted + 1), 2 * oldIdx, 2 * adjusted)[2 * i + 1] == p[2 * src + 1] == 0 == PairList(moved)[2 * i + 1];
  }

  /** Moving to a higher index with the corrected order: again exactly the pair
    * list of the reordered ids. */
  lemma {:induction false} UpwardMoveKeepsPairs(ids: seq<U16>, oldIdx: nat, adjusted: nat)
    requires oldIdx < adjusted < |ids|
    ensures Move(Move(PairList(ids), 2 * oldIdx + 1, 2 * adjusted + 1), 2 * oldIdx, 2 * adjusted)
            == PairList(Move(ids, oldIdx, adjusted))
  {
    forall i | 0 <= i < |ids| {
      UpwardPairAt(ids, oldIdx, adjusted, i);
    }
    PairwiseEqual(Move(Move(PairList(ids), 2 * oldIdx + 1, 2 * adjusted + 1), 2 * oldIdx, 2 * adjusted),
                  PairList(Move(ids, oldIdx, adjusted)), |ids|);
  }

  /** The corrected order always sends the reordered ids, bottom first, each
    * followed by its 0. */
  lemma {:induction false} CorrectedOrderIsReorderedPairs(ids: seq<U16>, oldIdx: nat, adjusted: nat)
    requires oldIdx < |ids| && adjusted < |ids|
    ensures OrderCorrected(ids, oldIdx, adjusted) == Reversed(PairList(Move(ids, oldIdx, adjusted)))
  {
    if oldIdx < adjusted {
      UpwardMoveKeepsPairs(ids, oldIdx, adjusted);
    } else {
      DownwardMoveKeepsPairs(ids, oldIdx, adjusted);
    }
  }

  /** As written, the order is right for moves to a lower (or the same) index. */
  lemma {:induction false} AsWrittenAgreesDownward(ids: seq<U16>, oldIdx: nat, adjusted: nat)
    requires oldIdx < |ids| && adjusted <= oldIdx
    ensures OrderAsWritten(ids, oldIdx, adjusted) == Reversed(PairList(Move(ids, oldIdx, adjusted)))
  {
    DownwardMoveKeepsPairs(ids, oldIdx, adjusted);
  }

  lemma {:induction false} PairListOfThree(a: U16, b: U16, c: U16)
    ensures PairList([a, b, c]) == [a, 0, b, 0, c, 0]
  {
    assert [a, b, c][1..] == [b, c];
    assert [b, c][1..] == [c];
    assert [c][1..] == [];
    assert PairList([c]) == [c, 0];
    assert PairList([b, c]) == [b, 0, c, 0];
  }

  lemma {:induction false} ReversedOfSix(s: seq<U16>)
    requires |s| == 6
    ensures Reversed(s) == [s[5], s[4], s[3], s[2], s[1], s[0]]
  {
    forall k | 0 <= k < 6 { ReversedAt(s, k); }
  }

  /** As written, dragging the top of three layers (ids 1, 2, 3) one place
    * down sends layer 2 paired with layer 3 instead of with a 0. */
  lemma {:induction false} UpwardMoveAsWritten()
    ensures OrderAsWritten([1, 2, 3], 0, 1) == [0, 3, 2, 0, 1, 0]
  {
    var p: seq<U16> := [1, 0, 2, 0, 3, 0];
    PairListOfThree(1, 2, 3);
    var m1 := Move(p, 0, 2);
    assert m1 == [0, 2, 1, 0, 3, 0] by {
      forall k | 0 <= k < 6 { MoveAt(p, 0, 2, k); }
    }
    var m2 := Move(m1, 1, 3);
    assert m2 == [0, 1, 0, 2, 3, 0] by {
      forall k | 0 <= k < 6 { MoveAt(m1, 1, 3, k); }
    }
    ReversedOfSix(m2);
  }

  /** The corrected order for the same drag keeps every id with its 0. */
  lemma {:induction false} UpwardMoveCorrected()
    ensures OrderCorrected([1, 2, 3], 0, 1) == [0, 3, 0, 1, 0, 2]
  {
    CorrectedOrderIsReorderedPairs([1, 2, 3], 0, 1);
    var moved := Move([1, 2, 3], 0, 1);
    assert moved == [2, 1, 3] by {
      forall k | 0 <= k < 3 { MoveAt([1, 2, 3], 0, 1, k); }
    }
    PairListOfThree(2, 1, 3);
    ReversedOfSix(PairList(moved));
  }

  /** So the list as written is not the reordered pair list. */
  lemma {:induction false} UpwardMoveBreaksPairs()
    ensures OrderAsWritten([1, 2, 3], 0, 1) != Reversed(PairList(Move([1, 2, 3], 0, 1)))
  {
    UpwardMoveAsWritten();
    UpwardMoveCorrected();
    CorrectedOrderIsReorderedPairs([1, 2, 3], 0, 1);
    assert OrderAsWritten([1, 2, 3], 0, 1)[2] != OrderCorrected([1, 2, 3], 0, 1)[2];
  }
}
