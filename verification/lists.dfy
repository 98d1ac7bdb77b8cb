/**
 * The sequence operations the state updaters of src/App.js apply to the
 * board and card lists: first-match lookup (`Array.prototype.find`),
 * removal by id (`filter`) and replacement by id (`map`).
 */
module Lists {
  import opened Wrappers
  import opened Api

  /**
   * An entry of the card list. `None` stands for the `undefined` that a
   * failed like or message edit leaves in place of a card.
   */
  type Slot = Option<Card>

  /** A list of cards seen as a list of entries, every one defined. */
  function Wrap(cs: seq<Card>): (r: seq<Slot>)
    ensures |r| == |cs|
    ensures forall i :: 0 <= i < |cs| ==> r[i] == Some(cs[i])
  {
    seq(|cs|, i requires 0 <= i < |cs| => Some(cs[i]))
  }

  /** Wrapping distributes over putting a card in front. */
  lemma WrapCons(c: Card, cs: seq<Card>)
    ensures Wrap([c] + cs) == [Some(c)] + Wrap(cs)
  {
  }

  /** The entries of a wrapped list are exactly the cards of the list. */
  lemma WrapMembers(cs: seq<Card>)
    ensures forall x :: x in Wrap(cs) <==> x.Some? && x.value in cs
  {
    forall x | x in Wrap(cs)
      ensures x.Some? && x.value in cs
    {
      var i :| 0 <= i < |cs| && Wrap(cs)[i] == x;
    }
    forall c | c in cs
      ensures Some(c) in Wrap(cs)
    {
      var i :| 0 <= i < |cs| && cs[i] == c;
      assert Wrap(cs)[i] == Some(c);
    }
  }

  /**
   * The cards of a list of entries, or None when some entry is undefined:
   * a `filter` or `map` whose callback reads `card.cardId` throws a
   * TypeError on such an entry.
   */
  function Defined(xs: seq<Slot>): (r: Option<seq<Card>>)
    ensures r.Some? <==> forall i :: 0 <= i < |xs| ==> xs[i].Some?
    ensures r.Some? ==> |r.value| == |xs| && forall i :: 0 <= i < |xs| ==> xs[i] == Some(r.value[i])
  {
    if |xs| == 0 then Some([])
    else match xs[0]
      case None => None
      case Some(c) =>
        match Defined(xs[1..])
        case None => None
        case Some(rest) => Some([c] + rest)
  }

  /** Defined undoes Wrap, and Wrap undoes Defined. */
  lemma DefinedWrap(cs: seq<Card>, xs: seq<Slot>)
    ensures Defined(Wrap(cs)) == Some(cs)
    ensures Defined(xs).Some? ==> Wrap(Defined(xs).value) == xs
  {
    var r := Defined(Wrap(cs));
    assert r.Some?;
    assert r.value == cs;
  }

  // ---------------------------------------------------------------- ids

  /** The ids of a card list, in order. */
  function Ids(cs: seq<Card>): (ids: seq<int>)
    ensures |ids| == |cs|
    ensures forall i :: 0 <= i < |cs| ==> ids[i] == cs[i].cardId
  {
    seq(|cs|, i requires 0 <= i < |cs| => cs[i].cardId)
  }

  /** No two cards of the list share an id. */
  predicate UniqueIds(cs: seq<Card>)
  {
    forall i, j :: 0 <= i < j < |cs| ==> cs[i].cardId != cs[j].cardId
  }

  /** Some card of the list carries the id. */
  predicate HasId(cs: seq<Card>, id: int)
  {
    exists i :: 0 <= i < |cs| && cs[i].cardId == id
  }

  // ------------------------------------------------------ find by id

  /** The index of the first board whose id is `id`, if any. */
  function FirstBoardIndex(bs: seq<Board>, id: int): (r: Option<nat>)
    ensures r.Some? ==> r.value < |bs| && bs[r.value].boardId == id
    ensures r.Some? ==> forall j :: 0 <= j < r.value ==> bs[j].boardId != id
    ensures r.None? ==> forall j :: 0 <= j < |bs| ==> bs[j].boardId != id
  {
    if |bs| == 0 then None
    else if bs[0].boardId == id then Some(0)
    else match FirstBoardIndex(bs[1..], id)
      case None => None
      case Some(k) => Some(k + 1)
  }

  /** `boardState.find((board) => board.boardId === boardId)`. */
  function FindBoardById(bs: seq<Board>, id: int): (r: Option<Board>)
    ensures r.None? <==> forall j :: 0 <= j < |bs| ==> bs[j].boardId != id
    ensures r.Some? ==> exists i :: 0 <= i < |bs| && bs[i] == r.value && r.value.boardId == id &&
                                    forall j :: 0 <= j < i ==> bs[j].boardId != id
  {
    match FirstBoardIndex(bs, id)
    case None => None
    case Some(i) => Some(bs[i])
  }

  /** With unique ids, the board found is the one board that carries the id. */
  lemma FindBoardByIdUnique(bs: seq<Board>, id: int, k: nat)
    requires forall i, j :: 0 <= i < j < |bs| ==> bs[i].boardId != bs[j].boardId
    requires k < |bs| && bs[k].boardId == id
    ensures FindBoardById(bs, id) == Some(bs[k])
  {
    var r := FindBoardById(bs, id);
    var i :| 0 <= i < |bs| && bs[i] == r.value && r.value.boardId == id &&
             forall j :: 0 <= j < i ==> bs[j].boardId != id;
    assert !(k < i);
    assert !(i < k);
  }

  // ------------------------------------------------------ filter by id

  /** `cards.filter((card) => card.cardId !== id)`. */
  function Without(cs: seq<Card>, id: int): (r: seq<Card>)
    ensures |r| <= |cs|
    ensures forall c :: c in r <==> c in cs && c.cardId != id
  {
    if |cs| == 0 then []
    else if cs[0].cardId != id then [cs[0]] + Without(cs[1..], id)
    else Without(cs[1..], id)
  }

  /** `idx` lists positions of `cs`, strictly increasing, and `r` is `cs` read at them. */
  ghost predicate ReadAt(r: seq<Card>, cs: seq<Card>, idx: seq<nat>)
  {
    && |idx| == |r|
    && (forall k :: 0 <= k < |idx| ==> idx[k] < |cs| && r[k] == cs[idx[k]])
    && (forall k, l :: 0 <= k < l < |idx| ==> idx[k] < idx[l])
  }

  /** Every position of a sequence of indices, one further on. */
  function Shift(idx: seq<nat>): (r: seq<nat>)
    ensures |r| == |idx|
    ensures forall k :: 0 <= k < |idx| ==> r[k] == idx[k] + 1
  {
    seq(|idx|, k requires 0 <= k < |idx| => idx[k] + 1)
  }

  lemma ShiftIn(idx: seq<nat>, i: int)
    ensures i in Shift(idx) <==> i >= 1 && i - 1 in idx
  {
    if i >= 1 && i - 1 in idx {
      var k :| 0 <= k < |idx| && idx[k] == i - 1;
      assert Shift(idx)[k] == i;
    }
  }

  /** The positions of the cards whose id differs, in increasing order. */
  function KeptPositions(cs: seq<Card>, id: int): seq<nat>
  {
    if |cs| == 0 then []
    else if cs[0].cardId != id then [0] + Shift(KeptPositions(cs[1..], id))
    else Shift(KeptPositions(cs[1..], id))
  }

  /**
   * Removal by id keeps exactly the cards whose id differs, in their
   * original relative order: the result is the list read at increasing
   * positions, and a position is among them iff its card's id differs.
   */
  lemma {:induction false} WithoutKeepsOrder(cs: seq<Card>, id: int)
    ensures ReadAt(Without(cs, id), cs, KeptPositions(cs, id))
    ensures forall i :: 0 <= i < |cs| ==> (i in KeptPositions(cs, id) <==> cs[i].cardId != id)
  {
    if |cs| > 0 {
      WithoutKeepsOrder(cs[1..], id);
      var rest := KeptPositions(cs[1..], id);
      var tail := Without(cs[1..], id);
      var shifted := Shift(rest);
      forall k | 0 <= k < |shifted|
        ensures 1 <= shifted[k] < |cs| && tail[k] == cs[shifted[k]]
      {
        assert cs[1..][rest[k]] == cs[rest[k] + 1];
      }
      assert ReadAt(tail, cs, shifted);
      forall i | 0 <= i < |cs|
        ensures i in shifted <==> i >= 1 && cs[i].cardId != id
      {
        ShiftIn(rest, i);
        if i >= 1 {
          assert cs[1..][i - 1] == cs[i];
        }
      }
      if cs[0].cardId != id {
        var idx := [0] + shifted;
        ReadAtCons(tail, cs, shifted);
        assert Without(cs, id) == [cs[0]] + tail;
        forall i | 0 <= i < |cs|
          ensures i in idx <==> cs[i].cardId != id
        {
          assert i in idx <==> i == 0 || i in shifted;
        }
      } else {
        assert Without(cs, id) == tail;
      }
    }
  }

  /** Reading the head at position 0 extends a reading of the rest at later positions. */
  lemma ReadAtCons(tail: seq<Card>, cs: seq<Card>, idx: seq<nat>)
    requires |cs| > 0 && ReadAt(tail, cs, idx)
    requires forall k :: 0 <= k < |idx| ==> idx[k] >= 1
    ensures ReadAt([cs[0]] + tail, cs, [0] + idx)
  {
    var r, ix := [cs[0]] + tail, [0] + idx;
    forall k | 0 <= k < |ix|
      ensures ix[k] < |cs| && r[k] == cs[ix[k]]
    {
      if k > 0 {
        assert ix[k] == idx[k - 1] && r[k] == tail[k - 1];
      }
    }
    forall k, l | 0 <= k < l < |ix|
      ensures ix[k] < ix[l]
    {
      if k > 0 {
        assert ix[k] == idx[k - 1] && ix[l] == idx[l - 1];
      } else {
        assert ix[l] == idx[l - 1];
      }
    }
  }

  /** Removing an id no card carries changes nothing. */
  lemma {:induction false} WithoutAbsent(cs: seq<Card>, id: int)
    requires !HasId(cs, id)
    ensures Without(cs, id) == cs
  {
    if |cs| > 0 {
      forall i | 0 <= i < |cs| - 1
        ensures cs[1..][i].cardId != id
      {
        assert cs[1..][i] == cs[i + 1];
      }
      WithoutAbsent(cs[1..], id);
      assert cs == [cs[0]] + cs[1..];
    }
  }

  /** Removing the same id twice is removing it once. */
  lemma WithoutIdempotent(cs: seq<Card>, id: int)
    ensures Without(Without(cs, id), id) == Without(cs, id)
  {
    var r := Without(cs, id);
    forall i | 0 <= i < |r|
      ensures r[i].cardId != id
    {
      assert r[i] in r;
    }
    WithoutAbsent(r, id);
  }

  /** Removal keeps ids unique. */
  lemma WithoutKeepsUnique(cs: seq<Card>, id: int)
    requires UniqueIds(cs)
    ensures UniqueIds(Without(cs, id))
  {
    WithoutKeepsOrder(cs, id);
    var idx := KeptPositions(cs, id);
    var r := Without(cs, id);
    forall i, j | 0 <= i < j < |r|
      ensures r[i].cardId != r[j].cardId
    {
      assert idx[i] < idx[j];
    }
  }

  // ------------------------------------------------------ replace by id

  /**
   * `cards.map((card) => card.cardId === id ? updated : card)`: every card
   * carrying the id becomes `updated`, which is `undefined` when the request
   * failed.
   */
  function ReplaceById(cs: seq<Card>, id: int, updated: Slot): (r: seq<Slot>)
    ensures |r| == |cs|
    ensures forall i :: 0 <= i < |cs| && cs[i].cardId != id ==> r[i] == Some(cs[i])
    ensures forall i :: 0 <= i < |cs| && cs[i].cardId == id ==> r[i] == updated
  {
    if |cs| == 0 then []
    else [if cs[0].cardId == id then updated else Some(cs[0])] + ReplaceById(cs[1..], id, updated)
  }

  /** Replacing an id no card carries changes nothing. */
  lemma ReplaceAbsent(cs: seq<Card>, id: int, updated: Slot)
    requires !HasId(cs, id)
    ensures ReplaceById(cs, id, updated) == Wrap(cs)
  {
  }

  /**
   * The list after a replacement is free of undefined entries iff the
   * replacement is a card or no card carried the id.
   */
  lemma ReplaceDefinedIff(cs: seq<Card>, id: int, updated: Slot)
    ensures Defined(ReplaceById(cs, id, updated)).Some? <==> updated.Some? || !HasId(cs, id)
  {
    var r := ReplaceById(cs, id, updated);
    if updated.None? && HasId(cs, id) {
      var i :| 0 <= i < |cs| && cs[i].cardId == id;
      assert r[i].None?;
    }
  }

  /**
   * When the server returns a card with the requested id, the ids of the
   * list, and so its order by id, do not change.
   */
  lemma ReplaceKeepsIds(cs: seq<Card>, id: int, u: Card)
    requires u.cardId == id
    ensures Defined(ReplaceById(cs, id, Some(u))).Some?
    ensures Ids(Defined(ReplaceById(cs, id, Some(u))).value) == Ids(cs)
  {
    var r := ReplaceById(cs, id, Some(u));
    ReplaceDefinedIff(cs, id, Some(u));
    var ds := Defined(r).value;
    assert Wrap(ds) == r;
    forall i | 0 <= i < |cs|
      ensures ds[i].cardId == cs[i].cardId
    {
      assert Wrap(ds)[i] == r[i];
    }
  }

  /** Replacing twice with the same server card is replacing once. */
  lemma ReplaceIdempotent(cs: seq<Card>, id: int, u: Card)
    requires u.cardId == id
    ensures Defined(ReplaceById(cs, id, Some(u))).Some?
    ensures ReplaceById(Defined(ReplaceById(cs, id, Some(u))).value, id, Some(u)) == ReplaceById(cs, id, Some(u))
  {
    ReplaceKeepsIds(cs, id, u);
    var r := ReplaceById(cs, id, Some(u));
    var ds := Defined(r).value;
    var r2 := ReplaceById(ds, id, Some(u));
    forall i | 0 <= i < |cs|
      ensures r2[i] == r[i]
    {
      assert Wrap(ds)[i] == r[i];
      assert Ids(ds)[i] == Ids(cs)[i];
    }
  }

  /** A replacement whose card keeps the id keeps ids unique. */
  lemma ReplaceKeepsUnique(cs: seq<Card>, id: int, u: Card)
    requires u.cardId == id
    requires UniqueIds(cs)
    ensures Defined(ReplaceById(cs, id, Some(u))).Some?
    ensures UniqueIds(Defined(ReplaceById(cs, id, Some(u))).value)
  {
    ReplaceKeepsIds(cs, id, u);
    var ds := Defined(ReplaceById(cs, id, Some(u))).value;
    forall i, j | 0 <= i < j < |ds|
      ensures ds[i].cardId != ds[j].cardId
    {
      assert Ids(ds)[i] == Ids(cs)[i] && Ids(ds)[j] == Ids(cs)[j];
    }
  }

  // ------------------------------------------------------ prepend

  /** Prepending keeps ids unique exactly when the new id is fresh. */
  lemma PrependUniqueIff(c: Card, cs: seq<Card>)
    requires UniqueIds(cs)
    ensures UniqueIds([c] + cs) <==> !HasId(cs, c.cardId)
  {
    var r := [c] + cs;
    if HasId(cs, c.cardId) {
      var i :| 0 <= i < |cs| && cs[i].cardId == c.cardId;
      assert r[0].cardId == r[i + 1].cardId;
    } else {
      forall i, j | 0 <= i < j < |r|
        ensures r[i].cardId != r[j].cardId
      {
        if i > 0 {
          assert r[i] == cs[i - 1] && r[j] == cs[j - 1];
        } else {
          assert r[j] == cs[j - 1];
        }
      }
    }
  }
}
