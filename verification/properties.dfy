/**
 * Properties of sequences of events on App's state: how completions
 * compose, what they keep invariant and what the missing guards let through.
 */
module Properties {
  import opened Wrappers
  import opened Api
  import opened Lists
  import opened App

  /** The cards of a state whose card list is readable. */
  function CardsOf(s: State): seq<Card>
    requires CardsReadable(s)
  {
    Defined(s.cards.value).value
  }

  /** A state whose card list is readable and free of duplicate ids. */
  predicate UniqueCards(s: State)
  {
    CardsReadable(s) && UniqueIds(CardsOf(s))
  }

  /** A list of wrapped cards is readable and holds exactly those cards. */
  lemma ReadableWrapped(s: State, cs: seq<Card>)
    requires s.cards == Some(Wrap(cs))
    ensures CardsReadable(s) && CardsOf(s) == cs
  {
    DefinedWrap(cs, []);
  }

  // ------------------------------------------------------- selection

  /**
   * Nothing ties a card fetch to the selection that issued it: select `a`,
   * then `b`; if `b`'s fetch completes first and `a`'s last, the card list
   * holds `a`'s cards while `b`'s board is selected.
   */
  lemma LateCardFetchWins(s: State, a: int, b: int, replyB: Option<seq<ApiCard>>, replyA: seq<ApiCard>)
    requires s.boards.Some?
    ensures var h1 := Handle(s, SelectBoard(a));
            var h2 := Handle(h1.state, SelectBoard(b));
            var t := FetchCardsDone(FetchCardsDone(h2.state, replyB), Some(replyA));
            && h1.sent == Some(ListCards(a))
            && h2.sent == Some(ListCards(b))
            && t.selected == FindBoardById(s.boards.value, b)
            && CardsReadable(t)
            && CardsOf(t) == ConvertCards(replyA)
  {
    var h2 := Handle(Handle(s, SelectBoard(a)).state, SelectBoard(b));
    var t := FetchCardsDone(FetchCardsDone(h2.state, replyB), Some(replyA));
    assert t.cards == Some(Wrap(ConvertCards(replyA)));
    ReadableWrapped(t, ConvertCards(replyA));
  }

  /** A card fetch's completion does not depend on the selection at all. */
  lemma CardFetchIgnoresSelection(s: State, other: Option<Board>, reply: Option<seq<ApiCard>>)
    ensures FetchCardsDone(s.(selected := other), reply) == FetchCardsDone(s, reply).(selected := other)
  {
  }

  // ----------------------------------------------------------- errors

  /**
   * The error cell is shared by both forms: a failed board creation sets it,
   * and a later successful card or board creation clears it.
   */
  lemma ErrorLifecycle<E>(s: State, e: E, describe: E -> string, card: ApiCard, body: BoardCreatedBody)
    requires s.boards.Some? && s.cards.Some?
    ensures var f := BoardSubmitDone(s, Failure(e), describe);
            && f.Next?
            && f.state.error == Some(describe(e))
            && f.state.boards == s.boards
            && CardSubmitDone(f.state, Success(card), describe).Next?
            && CardSubmitDone(f.state, Success(card), describe).state.error.None?
            && BoardSubmitDone(f.state, Success(body), describe).Next?
            && BoardSubmitDone(f.state, Success(body), describe).state.error.None?
  {
  }

  /** Delete, like and edit completions never touch the error cell, failed or not. */
  lemma SilentCompletions(s: State, id: int, ack: Option<()>, reply: Option<ApiCard>)
    ensures UnregisterDone(s, id, ack).Next? ==> UnregisterDone(s, id, ack).state.error == s.error
    ensures CardUpdateDone(s, id, reply).Next? ==> CardUpdateDone(s, id, reply).state.error == s.error
  {
  }

  // ----------------------------------------------------------- delete

  /** The delete completion does the same whether the request failed or not. */
  lemma DeleteIgnoresOutcome(s: State, id: int, ack: Option<()>)
    ensures UnregisterDone(s, id, ack) == UnregisterDone(s, id, None)
  {
  }

  /**
   * After a delete completion no card carries the id, and the other cards
   * are kept in their original relative order: the new list is the old one
   * read at increasing positions, which are exactly the positions whose id
   * differs.
   */
  lemma DeleteKeepsOthersInOrder(s: State, cs: seq<Card>, id: int, ack: Option<()>)
    requires s.cards == Some(Wrap(cs))
    ensures UnregisterDone(s, id, ack).Next?
    ensures CardsReadable(UnregisterDone(s, id, ack).state)
    ensures ReadAt(CardsOf(UnregisterDone(s, id, ack).state), cs, KeptPositions(cs, id))
    ensures forall i :: 0 <= i < |cs| ==> (i in KeptPositions(cs, id) <==> cs[i].cardId != id)
    ensures !HasId(CardsOf(UnregisterDone(s, id, ack).state), id)
  {
    ReadableWrapped(s, cs);
    var t := UnregisterDone(s, id, ack).state;
    assert t.cards == Some(Wrap(Without(cs, id)));
    ReadableWrapped(t, Without(cs, id));
    WithoutKeepsOrder(cs, id);
    var after := Without(cs, id);
    forall i | 0 <= i < |after|
      ensures after[i].cardId != id
    {
      assert after[i] in after;
    }
  }

  // ------------------------------------------------ like and edit

  /**
   * A failed like or edit of a listed card leaves an undefined entry in its
   * place; from then on every delete, like and edit completion throws,
   * until a card fetch replaces the list.
   */
  lemma FailedUpdateLeavesHole(s: State, cs: seq<Card>, id: int, xs: seq<ApiCard>)
    requires s.cards == Some(Wrap(cs)) && HasId(cs, id)
    ensures CardUpdateDone(s, id, None).Next?
    ensures var t := CardUpdateDone(s, id, None).state;
            && !CardsReadable(t)
            && (forall k, ack :: UnregisterDone(t, k, ack) == Fault)
            && (forall k, reply :: CardUpdateDone(t, k, reply) == Fault)
            && CardsReadable(FetchCardsDone(t, Some(xs)))
  {
    ReadableWrapped(s, cs);
    var t := CardUpdateDone(s, id, None).state;
    var i :| 0 <= i < |cs| && cs[i].cardId == id;
    assert s.cards.value[i] == Some(cs[i]);
    assert t.cards.value[i].None?;
    ReadableWrapped(FetchCardsDone(t, Some(xs)), ConvertCards(xs));
  }

  /** The only event that can make an unreadable card list readable: a successful card fetch. */
  predicate Refetches<E>(e: Event<E>)
  {
    e.CardsFetched? && e.cardsReply.Some?
  }

  /**
   * An unreadable card list (undefined, or holding an undefined entry) stays
   * unreadable through any one event other than a successful card fetch, and
   * a delete, like or edit completion on it faults.
   */
  lemma HoleSurvivesStep<E>(s: State, e: Event<E>, describe: E -> string)
    requires !CardsReadable(s) && !Refetches(e)
    ensures Apply(s, e, describe).Next? ==> !CardsReadable(Apply(s, e, describe).state)
    ensures e.Unregistered? || e.CardUpdated? ==> Apply(s, e, describe) == Fault
  {
    if e.CardCreated? && e.cardReply.Success? && s.cards.Some? {
      var prev := s.cards.value;
      var i :| 0 <= i < |prev| && prev[i].None?;
      var t := CardSubmitDone(s, e.cardReply, describe).state;
      assert t.cards.value[i + 1] == prev[i];
    }
  }

  /**
   * Once the card list is unreadable, it stays so through any run of events
   * without a successful card fetch.
   */
  lemma {:induction false} HolePersists<E>(s: State, es: seq<Event<E>>, describe: E -> string)
    requires !CardsReadable(s)
    requires forall k :: 0 <= k < |es| ==> !Refetches(es[k])
    ensures Run(s, es, describe).Next? ==> !CardsReadable(Run(s, es, describe).state)
    decreases |es|
  {
    if |es| > 0 {
      HoleSurvivesStep(s, es[0], describe);
      match Apply(s, es[0], describe)
      case Fault =>
      case Next(t) => HolePersists(t, es[1..], describe);
    }
  }

  /**
   * After a run of events without a successful card fetch from an unreadable
   * card list, a delete, like or edit completion faults.
   */
  lemma {:induction false} HoleFaultsLater<E>(s: State, es: seq<Event<E>>, e: Event<E>, describe: E -> string)
    requires !CardsReadable(s)
    requires forall k :: 0 <= k < |es| ==> !Refetches(es[k])
    requires e.Unregistered? || e.CardUpdated?
    ensures Run(s, es + [e], describe) == Fault
    decreases |es|
  {
    HoleSurvivesStep(s, e, describe);
    if |es| == 0 {
      assert es + [e] == [e];
    } else {
      HoleSurvivesStep(s, es[0], describe);
      assert (es + [e])[0] == es[0];
      assert (es + [e])[1..] == es[1..] + [e];
      match Apply(s, es[0], describe)
      case Fault =>
      case Next(t) => HoleFaultsLater(t, es[1..], e, describe);
    }
  }

  /**
   * A failed like or edit of a listed card, followed by any events without
   * a successful card fetch, leaves the card list unreadable, so a delete,
   * like or edit completion after them faults.
   */
  lemma FailedUpdateHoleLasts<E>(s: State, cs: seq<Card>, id: int, es: seq<Event<E>>, e: Event<E>, describe: E -> string)
    requires s.cards == Some(Wrap(cs)) && HasId(cs, id)
    requires forall k :: 0 <= k < |es| ==> !Refetches(es[k])
    requires e.Unregistered? || e.CardUpdated?
    ensures Run(s, [CardUpdated(id, None)] + es + [e], describe) == Fault
  {
    FailedUpdateLeavesHole(s, cs, id, []);
    var first: Event<E> := CardUpdated(id, None);
    var t := CardUpdateDone(s, id, None).state;
    assert Apply(s, first, describe) == Next(t);
    HoleFaultsLater(t, es, e, describe);
    var all := [first] + es + [e];
    assert all[0] == first;
    assert all[1..] == es + [e];
  }

  /**
   * A like or edit answered with a card of the same id keeps every id at
   * its position: the order of the list does not change.
   */
  lemma UpdateKeepsOrder(s: State, cs: seq<Card>, id: int, a: ApiCard)
    requires s.cards == Some(Wrap(cs)) && a.card_id == id
    ensures CardUpdateDone(s, id, Some(a)).Next?
    ensures CardsReadable(CardUpdateDone(s, id, Some(a)).state)
    ensures Ids(CardsOf(CardUpdateDone(s, id, Some(a)).state)) == Ids(cs)
  {
    ReadableWrapped(s, cs);
    ReplaceKeepsIds(cs, id, CardListFromApi(a));
  }

  /**
   * Applying the same server-confirmed card twice is applying it once: the
   * count shown is the server's, never a local increment.
   */
  lemma UpdateIdempotent(s: State, cs: seq<Card>, id: int, a: ApiCard)
    requires s.cards == Some(Wrap(cs)) && a.card_id == id
    ensures CardUpdateDone(s, id, Some(a)).Next?
    ensures CardUpdateDone(CardUpdateDone(s, id, Some(a)).state, id, Some(a)) == CardUpdateDone(s, id, Some(a))
  {
    ReadableWrapped(s, cs);
    ReplaceIdempotent(cs, id, CardListFromApi(a));
  }

  // ------------------------------------------------------- uniqueness

  /** A delete completion keeps card ids unique. */
  lemma DeleteKeepsUnique(s: State, id: int, ack: Option<()>)
    requires UniqueCards(s)
    ensures UnregisterDone(s, id, ack).Next? && UniqueCards(UnregisterDone(s, id, ack).state)
  {
    var cs := CardsOf(s);
    DefinedWrap(cs, s.cards.value);
    var t := UnregisterDone(s, id, ack).state;
    ReadableWrapped(t, Without(cs, id));
    WithoutKeepsUnique(cs, id);
  }

  /** A like or edit answered with a card of the same id keeps card ids unique. */
  lemma UpdateKeepsUnique(s: State, id: int, a: ApiCard)
    requires UniqueCards(s) && a.card_id == id
    ensures CardUpdateDone(s, id, Some(a)).Next? && UniqueCards(CardUpdateDone(s, id, Some(a)).state)
  {
    var cs := CardsOf(s);
    DefinedWrap(cs, s.cards.value);
    ReplaceKeepsUnique(cs, id, CardListFromApi(a));
  }

  /**
   * The client does not check that a created card's id is new: ids stay
   * unique after a card creation exactly when the server returned a fresh id.
   */
  lemma SubmitUniqueIff<E>(s: State, a: ApiCard, describe: E -> string)
    requires UniqueCards(s)
    ensures CardSubmitDone(s, Success(a), describe).Next?
    ensures UniqueCards(CardSubmitDone(s, Success(a), describe).state) <==> !HasId(CardsOf(s), a.card_id)
  {
    var cs := CardsOf(s);
    var c := CardListFromApi(a);
    DefinedWrap(cs, s.cards.value);
    assert s.cards.value == Wrap(cs);
    var t := CardSubmitDone(s, Success(a), describe).state;
    WrapCons(c, cs);
    assert t.cards.value == [Some(c)] + s.cards.value;
    ReadableWrapped(t, [c] + cs);
    PrependUniqueIff(c, cs);
  }

  // -------------------------------------------------------- scenarios

  /** A board list of one board is stored under the client's field names. */
  lemma ScenarioBoardsLoaded()
    ensures FetchBoardsDone(Initial, Some([ApiBoard(1, "Ideas", "Ana")])).boards == Some([Board(1, "Ideas", "Ana")])
  {
    var r := FetchBoardsDone(Initial, Some([ApiBoard(1, "Ideas", "Ana")])).boards.value;
    assert |r| == 1 && r[0] == Board(1, "Ideas", "Ana");
    assert r == [Board(1, "Ideas", "Ana")];
  }

  /** A confirmed like replaces card 11 with the server's copy and leaves card 12 alone. */
  lemma ScenarioToggleLike()
    ensures var s := Initial.(cards := Some([Some(Card(11, "Stay positive", 0)), Some(Card(12, "Be kind", 3))]));
            var r := CardUpdateDone(s, 11, Some(ApiCard(11, "Stay positive", 1)));
            && Handle(s, LikeCard(11, true)).sent == Some(PatchLikes(11, "increase"))
            && r == Next(s.(cards := Some([Some(Card(11, "Stay positive", 1)), Some(Card(12, "Be kind", 3))])))
  {
    var cs := [Card(11, "Stay positive", 0), Card(12, "Be kind", 3)];
    var s := Initial.(cards := Some([Some(Card(11, "Stay positive", 0)), Some(Card(12, "Be kind", 3))]));
    var w := Wrap(cs);
    assert |w| == 2 && w[0] == Some(cs[0]) && w[1] == Some(cs[1]);
    assert w == [Some(cs[0]), Some(cs[1])];
    assert s.cards == Some(w);
    ReadableWrapped(s, cs);
    var after := ReplaceById(cs, 11, Some(Card(11, "Stay positive", 1)));
    assert after[0] == Some(Card(11, "Stay positive", 1)) && after[1] == Some(Card(12, "Be kind", 3));
    assert after == [Some(Card(11, "Stay positive", 1)), Some(Card(12, "Be kind", 3))];
  }
}
