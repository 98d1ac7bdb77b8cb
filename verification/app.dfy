/**
 * The four state cells of the `App` component and the transitions that
 * change them (src/App.js:77-166). A user intent runs a synchronous handler
 * that may update `selectedBoard` and issue one request; each request's
 * completion later runs as one atomic event on the state current at that
 * moment. No completion checks which request or selection it belongs to.
 */
module App {
  import opened Wrappers
  import opened Api
  import opened Lists

  /**
   * `boardState`, `selectedBoard`, `cardState` and `error`. A list cell is
   * None once a failed fetch has stored `undefined` in it; `selected` is None
   * for both the initial `null` and the `undefined` a failed lookup yields.
   */
  datatype State = State(
    boards: Option<seq<Board>>,
    selected: Option<Board>,
    cards: Option<seq<Slot>>,
    error: Option<string>)

  /** The cells as `useState` first sets them. */
  const Initial: State := State(Some([]), None, Some([]), None)

  /**
   * What a completion leaves behind: the next state, or Fault when the
   * state updater it queued throws a TypeError (spreading, filtering or
   * mapping an `undefined` list, or reading `cardId` of an `undefined`
   * entry) and React abandons the render.
   */
  datatype Step = Next(state: State) | Fault

  /** The requests the handlers issue; URLs and request bodies are not modelled. */
  datatype Request =
    | ListBoards
    | ListCards(boardId: int)
    | CreateBoard
    | CreateCard(boardId: int)
    | PatchLikes(cardId: int, endpoint: string)
    | PatchMessage(cardId: int)
    | DeleteCard(cardId: int)

  /** The user intents the rendered tree forwards to App, and the mount effect. */
  datatype Intent =
    | Mount
    | SelectBoard(boardId: int)
    | SubmitBoard
    | SubmitCard
    | Unregister(cardId: int)
    | LikeCard(cardId: int, likeStatus: bool)
    | UpdateMessage(cardId: int)

  /** The synchronous part of a handler: the state it leaves and the request it sent, if any. */
  datatype Handled = Handled(state: State, sent: Option<Request>)

  /** True when the card list is defined and holds no undefined entry. */
  predicate CardsReadable(s: State)
  {
    s.cards.Some? && Defined(s.cards.value).Some?
  }

  // ----------------------------------------------------------- handlers

  /**
   * `handleBoardSelection`: selects the first listed board with the id (or
   * none) and fetches that id's cards whether or not a board was found.
   * With `boardState` undefined, `find` throws and nothing happens.
   */
  function HandleBoardSelection(s: State, boardId: int): (h: Handled)
    ensures s.boards.None? ==> h == Handled(s, None)
    ensures s.boards.Some? ==> h.sent == Some(ListCards(boardId))
    ensures s.boards.Some? ==> h.state.boards == s.boards && h.state.cards == s.cards && h.state.error == s.error
    ensures s.boards.Some? ==> h.state.selected == FindBoardById(s.boards.value, boardId)
  {
    match s.boards
    case None => Handled(s, None)
    case Some(bs) => Handled(s.(selected := FindBoardById(bs, boardId)), Some(ListCards(boardId)))
  }

  /**
   * Every handler of App. Only a selection changes state synchronously; a
   * card submission with no selected board throws on `selectedBoard.boardId`
   * before sending anything.
   */
  function Handle(s: State, i: Intent): (h: Handled)
    ensures h.state.boards == s.boards && h.state.cards == s.cards && h.state.error == s.error
    ensures !i.SelectBoard? ==> h.state == s
    ensures h.sent.None? <==> (i.SelectBoard? && s.boards.None?) || (i.SubmitCard? && s.selected.None?)
    ensures i.SelectBoard? ==> h == HandleBoardSelection(s, i.boardId)
    ensures i.Mount? ==> h.sent == Some(ListBoards)
    ensures i.SubmitBoard? ==> h.sent == Some(CreateBoard)
    ensures i.SubmitCard? && s.selected.Some? ==> h.sent == Some(CreateCard(s.selected.value.boardId))
    ensures i.Unregister? ==> h.sent == Some(DeleteCard(i.cardId))
    ensures i.LikeCard? ==> h.sent == Some(PatchLikes(i.cardId, LikeEndpoint(i.likeStatus)))
    ensures i.UpdateMessage? ==> h.sent == Some(PatchMessage(i.cardId))
  {
    match i
    case Mount => Handled(s, Some(ListBoards))
    case SelectBoard(id) => HandleBoardSelection(s, id)
    case SubmitBoard => Handled(s, Some(CreateBoard))
    case SubmitCard =>
      (match s.selected
       case None => Handled(s, None)
       case Some(b) => Handled(s, Some(CreateCard(b.boardId))))
    case Unregister(id) => Handled(s, Some(DeleteCard(id)))
    case LikeCard(id, like) => Handled(s, Some(PatchLikes(id, LikeEndpoint(like))))
    case UpdateMessage(id) => Handled(s, Some(PatchMessage(id)))
  }

  // -------------------------------------------------------- completions

  /** `fetchBoards` completes: `boardState` becomes the fetched boards, or undefined. */
  function FetchBoardsDone(s: State, reply: Option<seq<ApiBoard>>): (r: State)
    ensures r.boards.Some? <==> reply.Some?
    ensures reply.Some? ==> |r.boards.value| == |reply.value|
    ensures reply.Some? ==> forall i :: 0 <= i < |reply.value| ==> r.boards.value[i] == ConvertFromApi(reply.value[i])
    ensures r.selected == s.selected && r.cards == s.cards && r.error == s.error
  {
    s.(boards := GetAllBoards(reply))
  }

  /**
   * `fetchCards` completes: `cardState` becomes the fetched cards, or
   * undefined, whatever board is selected by now.
   */
  function FetchCardsDone(s: State, reply: Option<seq<ApiCard>>): (r: State)
    ensures r.cards.Some? <==> reply.Some?
    ensures reply.Some? ==> |r.cards.value| == |reply.value|
    ensures reply.Some? ==> forall i :: 0 <= i < |reply.value| ==> r.cards.value[i] == Some(CardListFromApi(reply.value[i]))
    ensures r.boards == s.boards && r.selected == s.selected && r.error == s.error
  {
    match GetAllCardsOneBoard(reply)
    case None => s.(cards := None)
    case Some(cs) => s.(cards := Some(Wrap(cs)))
  }

  /**
   * `onHandleCardSubmit` completes. On success the converted card goes in
   * front of the current cards and the error is cleared; on failure the
   * error becomes `describe(e)` (`getResponseError`) and the cards stay.
   */
  function CardSubmitDone<E>(s: State, reply: Result<ApiCard, E>, describe: E -> string): (r: Step)
    ensures r.Fault? <==> reply.Success? && s.cards.None?
    ensures r.Next? ==> r.state.boards == s.boards && r.state.selected == s.selected
    ensures reply.Success? && r.Next? ==>
              && r.state.error.None?
              && r.state.cards.Some?
              && |r.state.cards.value| == |s.cards.value| + 1
              && r.state.cards.value[0] == Some(CardListFromApi(reply.value))
              && r.state.cards.value[1..] == s.cards.value
    ensures reply.Failure? ==> r.Next? && r.state.cards == s.cards && r.state.error == Some(describe(reply.error))
  {
    match reply
    case Failure(e) => Next(s.(error := Some(describe(e))))
    case Success(a) =>
      match s.cards
      case None => Fault
      case Some(prev) => Next(s.(cards := Some([Some(CardListFromApi(a))] + prev), error := None))
  }

  /**
   * `onHandleBoardSubmit` completes. On success the converted
   * `response.data.board` goes in front of the current boards and the error
   * is cleared; on failure the error becomes `describe(e)` and the boards stay.
   */
  function BoardSubmitDone<E>(s: State, reply: Result<BoardCreatedBody, E>, describe: E -> string): (r: Step)
    ensures r.Fault? <==> reply.Success? && s.boards.None?
    ensures r.Next? ==> r.state.cards == s.cards && r.state.selected == s.selected
    ensures reply.Success? && r.Next? ==>
              && r.state.error.None?
              && r.state.boards.Some?
              && |r.state.boards.value| == |s.boards.value| + 1
              && r.state.boards.value[0] == ConvertFromApi(reply.value.board)
              && r.state.boards.value[1..] == s.boards.value
    ensures reply.Failure? ==> r.Next? && r.state.boards == s.boards && r.state.error == Some(describe(reply.error))
  {
    match reply
    case Failure(e) => Next(s.(error := Some(describe(e))))
    case Success(body) =>
      match s.boards
      case None => Fault
      case Some(prev) => Next(s.(boards := Some([ConvertFromApi(body.board)] + prev), error := None))
  }

  /**
   * `onUnregister` completes. `deleteCard` swallows a failure, so the card
   * is filtered out whether the delete succeeded (`ack` Some) or not.
   */
  function UnregisterDone(s: State, cardId: int, ack: Option<()>): (r: Step)
    ensures r.Fault? <==> !CardsReadable(s)
    ensures r.Next? ==> r.state.boards == s.boards && r.state.selected == s.selected && r.state.error == s.error
    ensures r.Next? ==> CardsReadable(r.state) && |r.state.cards.value| <= |s.cards.value|
    ensures r.Next? ==> forall x :: x in r.state.cards.value ==> x in s.cards.value && x.value.cardId != cardId
    ensures r.Next? ==> forall i :: 0 <= i < |s.cards.value| && s.cards.value[i].value.cardId != cardId ==>
                                    s.cards.value[i] in r.state.cards.value
  {
    if !CardsReadable(s) then Fault
    else
      var before := Defined(s.cards.value).value;
      var after := Without(before, cardId);
      DefinedWrap(after, s.cards.value);
      WrapMembers(before);
      WrapMembers(after);
      Next(s.(cards := Some(Wrap(after))))
  }

  /**
   * `onLikeCard` and `onUpdateMessage` complete: every card carrying the id
   * becomes the card the server returned, or undefined when the request
   * failed (`reply` None); all other entries stay where they are.
   */
  function CardUpdateDone(s: State, cardId: int, reply: Option<ApiCard>): (r: Step)
    ensures r.Fault? <==> !CardsReadable(s)
    ensures r.Next? ==> r.state.boards == s.boards && r.state.selected == s.selected && r.state.error == s.error
    ensures r.Next? ==> r.state.cards.Some? && |r.state.cards.value| == |s.cards.value|
    ensures r.Next? ==> forall i :: 0 <= i < |s.cards.value| && s.cards.value[i].value.cardId != cardId ==>
                                    r.state.cards.value[i] == s.cards.value[i]
    ensures r.Next? ==> forall i :: 0 <= i < |s.cards.value| && s.cards.value[i].value.cardId == cardId ==>
                                    r.state.cards.value[i] == UpdatedCard(reply)
  {
    if !CardsReadable(s) then Fault
    else
      var before := Defined(s.cards.value).value;
      Next(s.(cards := Some(ReplaceById(before, cardId, UpdatedCard(reply)))))
  }

  // ------------------------------------------------------------- events

  /**
   * One thing that can happen to App: a user intent (its synchronous part),
   * or the completion of one request with its outcome.
   */
  datatype Event<E> =
    | User(intent: Intent)
    | BoardsFetched(boardsReply: Option<seq<ApiBoard>>)
    | CardsFetched(cardsReply: Option<seq<ApiCard>>)
    | CardCreated(cardReply: Result<ApiCard, E>)
    | BoardCreated(boardReply: Result<BoardCreatedBody, E>)
    | Unregistered(cardId: int, ack: Option<()>)
    | CardUpdated(cardId: int, updateReply: Option<ApiCard>)

  /** The effect of one event on the current state. */
  function Apply<E>(s: State, e: Event<E>, describe: E -> string): Step
  {
    match e
    case User(i) => Next(Handle(s, i).state)
    case BoardsFetched(reply) => Next(FetchBoardsDone(s, reply))
    case CardsFetched(reply) => Next(FetchCardsDone(s, reply))
    case CardCreated(reply) => CardSubmitDone(s, reply, describe)
    case BoardCreated(reply) => BoardSubmitDone(s, reply, describe)
    case Unregistered(id, ack) => UnregisterDone(s, id, ack)
    case CardUpdated(id, reply) => CardUpdateDone(s, id, reply)
  }

  /** Events applied in order; a Fault ends the run. */
  function Run<E>(s: State, es: seq<Event<E>>, describe: E -> string): Step
    decreases |es|
  {
    if |es| == 0 then Next(s)
    else match Apply(s, es[0], describe)
      case Fault => Fault
      case Next(t) => Run(t, es[1..], describe)
  }
}
