/**
 * The payload shapes of the remote board service, the client's internal
 * records, and the field renamings between them (src/App.js:15-75).
 * The HTTP calls themselves are not modelled: each request's outcome is an
 * input. For the five helpers (board list, card list, like, edit, delete)
 * it is an Option: `None` when the axios promise rejected and the helper's
 * empty `catch` turned the rejection into a resolved `undefined`. The two
 * creation requests have no such helper; their outcome is a Result (see
 * module App).
 */
module Api {
  import opened Wrappers

  /** A board as the service sends it. */
  datatype ApiBoard = ApiBoard(board_id: int, title: string, owner: string)

  /** A card as the service sends it. */
  datatype ApiCard = ApiCard(card_id: int, message: string, likes_count: int)

  /** The body of a successful board creation: the board sits under `board`. */
  datatype BoardCreatedBody = BoardCreatedBody(board: ApiBoard)

  /** A board as the client holds it. */
  datatype Board = Board(boardId: int, title: string, owner: string)

  /** A card as the client holds it. */
  datatype Card = Card(cardId: int, message: string, likesCount: int)

  /** The service's encoding of a client board; the inverse of ConvertFromApi. */
  function BoardToApi(b: Board): ApiBoard
  {
    ApiBoard(b.boardId, b.title, b.owner)
  }

  /** The service's encoding of a client card; the inverse of CardListFromApi. */
  function CardToApi(c: Card): ApiCard
  {
    ApiCard(c.cardId, c.message, c.likesCount)
  }

  /** `convertFromApi`: renames `board_id` to `boardId`, keeps the rest. */
  function ConvertFromApi(a: ApiBoard): (b: Board)
    ensures b.boardId == a.board_id && b.title == a.title && b.owner == a.owner
    ensures BoardToApi(b) == a
  {
    Board(boardId := a.board_id, title := a.title, owner := a.owner)
  }

  /** `cardListFromApi` (despite its name it converts one card). */
  function CardListFromApi(a: ApiCard): (c: Card)
    ensures c.cardId == a.card_id && c.likesCount == a.likes_count && c.message == a.message
    ensures CardToApi(c) == a
  {
    Card(cardId := a.card_id, message := a.message, likesCount := a.likes_count)
  }

  /** Every client board is the conversion of exactly one wire board. */
  lemma ConvertFromApiBijective(b: Board, a: ApiBoard)
    ensures ConvertFromApi(a) == b <==> a == BoardToApi(b)
  {
  }

  /** Every client card is the conversion of exactly one wire card. */
  lemma CardListFromApiBijective(c: Card, a: ApiCard)
    ensures CardListFromApi(a) == c <==> a == CardToApi(c)
  {
  }

  /** `response.data.map(convertFromApi)`, written as the element-by-element walk `map` performs. */
  function ConvertBoards(xs: seq<ApiBoard>): (bs: seq<Board>)
    ensures |bs| == |xs|
    ensures forall i :: 0 <= i < |xs| ==> BoardToApi(bs[i]) == xs[i]
  {
    if |xs| == 0 then [] else [ConvertFromApi(xs[0])] + ConvertBoards(xs[1..])
  }

  /** `response.data.map(cardListFromApi)`. */
  function ConvertCards(xs: seq<ApiCard>): (cs: seq<Card>)
    ensures |cs| == |xs|
    ensures forall i :: 0 <= i < |xs| ==> CardToApi(cs[i]) == xs[i]
  {
    if |xs| == 0 then [] else [CardListFromApi(xs[0])] + ConvertCards(xs[1..])
  }

  /** `getAllBoards`: the converted list, or `undefined` when the request failed. */
  function GetAllBoards(reply: Option<seq<ApiBoard>>): (r: Option<seq<Board>>)
    ensures r.Some? <==> reply.Some?
    ensures r.Some? ==> |r.value| == |reply.value|
    ensures r.Some? ==> forall i :: 0 <= i < |r.value| ==> ConvertFromApi(reply.value[i]) == r.value[i]
  {
    match reply
    case None => None
    case Some(xs) => Some(ConvertBoards(xs))
  }

  /** `getAllCardsOneBoard`: the converted list, or `undefined` when the request failed. */
  function GetAllCardsOneBoard(reply: Option<seq<ApiCard>>): (r: Option<seq<Card>>)
    ensures r.Some? <==> reply.Some?
    ensures r.Some? ==> |r.value| == |reply.value|
    ensures r.Some? ==> forall i :: 0 <= i < |r.value| ==> CardListFromApi(reply.value[i]) == r.value[i]
  {
    match reply
    case None => None
    case Some(xs) => Some(ConvertCards(xs))
  }

  /**
   * The card `updateLikesCount` and `updateCardMessage` resolve to: the
   * converted response body, or `undefined` when the request failed.
   */
  function UpdatedCard(reply: Option<ApiCard>): (r: Option<Card>)
    ensures r.Some? <==> reply.Some?
    ensures r.Some? ==> CardToApi(r.value) == reply.value
  {
    match reply
    case None => None
    case Some(a) => Some(CardListFromApi(a))
  }

  /** The path segment `updateLikesCount` patches: a like raises the count, an unlike lowers it. */
  function LikeEndpoint(likeStatus: bool): (endpoint: string)
    ensures endpoint == "increase" <==> likeStatus
    ensures endpoint == "decrease" <==> !likeStatus
  {
    if likeStatus then "increase" else "decrease"
  }
}
