# Inspiration board client: state transitions

This project models the state layer of the inspiration-board single-page
client (`src/App.js`). The `App` component holds four state cells:
`boardState`, `selectedBoard`, `cardState` and `error`. It changes them in
the completion handlers of its requests to the board service. Each handler is
modelled as a pure function from the current state and the request's outcome
to the next state. The wire-to-client field renamings are modelled as
well, and the sequence operations the handlers use (`find`, `filter`, `map`)
are proved against independent characterisations.

Modules:

- `Wrappers` (`wrappers.dfy`): `Option` and `Result`.
- `Api` (`api.dfy`): the wire records (`ApiBoard`, `ApiCard`), the client
  records (`Board`, `Card`), `convertFromApi`, `cardListFromApi`, the
  transport helpers' resolved values and the like endpoint choice.
- `Lists` (`lists.dfy`): lookup by board id, removal by card id,
  replacement by card id, and id uniqueness.
- `App` (`app.dfy`): the state cells, the events, the synchronous handlers and one
  transition per completion.
- `Properties` (`properties.dfy`): properties of sequences of events.

## Behaviour as written

The model follows the code, including where it falls short of what the
client is meant to do:

- The five transport helpers (src/App.js:27-28, 43-44, 55-56, 66-67, 73-74)
  each end in an empty `catch`. That `catch` turns a failed request into a
  resolved `undefined`. The outcomes of the board list, card list, like, edit
  and delete requests are therefore an `Option`, and the completion still
  runs on `None`.
- The two creation requests (src/App.js:111-119, 123-131) go through no
  such helper. A rejection reaches the handler's own `.catch`, which sets
  `error`. Their outcome is a `Result` whose failure carries the rejection.
- A failed board fetch stores `undefined` in `boardState`; a failed card fetch
  stores `undefined` in `cardState`. Neither leaves an empty list behind.
- A card fetch's completion replaces `cardState` whatever board is selected
  by then. There is no stale-response guard, so a late fetch for a previously
  selected board wins (`Properties.LateCardFetchWins`).
- A delete completion filters the card out even when the delete request
  failed.
- A failed like or edit replaces the matching card with `undefined`. The next
  `filter` or `map` over the list then reads `cardId` of `undefined` and
  throws. This lasts until a card fetch succeeds
  (`Properties.FailedUpdateHoleLasts`).
- A state updater that throws a TypeError is modelled as the step `Fault`.
  React abandons that render. The model does not go past it.
- A synchronous handler that throws sends nothing and changes nothing. This
  happens when `find` runs on an undefined `boardState`, or when a card is
  submitted with no selected board.
- Nothing enforces unique card ids. Removal and same-id replacement keep ids
  unique. A created card keeps them unique exactly when its id is fresh.

## Model

| member | source | states |
|---|---|---|
| Api.ConvertFromApi | src/App.js:15-19 | the client board has `boardId = board_id` and the same title and owner; encoding it back gives the wire board |
| Api.CardListFromApi | src/App.js:31-35 | the client card has `cardId = card_id`, `likesCount = likes_count` and the same message; encoding it back gives the wire card |
| Api.ConvertFromApiBijective | src/App.js:15-19 | a wire board converts to a given client board iff it is that board's encoding (the renaming loses nothing) |
| Api.CardListFromApiBijective | src/App.js:31-35 | a wire card converts to a given client card iff it is that card's encoding |
| Api.ConvertBoards | src/App.js:25 | mapping the list keeps its length, and each element encodes back to the wire board at the same position |
| Api.ConvertCards | src/App.js:41 | mapping the list keeps its length, and each element encodes back to the wire card at the same position |
| Api.GetAllBoards | src/App.js:21-29 | the helper yields a list iff the request succeeded; that list is the wire list converted element by element, in order |
| Api.GetAllCardsOneBoard | src/App.js:37-45 | the helper yields a list iff the request succeeded; that list is the wire list converted element by element, in order |
| Api.UpdatedCard | src/App.js:47-68 | the like and edit helpers yield a card iff the request succeeded; that card encodes back to the response body |
| Api.LikeEndpoint | src/App.js:47-48 | the endpoint is `increase` exactly when `likeStatus` is true and `decrease` exactly when it is false |
| Lists.Defined | src/App.js:145-146 | a callback that reads `card.cardId` succeeds on every entry iff no entry is undefined, and then the entries are exactly the cards |
| Lists.FirstBoardIndex | src/App.js:94-96 | returns the least position whose board has the id, or none when no board has it |
| Lists.FindBoardById | src/App.js:94-96 | finds nothing iff no board has the id; otherwise returns a listed board with that id that no earlier board's id matches |
| Lists.FindBoardByIdUnique | src/App.js:94-96 | when board ids are unique, the lookup returns the one board carrying the id |
| Lists.Without | src/App.js:137 | the result never grows; it contains a card iff the input does and the card's id differs |
| Lists.WithoutKeepsOrder | src/App.js:137 | the result is the input read at increasing positions, and those are exactly the positions whose id differs (relative order is kept) |
| Lists.WithoutAbsent | src/App.js:137 | filtering out an id no card carries returns the list unchanged |
| Lists.WithoutIdempotent | src/App.js:137 | filtering out the same id twice is the same as filtering it out once |
| Lists.WithoutKeepsUnique | src/App.js:137 | filtering keeps card ids unique |
| Lists.ReplaceById | src/App.js:145-150 | the length is kept; every entry whose id differs stays as it was; every entry whose id matches becomes the given value |
| Lists.ReplaceAbsent | src/App.js:145-150 | replacing an id no card carries changes nothing |
| Lists.ReplaceDefinedIff | src/App.js:145-150 | after a replacement, no entry is undefined iff the replacement is a card or no card had the id |
| Lists.ReplaceKeepsIds | src/App.js:145-150 | replacing with a card of the same id keeps the ids of the list in order |
| Lists.ReplaceIdempotent | src/App.js:145-150 | replacing twice with the same same-id card is the same as replacing once |
| Lists.ReplaceKeepsUnique | src/App.js:145-150 | replacing with a card of the same id keeps card ids unique |
| Lists.PrependUniqueIff | src/App.js:113 | putting a card in front of a list with unique ids keeps them unique iff its id is new |
| App.HandleBoardSelection | src/App.js:104-108 | with a defined board list, the selection becomes the first board with the id (or none), the cards of that id are requested even when no board matched, and no other cell changes; with an undefined list, nothing happens |
| App.Handle | src/App.js:90-156 | no handler touches boards, cards or error synchronously, and only a selection changes state; each handler sends its request (a like sends the endpoint its status selects); a request is missing only for a selection over an undefined board list or a card submission with no selected board |
| App.FetchBoardsDone | src/App.js:84-88 | the board list becomes the fetched boards converted in order, or undefined iff the fetch failed; nothing else changes |
| App.FetchCardsDone | src/App.js:98-102 | the card list becomes the fetched cards converted in order, or undefined iff the fetch failed; boards, selection and error are untouched |
| App.CardSubmitDone | src/App.js:110-120 | on success the new card is in front of the previous entries in their previous order and the error is cleared; on failure the error is the extracted message and the cards are unchanged; it faults iff the success meets an undefined card list |
| App.BoardSubmitDone | src/App.js:122-132 | on success the converted `board` of the body is in front of the previous boards and the error is cleared, and the selection is untouched; on failure the error is the extracted message and the boards are unchanged; it faults iff the success meets an undefined board list |
| App.UnregisterDone | src/App.js:134-140 | it faults iff the card list is undefined or holds an undefined entry; otherwise the list never grows, keeps no card with the id, and keeps every card with another id; no other cell changes |
| App.CardUpdateDone | src/App.js:142-166 | it faults iff the card list is undefined or holds an undefined entry; otherwise the length is kept, entries with another id are unchanged, and entries with the id become the returned card (undefined on failure); no other cell changes |
| Properties.LateCardFetchWins | src/App.js:98-108 | after selecting `a` then `b`, when `a`'s fetch completes last, the cards are `a`'s while `b`'s board is selected |
| Properties.CardFetchIgnoresSelection | src/App.js:98-102 | the card fetch's completion is the same whatever board is selected |
| Properties.ErrorLifecycle | src/App.js:110-132 | a failed board creation sets the error to the extracted message and leaves the boards alone; a later successful card or board creation clears it |
| Properties.SilentCompletions | src/App.js:134-166 | delete, like and edit completions never change the error cell |
| Properties.DeleteIgnoresOutcome | src/App.js:70-75 | the delete completion does the same when the request failed as when it succeeded |
| Properties.DeleteKeepsOthersInOrder | src/App.js:134-139 | after a delete no card has the id, and the remaining cards are exactly those with other ids, in their original relative order |
| Properties.FailedUpdateLeavesHole | src/App.js:142-166 | a failed like or edit of a listed card leaves an undefined entry; in that state every delete, like or edit completion faults, and a successful card fetch makes the list readable again |
| Properties.HoleSurvivesStep | src/App.js:84-166 | an unreadable card list (undefined, or holding an undefined entry) stays unreadable through any one event other than a successful card fetch, including a failed fetch, a card creation, the board completions and every intent; a delete, like or edit completion on it faults |
| Properties.HolePersists | src/App.js:84-166 | an unreadable card list stays unreadable through any run of events that contains no successful card fetch |
| Properties.HoleFaultsLater | src/App.js:134-166 | after such a run from an unreadable card list, a delete, like or edit completion faults |
| Properties.FailedUpdateHoleLasts | src/App.js:142-166 | a failed like or edit of a listed card, then any events without a successful card fetch, then a delete, like or edit completion: the run faults |
| Properties.UpdateKeepsOrder | src/App.js:142-166 | a like or edit answered with a same-id card keeps every id at its position |
| Properties.UpdateIdempotent | src/App.js:142-153 | applying the same server-confirmed card twice equals applying it once, so the count shown is the server's |
| Properties.DeleteKeepsUnique | src/App.js:134-139 | a delete completion keeps card ids unique |
| Properties.UpdateKeepsUnique | src/App.js:142-166 | a like or edit answered with a same-id card keeps card ids unique |
| Properties.SubmitUniqueIff | src/App.js:110-115 | after a successful card creation, ids are unique iff the server's id was new |
| Properties.ScenarioBoardsLoaded | src/App.js:84-88 | the board list `[{board_id: 1, title: "Ideas", owner: "Ana"}]` is stored as `[Board(1, "Ideas", "Ana")]` |
| Properties.ScenarioToggleLike | src/App.js:142-153 | liking card 11 requests `increase`; the confirmed card replaces card 11, and card 12 is left alone |

## Left out

- HTTP transport: axios calls, `kBaseUrl`, URL construction and request bodies (src/App.js:13, 21-75). Each request's outcome is an input to its completion. The body a handler posts or patches is passed through unchanged and is not modelled.
- `getResponseError`: `./errorUtils.js` is not part of this model. The extracted message is a function parameter `describe`, about which nothing is assumed.
- React machinery: `useState`/`useEffect` scheduling, update batching, re-rendering and the JSX tree (src/App.js:77-92, 169-206). Each completion applies as one atomic event. Interleavings are covered only by applying completions in any chosen order. What React does after a faulting updater is not modelled.
- Payload shape: wire records are typed. A response that is not an array, or a body without the expected fields, is not modelled.
- Rendering an undefined list: after a failed board fetch, `BoardList` maps over `undefined` (src/components/BoardList.js:7, 24) and that render throws. What happens then is not modelled. From the UI shown, a selection over an undefined board list and the Fault path of `BoardSubmitDone` therefore cannot be reached; the model keeps them as the handlers' own behaviour.
- Api.LikeEndpoint: takes a boolean. The code branches on the truthiness of any `likeStatus` value (src/App.js:48), and the component that supplies it is not part of this model, so non-boolean statuses are not modelled.
- JavaScript numbers: ids and counts are unbounded integers. `===` between a number id and a string id is not modelled.
- `src/components/NewCardForm.js` and `src/components/BoardList.js`: form state and rendering only. The form also calls a prop (`onHandleSubmit`) that `App` does not pass.
