# Track subscriptions: a Dafny model

This project models the core of *track-subscriptions*. It is a video-call front end that shows participants in a paginated grid of 16:9 tiles. It keeps its bandwidth low in four ways:

- It subscribes to the cameras of the participants on the current page.
- It stages the cameras of the neighbouring pages and of the most recent speakers.
- It unsubscribes from every other camera.
- It lowers the requested simulcast layer as more tiles share the page.

The model covers these parts:

- **`ParticipantReducer`** (`participant_reducer.dfy`) is the participant store: an ordered list of participants plus a speaker announced before their join.
  - It models the six actions as pure transitions with the reducer's exact placement rules.
  - It proves what each action does and that a well-formed store stays well formed along any run. Well formed means: ids are distinct, the local entry is present and is the only local one, at most one speaker is active, and nobody is active while a speaker is pending.
- **`AspectGrid`** (`aspect_grid.dfy`) is the grid geometry. It covers columns, rows, page size, page count, the page clamp, the `Pager` state with its buttons, and the brute-force tile search. The search is a loop over candidate column counts followed by a largest-area reduction.
- **`PaginatedGrid`** (`paginated_grid.dfy`) covers the rest of the grid:
  - the visible page;
  - the window of ids that are subscribed or staged;
  - the split of that window into subscribed and staged ids;
  - promotion of an off-page active speaker onto page 1;
  - the automatic layer choice.
- **`TracksProvider`** (`tracks_provider.dfy`) covers three things:
  - the six most recent speakers;
  - the remote ids;
  - the computation of camera-subscription updates. It is a loop proved equal to a map specification, and applying its updates leaves nothing to update.

  It also holds the table of video tracks kept from track events.
- **`ParticipantProvider`** (`participant_provider.dfy`) wires call events to reducer actions. It models the guards on swaps and layer commands, the active participant, and the store that dispatches into the reducer.
- **`VideoTrack`** (`video_track.dfy`) is the gate that decides whether a tile receives its participant's camera track.
- Shared modules:
  - `Wrappers`: `Option` and `Result`.
  - `Seqs`: `filter`, `findIndex`, `slice` with JavaScript's negative indices, `reverse`.
  - `Ordering`: a stable sort under an abstract key order.
  - `Media`: ids, track states and participant descriptors.

How JavaScript values are represented:

- `undefined` and `null` are written as `None`.
- A falsy id is `None` or the empty string.
- Dates are integers.
- Pixel lengths are exact reals.
- The clock and the random colour of a new entry are an `Env` parameter of the reducer.
- Calls into the call object (`updateParticipants`, `updateReceiveSettings`) are modelled as the values the code would pass to them.

## Model

| member | source | states |
|---|---|---|
| ParticipantReducer.InitialStateWf | contexts/participantReducer.js:10-25 | the initial store (the local user alone) satisfies the store invariant |
| ParticipantReducer.IndexOfFinds | contexts/participantReducer.js:139-141 | `findIndex` on ids gives -1 exactly for an absent id, otherwise an index holding that id |
| ParticipantReducer.IndexOfUnique | contexts/participantReducer.js:139-140 | with distinct ids, `findIndex` returns the one position holding the id |
| ParticipantReducer.ActiveSpeakerPending | contexts/participantReducer.js:51-67 | a falsy id only clears the pending speaker; a known id clears it; an unknown id records it with the event time |
| ParticipantReducer.ActiveSpeakerMarks | contexts/participantReducer.js:58-72 | exactly the entries with the speaker's id become active and get the event time as last active date; every other field is kept; an unknown id leaves nobody active |
| ParticipantReducer.NewcomerEntry | contexts/participantReducer.js:27-84 | a joiner's entry takes its id (`"local"` or the user id), name, camera, microphone, loading, local and owner flags from the descriptor, a fresh colour and no layer; it is active with the pending date exactly when it is the pending speaker, otherwise inactive with no date |
| ParticipantReducer.JoinPlacement | contexts/participantReducer.js:76-105 | a camera-off joiner is appended; a camera-on joiner is inserted before the first inactive remote camera-off entry, or appended when there is none; the pending speaker is cleared exactly when it joined |
| ParticipantReducer.UpdateInPlace | contexts/participantReducer.js:106-126 | an update of an unknown id leaves the state unchanged; otherwise only that entry changes, keeping its speaker flag, date, layer and colour and taking the new name, local and owner flags, mute flags and loading flag |
| ParticipantReducer.UpdateUnchangedIsNoop | contexts/participantReducer.js:116-123 | an update that recomputes the same entry returns the previous state |
| ParticipantReducer.LeftRemoves | contexts/participantReducer.js:127-134 | leaving removes exactly the entries with the user's id and keeps the others; an absent id changes nothing; with distinct ids the result is the list with that one entry cut out, the rest in their order |
| ParticipantReducer.SwapExchanges | contexts/participantReducer.js:136-149 | a swap of two listed truthy ids exchanges their entries and nothing else (a permutation); any other swap changes nothing |
| ParticipantReducer.ExchangeInCopy | contexts/participantReducer.js:137-144 | the copy-and-exchange through a temporary yields the list with the two entries exchanged |
| ParticipantReducer.ExchangeIsPermutation | contexts/participantReducer.js:142-144 | exchanging two entries is a permutation of the list |
| ParticipantReducer.SwapTwiceIsIdentity | contexts/participantReducer.js:136-149 | with distinct ids, swapping the same pair twice restores the state |
| ParticipantReducer.UpdateLayerSets | contexts/participantReducer.js:151-157 | every entry's layer becomes the one the settings give for its id (absent otherwise); nothing else changes |
| ParticipantReducer.ReduceFailsOnlyOnUnknown | contexts/participantReducer.js:159-161 | the reducer throws exactly for an unrecognized action |
| ParticipantReducer.ActiveSpeakerPreservesWf | contexts/participantReducer.js:51-74 | ACTIVE_SPEAKER keeps the store invariant |
| ParticipantReducer.JoinPreservesWf | contexts/participantReducer.js:76-105 | PARTICIPANT_JOINED of a new remote id keeps the store invariant |
| ParticipantReducer.UpdatePreservesWf | contexts/participantReducer.js:106-126 | PARTICIPANT_UPDATED keeps the store invariant unless a remote descriptor claims the id `"local"` |
| ParticipantReducer.LeftPreservesWf | contexts/participantReducer.js:127-134 | PARTICIPANT_LEFT of a remote user keeps the store invariant |
| ParticipantReducer.SwapPreservesWf | contexts/participantReducer.js:136-149 | SWAP_POSITION keeps the store invariant |
| ParticipantReducer.UpdateLayerPreservesWf | contexts/participantReducer.js:151-157 | UPDATE_LAYER keeps the store invariant |
| ParticipantReducer.ReducePreservesWf | contexts/participantReducer.js:49-162 | every admissible action maps a well-formed store to a well-formed store |
| ParticipantReducer.RunPreservesWf | contexts/participantReducer.js:49-162 | any run of admissible actions from a well-formed store ends in a well-formed store |
| AspectGrid.CeilDiv | hooks/useAspectGrid.js:83 | `Math.ceil(a / b)` is the least `q` with `a <= q * b` |
| AspectGrid.MaxColumns | hooks/useAspectGrid.js:51 | at least one column; otherwise the number of whole 280-wide columns in the width |
| AspectGrid.MaxRows | hooks/useAspectGrid.js:52-53 | at least one row; otherwise the whole number of column-wide 16:9 tile heights in the height |
| AspectGrid.PageSize | hooks/useAspectGrid.js:58-61 | the page size is the smaller of the tiles that fit and the per-page maximum, and is positive when that maximum is |
| AspectGrid.Pages | hooks/useAspectGrid.js:64-66 | the page count is the fewest pages of that size holding every tile, and zero only for no tiles |
| AspectGrid.ClampedPageProperties | hooks/useAspectGrid.js:69-72 | the clamp changes the page only when it is past the last page, never leaves it past the last page, and is idempotent |
| AspectGrid.SettledPageInRange | hooks/useAspectGrid.js:63-72 | once the page count is recomputed for at least one tile and the clamp has run, the page lies between 1 and the page count |
| AspectGrid.Pager.constructor | hooks/useAspectGrid.js:15-16 | the page and the page count both start at 1 |
| AspectGrid.Pager.SyncPages | hooks/useAspectGrid.js:64-66 | the page count becomes `Pages` of the tiles and the page size; the page is unchanged |
| AspectGrid.Pager.ClampPage | hooks/useAspectGrid.js:69-72 | the page becomes its clamp; the page count is unchanged |
| AspectGrid.Pager.PrevClick | components/PaginatedGrid.js:190-197 | the previous button moves back one page unless there is at most one page or the page is the first; an in-range page stays in range |
| AspectGrid.Pager.NextClick | components/PaginatedGrid.js:201-208 | the next button moves on one page unless there is at most one page or the page is the last; an in-range page stays in range |
| AspectGrid.CandidateFits | hooks/useAspectGrid.js:80-91 | every candidate is 16:9; its columns with 1-unit gaps fit the width, and its `ceil(n / i)` rows fit the height |
| AspectGrid.CandidateTileFits | hooks/useAspectGrid.js:80-91 | every candidate satisfies the fit predicate used by the tile search |
| AspectGrid.LargestTile | hooks/useAspectGrid.js:92-98 | the reduction from `[0, 0]` keeps a candidate of largest area, the last among equals |
| AspectGrid.TileSize | hooks/useAspectGrid.js:75-99 | for no tiles the whole container; otherwise the last largest candidate, which is 16:9 and whose columns and rows fit the container |
| AspectGrid.ExampleLayout | hooks/useAspectGrid.js:49-66 | a 1200 by 600 container gives 4 columns, 3 rows, a page of 12, and one page for 10 tiles |
| PaginatedGrid.VisibleParticipants | components/PaginatedGrid.js:31-35 | never more than a page of participants is visible |
| PaginatedGrid.VisibleRun | components/PaginatedGrid.js:31-35 | a page with participants beyond it shows its own slice; otherwise the last page-size participants are shown; either way `min(pageSize, n)` of them |
| PaginatedGrid.WindowFirstPage | components/PaginatedGrid.js:56-61 | page 1's window is the first two pages' ids |
| PaginatedGrid.WindowLastPage | components/PaginatedGrid.js:62-67 | the last page's window (past page 1) is the last two pages' worth of ids |
| PaginatedGrid.WindowInterior | components/PaginatedGrid.js:68-76 | any other page's window is its own ids with one page of buffer on each side, cut to the list |
| PaginatedGrid.WindowSize | components/PaginatedGrid.js:50-77 | the window never holds more than `3 * pageSize` ids |
| PaginatedGrid.SplitWindow | components/PaginatedGrid.js:79-94 | the loop yields the window's visible non-local ids as subscribed and its other non-local ids as staged, in window order |
| PaginatedGrid.SplitMembership | components/PaginatedGrid.js:84-92 | an id is subscribed exactly when it is in the window, non-local and visible; it is staged exactly when it is in the window, non-local and not visible; never both, and `"local"` never |
| PaginatedGrid.SplitPartitions | components/PaginatedGrid.js:79-94 | subscribed and staged together are, as a multiset, the window without `"local"` |
| PaginatedGrid.VisibleWithinWindow | components/PaginatedGrid.js:50-77 | on any page from 1 to the page count, every visible id is in that page's window |
| PaginatedGrid.SubscribedAreVisible | components/PaginatedGrid.js:30-95 | on any page from 1 to the page count, the subscribed ids are exactly the visible non-local ids |
| PaginatedGrid.ExampleFirstPage | components/PaginatedGrid.js:50-95 | twelve remotes on page 1 with four per page: p1 to p4 are subscribed and p5 to p8 are staged |
| PaginatedGrid.PromotionNoop | components/PaginatedGrid.js:130-162 | no swap exactly when the speaker id is falsy or already visible, the page is past the first, or no visible participant is remote; the effect adds no case |
| PaginatedGrid.PromotionPicksLeastRecent | components/PaginatedGrid.js:148-154 | under a total key order, the speaker is swapped with the first visible remote participant of least `lastActiveDate` |
| PaginatedGrid.PromotedIsVisible | components/PaginatedGrid.js:148-154 | the participant demoted by a promotion is a visible remote participant |
| PaginatedGrid.PromotionShowsSpeaker | components/PaginatedGrid.js:130-162 | after the reducer performs the promotion swap, the speaker is on page 1 and the demoted participant is not |
| PaginatedGrid.LayerFor | components/PaginatedGrid.js:174-175 | the layer is 2 exactly below 5 visible tiles, 0 exactly from 10, else 1 |
| PaginatedGrid.LayerNonIncreasing | components/PaginatedGrid.js:175 | more visible tiles never ask for a higher layer |
| PaginatedGrid.AutoLayerSettings | components/PaginatedGrid.js:169-186 | without auto layers, nothing; otherwise the settings cover exactly the visible non-local ids, each at the layer for the visible count, as the map `AutoLayerMap` describes |
| PaginatedGrid.AutoLayerCommand | components/PaginatedGrid.js:169-186 | what the effect's `updateReceiveSettings` call sends: with a call object, settings for exactly the visible non-local ids, never `"local"`, each at the same layer in 0 to 2; without one, nothing |
| TracksProvider.RecentSpeakersAreRemote | contexts/TracksProvider.js:26-35 | at most six recent speakers, each a listed remote participant that has spoken |
| TracksProvider.RecentSpeakersMostRecentFirst | contexts/TracksProvider.js:26-35 | under a total key order the recent speakers run from the most to the least recent |
| TracksProvider.RecentSpeakersAreTop | contexts/TracksProvider.js:26-35 | a remote speaker left out is no more recent than any speaker kept |
| TracksProvider.RemoteParticipantIdsMembers | contexts/TracksProvider.js:37-41 | an id is remote exactly when a non-local entry carries it; `"local"` is never remote in a store that flags only it as local |
| TracksProvider.DesiredPrecedence | contexts/TracksProvider.js:51-74 | subscribed wins over staged; a recent speaker or staged id is staged unless subscribed; dropping subscribed ids from the recent speakers changes no decision |
| TracksProvider.UpdateCamSubscriptions | contexts/TracksProvider.js:47-99 | nothing without a call object; otherwise the loop yields exactly the updates for non-empty, non-local remote ids whose camera is not in its desired state |
| TracksProvider.UpdatesConverge | contexts/TracksProvider.js:76-94 | applying the updates leaves no update to make |
| TracksProvider.UpdatesOnlyWhereNeeded | contexts/TracksProvider.js:58-94 | an id is updated exactly when it is a non-empty, non-local remote id whose subscription differs from the desired one |
| TracksProvider.TrackTable.constructor | contexts/TracksProvider.js:24 | the table starts empty |
| TracksProvider.TrackTable.HandleTrackUpdate | contexts/TracksProvider.js:107-136 | with no participant, nothing changes; a started or stopped video track, or a participant update, files the participant's video record under its id; a departure removes the id; other kinds of track change nothing |
| ParticipantProvider.ActiveParticipantFirst | contexts/ParticipantProvider.js:33-42 | the active participant is the first active entry and is absent exactly when none is active; with at most one active entry its id names it |
| ParticipantProvider.ActiveSpeakerBecomesActiveParticipant | contexts/ParticipantProvider.js:34-42 | after ACTIVE_SPEAKER for a listed id, with distinct ids, that id is the active participant's |
| ParticipantProvider.EventActionMapping | contexts/ParticipantProvider.js:44-70 | joins, updates and departures dispatch the matching action with the event's participant; no event and other events dispatch nothing; the reducer accepts every dispatched action |
| ParticipantProvider.ActiveSpeakerActionFilter | contexts/ParticipantProvider.js:104-112 | the local user's own session id dispatches nothing; any other peer id, missing or not, dispatches ACTIVE_SPEAKER |
| ParticipantProvider.SwapActionGuard | contexts/ParticipantProvider.js:120-128 | a swap is dispatched exactly for two distinct truthy ids, neither `"local"` |
| ParticipantProvider.GuardedSwapKeepsLocal | contexts/ParticipantProvider.js:120-128 | a guarded swap never moves the local participant |
| ParticipantProvider.LayerCommandGuard | contexts/ParticipantProvider.js:158-170 | a layer command is sent exactly with a call object for a non-local id; it names only that id, never `"local"`, at the chosen layer |
| ParticipantProvider.ReceiveSettingsCommand | contexts/ParticipantProvider.js:149-156 | receive settings are passed on unchanged exactly when there is a call object; `PaginatedGrid.AutoLayerCommand` states what that means for the auto-layer settings |
| ParticipantProvider.ParticipantStore.constructor | contexts/ParticipantProvider.js:28 | the store starts as the reducer's initial state, which is well formed |
| ParticipantProvider.ParticipantStore.HandleParticipantEvent | contexts/ParticipantProvider.js:44-70 | the store becomes the reducer's result for the event's action, or is unchanged without one; admissible events keep it well formed |
| ParticipantProvider.ParticipantStore.HandleActiveSpeakerChange | contexts/ParticipantProvider.js:104-112 | the local session id leaves the store unchanged; otherwise ACTIVE_SPEAKER is applied; well-formedness is kept |
| ParticipantProvider.ParticipantStore.SwapParticipantPosition | contexts/ParticipantProvider.js:120-128 | a guarded swap is applied through the reducer, an unguarded one changes nothing; well-formedness is kept |
| ParticipantProvider.ParticipantStore.HandleReceiveSettings | contexts/ParticipantProvider.js:136-141 | the reported settings are applied as UPDATE_LAYER; well-formedness is kept |
| VideoTrack.UseVideoTrackGate | hooks/useVideoTrack.js:16-25 | the hook returns `null` exactly for an off or blocked track, or a remote track that is unsubscribed or missing; otherwise it returns the record's persistent track |
| VideoTrack.StagedTrackIsReturned | hooks/useVideoTrack.js:18-24 | a staged remote track that is neither off nor blocked is returned |
| VideoTrack.LocalTrackIgnoresSubscription | hooks/useVideoTrack.js:18-24 | the local track is returned unless off or blocked, as `undefined` when it has no record |

## Left out

- The layer menu of components/Tile.js:35 is not modelled. Its guard `!id !== "local"` compares a boolean with a string, so it is always true and the menu also appears on the local tile. The intended guard is `id !== "local"`. Choosing a layer there still sends nothing for `"local"`, because the provider checks the id itself (`ParticipantProvider.LayerCommandGuard`).
- The resize and orientation listeners and `requestAnimationFrame` in hooks/useAspectGrid.js:21-46 are not modelled. The container's width and height are parameters.
- The 50 ms debounce of the camera-subscription update in components/PaginatedGrid.js:97-105 is not modelled. The subscribed and staged lists are passed to `UpdateCamSubscriptions` directly.
- Registration and removal of event handlers on the call object (`on`/`off`) are left out, and so is `console.log`. Each handler is modelled as the function or method it runs.
- React rendering is left out: memoisation, deep-compare effects, the tile components and the style sheet.
- Floating point is left out. Pixel lengths and the aspect ratio are exact reals, so rounding is not modelled.
- AspectGrid.MaxRows: requires a width of at least 1. With a zero width the source divides by zero and gets an infinite or NaN row count; this is not modelled.
- AspectGrid.PageSize: requires a width of at least 1, for the same reason.
- AspectGrid.Pages: requires a page size of at least 1. A zero page size yields `Infinity` or `NaN` in the source. The default maximum of 12 never yields one.
- PaginatedGrid.WindowIds: the last-page case is only taken with a page size of at least 1, because `Math.ceil(n / 0)` never equals a page number.
- PaginatedGrid.SubscribedAreVisible: stated only for pages from 1 to the page count. Between a page-count change and the clamp effect, the page can briefly lie past the last page, and its window may then miss visible ids.
- The last page shows the final `pageSize` participants, so it can repeat entries of the page before it. This is how the source behaves, and `VisibleRun` states it.
- `sortByKey` (lib/sortByKey.js) is not part of this model.
  - Its comparison is an abstract key order `le` over optional dates.
  - The properties that need order facts assume `le` is a total preorder.
  - `Array.prototype.sort` is a stable sort, modelled by a stable insertion sort.
  - contexts/TracksProvider.js and components/PaginatedGrid.js import `sortByKey` from two different directories (`lib` and `libs`); the model assumes one function.
- An `undefined` user id is not modelled. A descriptor's user id is always a string. In the id lists of contexts/TracksProvider.js and components/PaginatedGrid.js, the empty string stands for a falsy id.
- ParticipantReducer.NewcomerEntry: does not cover a remote joiner whose `user_id` is `undefined`.
  - In the source, the joiner's id is then `undefined`.
  - If no speaker is pending, the comparison with the missing pending id at contexts/participantReducer.js:79-80 holds. So the joiner is marked active with an undefined date, possibly beside an entry that is already active.
  - The model gives every joiner a string id. Such a joiner is never taken for the pending speaker.
- ParticipantReducer.JoinPlacement: inherits the same gap for an `undefined` `user_id`; the placement itself is unaffected.
- ParticipantReducer.JoinPreservesWf: inherits the same gap. In the source such a join can leave two active entries, which the invariant forbids.
- TracksProvider.TrackTable.HandleTrackUpdate: on a departure the source deletes the entry from the previous state object and returns that same object. React may therefore not re-render for the removal. The model records the removal and does not model React's same-reference bail-out.
- ParticipantReducer.ReducePreservesWf: stated for admissible actions only. Admissible means a join of an id not yet listed, and no remote descriptor claiming `"local"`. The source does not guard against these, and a duplicate join would list an id twice.
- The colour drawn by `Math.random()` and the time from `new Date()` are the `Env` parameter of the reducer.
- ParticipantProvider.ActiveSpeakerAction: the local session id comes from `callObject.participants()`, and it is a parameter here.
- Receive settings are maps from id to layer. The `{ video: { layer } }` nesting of the call object's format is not modelled.
