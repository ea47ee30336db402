/** The participant provider of contexts/ParticipantProvider.js: it holds the participant store,
    turns call events into reducer actions, guards position swaps and receive-settings
    commands, and exposes the current active speaker. */
module ParticipantProvider {
  import opened Wrappers
  import opened Seqs
  import opened Media
  import opened Ordering
  import opened ParticipantReducer

  // ---------------------------------------------------------------- the active speaker

  function IsActive(p: Participant): bool {
    p.isActiveSpeaker
  }

  /** `activeParticipant`: the first entry flagged as the active speaker, if any. */
  function ActiveParticipant(ps: seq<Participant>): Option<Participant> {
    var k := FindIndex(ps, IsActive);
    if k == -1 then None else Some(ps[k])
  }

  /** `activeParticipantId`: the active participant's id, or `None` (`undefined`). */
  function ActiveParticipantId(ps: seq<Participant>): Option<Id> {
    match ActiveParticipant(ps)
    case None => None
    case Some(p) => Some(p.id)
  }

  /** The active participant is the first flagged entry, and there is none exactly when no
      entry is flagged; in a store with at most one flagged entry its id names the only one. */
  lemma ActiveParticipantFirst(ps: seq<Participant>)
    ensures ActiveParticipant(ps).None? <==> NoneActive(ps)
    ensures ActiveParticipant(ps).Some? ==>
      exists k :: 0 <= k < |ps| && ActiveParticipant(ps).value == ps[k] && ps[k].isActiveSpeaker
        && forall j :: 0 <= j < k ==> !ps[j].isActiveSpeaker
    ensures AtMostOneActive(ps) && ActiveParticipantId(ps).Some? ==>
      forall j :: 0 <= j < |ps| && ps[j].isActiveSpeaker ==> ps[j].id == ActiveParticipantId(ps).value
  {
    var k := FindIndex(ps, IsActive);
    if k != -1 && AtMostOneActive(ps) {
      forall j | 0 <= j < |ps| && ps[j].isActiveSpeaker ensures j == k {
        assert IsActive(ps[j]);
      }
    }
  }

  /** After an ACTIVE_SPEAKER event naming a listed id, in a store with distinct ids, that id is
      the active participant's id. */
  lemma ActiveSpeakerBecomesActiveParticipant(s: State, id: Id, now: Date)
    requires UniqueIds(s.participants) && id != "" && id in Ids(s.participants)
    ensures ActiveParticipantId(ActiveSpeakerStep(s, Some(id), now).participants) == Some(id)
  {
    var t := ActiveSpeakerStep(s, Some(id), now).participants;
    ActiveSpeakerMarks(s, id, now);
    var k :| 0 <= k < |s.participants| && Ids(s.participants)[k] == id;
    assert t[k].isActiveSpeaker;
    var f := FindIndex(t, IsActive);
    assert f != -1;
    assert t[f].id == id;
  }

  // ---------------------------------------------------------------- events to actions

  /** The call events the participant state listens to; `Other` stands for any other action,
      including `joined-meeting`. */
  datatype ParticipantEventKind = ParticipantJoinedEvent | ParticipantUpdatedEvent | ParticipantLeftEvent | Other

  datatype ParticipantEvent = ParticipantEvent(action: ParticipantEventKind, participant: ParticipantDescriptor)

  /** `handleNewParticipantsState`: the action dispatched for an event (`None` is the call
      without an event made on mount). */
  function EventAction(event: Option<ParticipantEvent>): Option<Action> {
    match event
    case None => None
    case Some(e) =>
      match e.action
      case ParticipantJoinedEvent => Some(Joined(e.participant))
      case ParticipantUpdatedEvent => Some(Updated(e.participant))
      case ParticipantLeftEvent => Some(Left(e.participant))
      case Other => None
  }

  /** Joins, updates and departures map to the matching action carrying the event's
      participant, anything else to no action; so the reducer never meets an action it
      rejects. */
  lemma EventActionMapping(event: Option<ParticipantEvent>, s: State, env: Env)
    ensures EventAction(event).Some? <==> event.Some? && event.value.action != Other
    ensures EventAction(event).Some? ==> match EventAction(event).value {
      case Joined(d) => event.value.action == ParticipantJoinedEvent && d == event.value.participant
      case Updated(d) => event.value.action == ParticipantUpdatedEvent && d == event.value.participant
      case Left(d) => event.value.action == ParticipantLeftEvent && d == event.value.participant
      case _ => false
    }
    ensures EventAction(event).Some? ==> Reduce(s, EventAction(event).value, env).Ok?
  {
  }

  /** The active-speaker handler: nothing for the local user's own session id, otherwise
      ACTIVE_SPEAKER with the event's peer id, which may be missing. */
  function ActiveSpeakerAction(localSessionId: Id, peerId: Option<Id>): Option<Action> {
    if peerId == Some(localSessionId) then None
    else Some(ActiveSpeaker(peerId))
  }

  lemma ActiveSpeakerActionFilter(localSessionId: Id, peerId: Option<Id>)
    ensures ActiveSpeakerAction(localSessionId, peerId).None? <==> peerId == Some(localSessionId)
    ensures ActiveSpeakerAction(localSessionId, peerId).Some? ==>
      ActiveSpeakerAction(localSessionId, peerId).value == ActiveSpeaker(peerId)
  {
  }

  // ---------------------------------------------------------------- guards

  /** `swapParticipantPosition`: SWAP_POSITION for two distinct, truthy ids neither of which
      is `"local"`; nothing otherwise. */
  function SwapAction(id1: Option<Id>, id2: Option<Id>): Option<Action> {
    if id1 == id2 || !Truthy(id1) || !Truthy(id2) || id1 == Some(LOCAL) || id2 == Some(LOCAL) then None
    else Some(SwapPosition(id1, id2))
  }

  lemma SwapActionGuard(id1: Option<Id>, id2: Option<Id>)
    ensures SwapAction(id1, id2).Some? <==>
      Truthy(id1) && Truthy(id2) && id1 != id2 && id1.value != LOCAL && id2.value != LOCAL
    ensures SwapAction(id1, id2).Some? ==> SwapAction(id1, id2).value == SwapPosition(id1, id2)
  {
  }

  /** A swap that passes the guard never moves the local participant, which the reducer alone
      does not ensure. */
  lemma GuardedSwapKeepsLocal(s: State, id1: Option<Id>, id2: Option<Id>, env: Env)
    requires UniqueIds(s.participants)
    requires SwapAction(id1, id2).Some?
    ensures var t := Reduce(s, SwapAction(id1, id2).value, env).value.participants;
      forall k :: 0 <= k < |s.participants| && s.participants[k].id == LOCAL ==> t[k] == s.participants[k]
  {
    var ps := s.participants;
    var t := SwapStep(s, id1, id2).participants;
    forall k | 0 <= k < |ps| && ps[k].id == LOCAL ensures t[k] == ps[k] {
      var i := IndexOf(ps, id1.value);
      var j := IndexOf(ps, id2.value);
      if i != -1 && j != -1 {
        IndexOfFinds(ps, id1.value);
        IndexOfFinds(ps, id2.value);
        ExchangeAt(ps, i, j);
      }
    }
  }

  /** `setLayerForParticipant`: the receive settings sent for one participant's layer; nothing
      without a call object or for `"local"`. */
  function LayerCommand(hasCallObject: bool, id: Id, layer: int): Option<map<Id, int>> {
    if !hasCallObject || id == LOCAL then None
    else Some(map[id := layer])
  }

  lemma LayerCommandGuard(hasCallObject: bool, id: Id, layer: int)
    ensures LayerCommand(hasCallObject, id, layer).Some? <==> hasCallObject && id != LOCAL
    ensures LayerCommand(hasCallObject, id, layer).Some? ==>
      && LayerCommand(hasCallObject, id, layer).value.Keys == {id}
      && LOCAL !in LayerCommand(hasCallObject, id, layer).value
      && LayerCommand(hasCallObject, id, layer).value[id] == layer
  {
  }

  /** `updateReceiveSettings`: the settings are sent as given when there is a call object. */
  function ReceiveSettingsCommand(hasCallObject: bool, settings: map<Id, int>): (r: Option<map<Id, int>>)
    ensures r.Some? <==> hasCallObject
    ensures r.Some? ==> r.value == settings
  {
    if hasCallObject then Some(settings) else None
  }

  // ---------------------------------------------------------------- the provider's store

  /** Whether the reducer's admissibility holds for an optional action. */
  predicate AdmissibleIfAny(s: State, a: Option<Action>) {
    a.Some? ==> Admissible(s, a.value)
  }

  /** The state held by `useReducer` and the handlers that dispatch into it. */
  class ParticipantStore {
    var state: State

    constructor ()
      ensures state == InitialState() && Wf(state)
    {
      state := InitialState();
      InitialStateWf();
    }

    /** `handleNewParticipantsState` delivering its action, if any, to the reducer; the store
        stays well formed when the event is one the reducer can absorb. */
    method HandleParticipantEvent(event: Option<ParticipantEvent>, env: Env)
      modifies this
      ensures EventAction(event).None? ==> state == old(state)
      ensures EventAction(event).Some? ==> Reduce(old(state), EventAction(event).value, env) == Ok(state)
      ensures old(Wf(state)) && AdmissibleIfAny(old(state), EventAction(event)) ==> Wf(state)
    {
      var a := EventAction(event);
      if a.Some? {
        EventActionMapping(event, state, env);
        if Wf(state) && Admissible(state, a.value) {
          ReducePreservesWf(state, a.value, env);
        }
        state := Reduce(state, a.value, env).value;
      }
    }

    /** The active-speaker handler, ignoring the local user's own session id. */
    method HandleActiveSpeakerChange(localSessionId: Id, peerId: Option<Id>, env: Env)
      modifies this
      ensures peerId == Some(localSessionId) ==> state == old(state)
      ensures peerId != Some(localSessionId) ==> state == ActiveSpeakerStep(old(state), peerId, env.now)
      ensures old(Wf(state)) ==> Wf(state)
    {
      var a := ActiveSpeakerAction(localSessionId, peerId);
      if a.Some? {
        if Wf(state) {
          ReducePreservesWf(state, a.value, env);
        }
        state := Reduce(state, a.value, env).value;
      }
    }

    /** `swapParticipantPosition` dispatching through its guard. */
    method SwapParticipantPosition(id1: Option<Id>, id2: Option<Id>, env: Env)
      modifies this
      ensures SwapAction(id1, id2).None? ==> state == old(state)
      ensures SwapAction(id1, id2).Some? ==> state == SwapStep(old(state), id1, id2)
      ensures old(Wf(state)) ==> Wf(state)
    {
      var a := SwapAction(id1, id2);
      if a.Some? {
        if Wf(state) {
          ReducePreservesWf(state, a.value, env);
        }
        state := Reduce(state, a.value, env).value;
      }
    }

    /** The receive-settings handler: UPDATE_LAYER with the settings the call reports. */
    method HandleReceiveSettings(receiveSettings: map<Id, int>, env: Env)
      modifies this
      ensures state == UpdateLayerStep(old(state), receiveSettings)
      ensures old(Wf(state)) ==> Wf(state)
    {
      if Wf(state) {
        ReducePreservesWf(state, UpdateLayer(receiveSettings), env);
      }
      state := Reduce(state, UpdateLayer(receiveSettings), env).value;
    }
  }
}
