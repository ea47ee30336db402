/** The participant store: an ordered list of participants plus a record of an active speaker
    that was announced before their join event arrived. Each action is a transition from the
    previous state to the next; a participant's position is its index in the list. */
module ParticipantReducer {
  import opened Wrappers
  import opened Seqs
  import opened Media
  import opened Ordering

  /** A colour tag: `Math.floor(Math.random() * 11)`. */
  type Color = c: int | 0 <= c <= 10

  /** One entry of the registry. `layer` is `None` while absent or `undefined`; `color` is
      `None` only for the initial local entry, which is created without one. */
  datatype Participant = Participant(
    id: Id,
    name: string,
    layer: Option<int>,
    isCamMuted: bool,
    isMicMuted: bool,
    isLoading: bool,
    isLocal: bool,
    isOwner: bool,
    isActiveSpeaker: bool,
    lastActiveDate: Option<Date>,
    color: Option<Color>)

  /** The sort key of an entry: its last active date, absent while it has never spoken. */
  function LastActiveKey(p: Participant): Option<Date> {
    p.lastActiveDate
  }

  /** Whether an entry is a remote participant, i.e. not flagged local. */
  function IsRemote(p: Participant): bool {
    !p.isLocal
  }

  /** `lastPendingUnknownActiveSpeaker`: a speaker announced before their join. */
  datatype PendingSpeaker = PendingSpeaker(id: Id, date: Date)

  datatype State = State(participants: seq<Participant>, pending: Option<PendingSpeaker>)

  /** What the reducer draws from its environment: the clock (`new Date()`) and the random
      colour of a newly created entry. */
  datatype Env = Env(now: Date, color: Color)

  /** The actions the reducer is dispatched; `Unrecognized` is any other action type. */
  datatype Action =
    | ActiveSpeaker(id: Option<Id>)
    | Joined(participant: ParticipantDescriptor)
    | Updated(participant: ParticipantDescriptor)
    | Left(participant: ParticipantDescriptor)
    | SwapPosition(id1: Option<Id>, id2: Option<Id>)
    | UpdateLayer(receiveSettings: map<Id, int>)
    | Unrecognized(kind: string)

  /** The error thrown for an unrecognized action. */
  datatype ReducerError = UnknownAction(kind: string)

  /** The store before any event: the local user alone, still loading. */
  function InitialState(): State {
    State([Participant(LOCAL, "", None, false, false, true, true, false, false, None, None)], None)
  }

  function Ids(ps: seq<Participant>): seq<Id> {
    seq(|ps|, i requires 0 <= i < |ps| => ps[i].id)
  }

  /** `participants.findIndex((p) => p.id === id)`. */
  function IndexOf(ps: seq<Participant>, id: Id): int {
    FindIndex(ps, (p: Participant) => p.id == id)
  }

  /** `createOrUpdateParticipant`: a fresh entry for `d`, keeping from the previous entry `prev`
      (when there is one) its speaker flag, last active date, colour and layer. */
  function CreateOrUpdate(d: ParticipantDescriptor, prev: Option<Participant>, color: Color): Participant {
    Participant(
      id := StoreId(d),
      name := d.userName,
      layer := if prev.Some? then prev.value.layer else None,
      isCamMuted := IsOffOrBlocked(d.video),
      isMicMuted := IsOffOrBlocked(d.audio),
      isLoading := IsLoadingTrack(d.audio) || IsLoadingTrack(d.video),
      isLocal := d.local,
      isOwner := d.owner,
      isActiveSpeaker := prev.Some? && prev.value.isActiveSpeaker,
      lastActiveDate := if prev.Some? then prev.value.lastActiveDate else None,
      color := if prev.Some? && prev.value.color.Some? then prev.value.color else Some(color))
  }

  // ---------------------------------------------------------------- ACTIVE_SPEAKER

  function MarkSpeaker(p: Participant, id: Id, now: Date): Participant {
    p.(isActiveSpeaker := p.id == id,
       lastActiveDate := if p.id == id then Some(now) else p.lastActiveDate)
  }

  function ActiveSpeakerStep(s: State, id: Option<Id>, now: Date): State {
    if !Truthy(id) then s.(pending := None)
    else
      var ps := s.participants;
      State(
        seq(|ps|, i requires 0 <= i < |ps| => MarkSpeaker(ps[i], id.value, now)),
        if id.value in Ids(ps) then None else Some(PendingSpeaker(id.value, now)))
  }

  // ---------------------------------------------------------------- PARTICIPANT_JOINED

  /** The entries a camera-on joiner is placed in front of. */
  predicate InactiveCamOff(p: Participant) {
    p.isCamMuted && !p.isLocal && !p.isActiveSpeaker
  }

  /** Whether the joiner is the speaker recorded as pending. */
  predicate IsPendingSpeaker(s: State, d: ParticipantDescriptor) {
    s.pending.Some? && StoreId(d) == s.pending.value.id
  }

  /** The entry a join event adds. */
  function Newcomer(s: State, d: ParticipantDescriptor, color: Color): Participant {
    var item := CreateOrUpdate(d, None, color);
    if IsPendingSpeaker(s, d) then
      item.(isActiveSpeaker := true, lastActiveDate := Some(s.pending.value.date))
    else item
  }

  /** `ps` with `item` spliced in at index `k`. */
  function InsertAt(ps: seq<Participant>, k: nat, item: Participant): (r: seq<Participant>)
    requires k <= |ps|
    ensures |r| == |ps| + 1 && r[k] == item
    ensures forall j :: 0 <= j < k ==> r[j] == ps[j]
    ensures forall j :: k < j < |r| ==> r[j] == ps[j - 1]
  {
    ps[..k] + [item] + ps[k..]
  }

  /** Where a join puts the newcomer `item`. */
  function JoinIndex(ps: seq<Participant>, item: Participant): (k: nat)
    ensures k <= |ps|
  {
    if item.isCamMuted then |ps|
    else
      var first := FindIndex(ps, InactiveCamOff);
      if first >= 0 then first else |ps|
  }

  function JoinStep(s: State, d: ParticipantDescriptor, color: Color): State {
    var item := Newcomer(s, d, color);
    State(
      InsertAt(s.participants, JoinIndex(s.participants, item), item),
      if IsPendingSpeaker(s, d) then None else s.pending)
  }

  // ---------------------------------------------------------------- PARTICIPANT_UPDATED

  /** The entry found for `d` is replaced in place by its recomputed version. A descriptor
      whose id is absent writes to index -1, which adds no element, and the deep-equality test
      then hands back the previous state. */
  function UpdateStep(s: State, d: ParticipantDescriptor, color: Color): State {
    var idx := IndexOf(s.participants, StoreId(d));
    if idx < 0 then s
    else s.(participants := s.participants[idx := CreateOrUpdate(d, Some(s.participants[idx]), color)])
  }

  // ---------------------------------------------------------------- PARTICIPANT_LEFT

  /** The `filter` test of a departure: the entry is not filed under `id`. */
  function NotFiledUnder(id: Id): Participant -> bool {
    (p: Participant) => p.id != id
  }

  function LeftStep(s: State, d: ParticipantDescriptor): State {
    s.(participants := Filter(s.participants, NotFiledUnder(d.userId)))
  }

  // ---------------------------------------------------------------- SWAP_POSITION

  /** `ps` with the entries at `i` and `j` exchanged. */
  function Exchange(ps: seq<Participant>, i: nat, j: nat): (r: seq<Participant>)
    requires i < |ps| && j < |ps|
    ensures |r| == |ps|
  {
    ps[i := ps[j]][j := ps[i]]
  }

  /** The exchange as contexts/participantReducer.js writes it: copy the list, exchange through a temporary. */
  method ExchangeInCopy(ps: seq<Participant>, i: nat, j: nat) returns (r: seq<Participant>)
    requires i < |ps| && j < |ps|
    ensures r == Exchange(ps, i, j)
  {
    var a := new Participant[|ps|](k requires 0 <= k < |ps| => ps[k]);
    var tmp := a[i];
    a[i] := a[j];
    a[j] := tmp;
    r := a[..];
  }

  function SwapStep(s: State, id1: Option<Id>, id2: Option<Id>): State {
    if !Truthy(id1) || !Truthy(id2) then s
    else
      var i := IndexOf(s.participants, id1.value);
      var j := IndexOf(s.participants, id2.value);
      if i == -1 || j == -1 then s
      else s.(participants := Exchange(s.participants, i, j))
  }

  // ---------------------------------------------------------------- UPDATE_LAYER

  function WithLayer(p: Participant, receiveSettings: map<Id, int>): Participant {
    p.(layer := if p.id in receiveSettings then Some(receiveSettings[p.id]) else None)
  }

  function UpdateLayerStep(s: State, receiveSettings: map<Id, int>): State {
    var ps := s.participants;
    s.(participants := seq(|ps|, i requires 0 <= i < |ps| => WithLayer(ps[i], receiveSettings)))
  }

  // ---------------------------------------------------------------- the reducer

  /** `participantsReducer(prevState, action)`; an unrecognized action throws. */
  function Reduce(s: State, a: Action, env: Env): Result<State, ReducerError> {
    match a
    case ActiveSpeaker(id) => Ok(ActiveSpeakerStep(s, id, env.now))
    case Joined(d) => Ok(JoinStep(s, d, env.color))
    case Updated(d) => Ok(UpdateStep(s, d, env.color))
    case Left(d) => Ok(LeftStep(s, d))
    case SwapPosition(id1, id2) => Ok(SwapStep(s, id1, id2))
    case UpdateLayer(rs) => Ok(UpdateLayerStep(s, rs))
    case Unrecognized(kind) => Err(UnknownAction(kind))
  }

  /** One dispatched action and the environment it is reduced in. */
  datatype Step = Step(action: Action, env: Env)

  /** Reduces a sequence of actions in order; the first error stops the run. */
  function Run(s: State, steps: seq<Step>): Result<State, ReducerError>
    decreases |steps|
  {
    if steps == [] then Ok(s)
    else
      match Reduce(s, steps[0].action, steps[0].env)
      case Err(e) => Err(e)
      case Ok(t) => Run(t, steps[1..])
  }

  // ================================================================ store invariants

  predicate UniqueIds(ps: seq<Participant>) {
    forall i, j :: 0 <= i < j < |ps| ==> ps[i].id != ps[j].id
  }

  predicate NoneActive(ps: seq<Participant>) {
    forall i :: 0 <= i < |ps| ==> !ps[i].isActiveSpeaker
  }

  predicate AtMostOneActive(ps: seq<Participant>) {
    forall i, j :: 0 <= i < j < |ps| && ps[i].isActiveSpeaker ==> !ps[j].isActiveSpeaker
  }

  /** The entry flagged local is exactly the one filed under `"local"`. */
  predicate LocalFlagged(ps: seq<Participant>) {
    forall i :: 0 <= i < |ps| ==> (ps[i].isLocal <==> ps[i].id == LOCAL)
  }

  /** What the store keeps true: distinct ids, the local entry present and alone in being
      local, at most one active speaker, and nobody active while a speaker is pending. */
  predicate Wf(s: State) {
    && UniqueIds(s.participants)
    && LOCAL in Ids(s.participants)
    && LocalFlagged(s.participants)
    && AtMostOneActive(s.participants)
    && (s.pending.Some? ==> NoneActive(s.participants))
  }

  // ================================================================ properties of each action

  /** `findIndex` on ids succeeds exactly for ids in the list, at an entry with that id. */
  lemma IndexOfFinds(ps: seq<Participant>, id: Id)
    ensures IndexOf(ps, id) >= 0 <==> id in Ids(ps)
    ensures IndexOf(ps, id) >= 0 ==> ps[IndexOf(ps, id)].id == id
  {
    assert forall k :: 0 <= k < |ps| ==> Ids(ps)[k] == ps[k].id;
  }

  /** The pending record after ACTIVE_SPEAKER: cleared for a falsy or a known id, set to the id
      and the event time for an unknown one; a falsy id touches nothing else. */
  lemma ActiveSpeakerPending(s: State, id: Option<Id>, now: Date)
    ensures !Truthy(id) ==> ActiveSpeakerStep(s, id, now) == s.(pending := None)
    ensures Truthy(id) && id.value in Ids(s.participants) ==> ActiveSpeakerStep(s, id, now).pending == None
    ensures Truthy(id) && id.value !in Ids(s.participants) ==>
      ActiveSpeakerStep(s, id, now).pending == Some(PendingSpeaker(id.value, now))
  {
  }

  /** ACTIVE_SPEAKER with an id keeps order and length, makes exactly the entries with that id
      active (none when it is unknown), stamps only those with the event time, and changes no
      other field. */
  lemma ActiveSpeakerMarks(s: State, id: Id, now: Date)
    requires id != ""
    ensures var r := ActiveSpeakerStep(s, Some(id), now).participants;
      && |r| == |s.participants|
      && (forall i :: 0 <= i < |r| ==> (r[i].isActiveSpeaker <==> s.participants[i].id == id))
      && (forall i :: 0 <= i < |r| ==>
            r[i].lastActiveDate == if s.participants[i].id == id then Some(now) else s.participants[i].lastActiveDate)
      && (forall i :: 0 <= i < |r| ==>
            r[i].(isActiveSpeaker := s.participants[i].isActiveSpeaker,
                  lastActiveDate := s.participants[i].lastActiveDate) == s.participants[i])
      && (id !in Ids(s.participants) ==> NoneActive(r))
  {
    var r := ActiveSpeakerStep(s, Some(id), now).participants;
    if id !in Ids(s.participants) {
      forall i | 0 <= i < |r| ensures !r[i].isActiveSpeaker {
        assert Ids(s.participants)[i] == s.participants[i].id;
      }
    }
  }

  /** The newcomer of a join: filed under its store id with the descriptor's name, the
      camera, microphone, loading, local and owner flags computed from the descriptor, a fresh
      colour and no layer; active with the pending date exactly when it is the pending speaker, inactive with
      no date otherwise. */
  lemma NewcomerEntry(s: State, d: ParticipantDescriptor, color: Color)
    ensures var item := Newcomer(s, d, color);
      && item.id == StoreId(d) && item.name == d.userName
      && item.isCamMuted == IsOffOrBlocked(d.video) && item.isMicMuted == IsOffOrBlocked(d.audio)
      && item.isLoading == (IsLoadingTrack(d.audio) || IsLoadingTrack(d.video))
      && item.isLocal == d.local && item.isOwner == d.owner
      && item.color == Some(color) && item.layer == None
      && (IsPendingSpeaker(s, d) ==> item.isActiveSpeaker && item.lastActiveDate == Some(s.pending.value.date))
      && (!IsPendingSpeaker(s, d) ==> !item.isActiveSpeaker && item.lastActiveDate == None)
  {
  }

  /** A join adds exactly one entry and keeps the others in their relative order: a camera-off
      joiner goes last; a camera-on joiner goes in front of the first entry that is camera-off,
      remote and not speaking, or last when there is none. The pending record is consumed when
      the joiner is the pending speaker and kept otherwise. */
  lemma JoinPlacement(s: State, d: ParticipantDescriptor, color: Color)
    ensures var ps := s.participants;
      var item := Newcomer(s, d, color);
      var r := JoinStep(s, d, color);
      && |r.participants| == |ps| + 1
      && (IsOffOrBlocked(d.video) ==> r.participants == ps + [item])
      && (!IsOffOrBlocked(d.video) && (forall j :: 0 <= j < |ps| ==> !InactiveCamOff(ps[j])) ==>
            r.participants == ps + [item])
      && (!IsOffOrBlocked(d.video) ==>
            forall k :: (0 <= k < |ps| && InactiveCamOff(ps[k]) && forall j :: 0 <= j < k ==> !InactiveCamOff(ps[j])) ==>
              r.participants == ps[..k] + [item] + ps[k..])
      && r.pending == (if IsPendingSpeaker(s, d) then None else s.pending)
  {
    var ps := s.participants;
    var item := Newcomer(s, d, color);
    var k := JoinIndex(ps, item);
    if k == |ps| {
      assert ps[..k] + [item] + ps[k..] == ps + [item];
    }
    if !IsOffOrBlocked(d.video) {
      forall k' | 0 <= k' < |ps| && InactiveCamOff(ps[k']) && (forall j :: 0 <= j < k' ==> !InactiveCamOff(ps[j]))
        ensures JoinStep(s, d, color).participants == ps[..k'] + [item] + ps[k'..]
      {
        FindIndexAt(ps, InactiveCamOff, k');
      }
    }
  }

  /** An update keeps the entry at its index and keeps its speaker flag, last active date,
      colour (a colourless entry draws one) and layer, while taking the name and the local and
      owner flags from the descriptor and recomputing the camera, microphone and loading flags;
      every other entry is untouched. An update for an id that is not in the list changes
      nothing. */
  lemma UpdateInPlace(s: State, d: ParticipantDescriptor, color: Color)
    ensures var ps := s.participants;
      var idx := IndexOf(ps, StoreId(d));
      var r := UpdateStep(s, d, color);
      && (StoreId(d) !in Ids(ps) ==> r == s)
      && (StoreId(d) in Ids(ps) ==>
            && 0 <= idx < |ps| && ps[idx].id == StoreId(d)
            && r.pending == s.pending && |r.participants| == |ps|
            && (forall j :: 0 <= j < |ps| && j != idx ==> r.participants[j] == ps[j])
            && r.participants[idx].id == StoreId(d)
            && r.participants[idx].name == d.userName
            && r.participants[idx].isLocal == d.local
            && r.participants[idx].isOwner == d.owner
            && r.participants[idx].isActiveSpeaker == ps[idx].isActiveSpeaker
            && r.participants[idx].lastActiveDate == ps[idx].lastActiveDate
            && r.participants[idx].layer == ps[idx].layer
            && r.participants[idx].color == (if ps[idx].color.Some? then ps[idx].color else Some(color))
            && r.participants[idx].isCamMuted == IsOffOrBlocked(d.video)
            && r.participants[idx].isMicMuted == IsOffOrBlocked(d.audio)
            && r.participants[idx].isLoading == (IsLoadingTrack(d.audio) || IsLoadingTrack(d.video)))
  {
    var ps := s.participants;
    IndexOfFinds(ps, StoreId(d));
  }

  /** When the recomputed entry equals the stored one, the update hands back the previous
      state unchanged. */
  lemma UpdateUnchangedIsNoop(s: State, d: ParticipantDescriptor, color: Color)
    requires var idx := IndexOf(s.participants, StoreId(d));
      0 <= idx ==> CreateOrUpdate(d, Some(s.participants[idx]), color) == s.participants[idx]
    ensures UpdateStep(s, d, color) == s
  {
  }

  /** With distinct ids, filtering out one listed id removes just its entry, keeping the entries
      before and after it in order. */
  lemma LeftDropsOne(ps: seq<Participant>, id: Id, k: int)
    requires UniqueIds(ps) && 0 <= k < |ps| && k == IndexOf(ps, id)
    ensures Filter(ps, NotFiledUnder(id)) == ps[..k] + ps[k + 1..]
  {
    KeptAround(ps, id, k);
    FilterDropAt(ps, k, NotFiledUnder(id));
  }

  /** The entries before the first one filed under `id`, and with distinct ids those after it,
      all pass the departure's test, while that entry does not. */
  lemma KeptAround(ps: seq<Participant>, id: Id, k: int)
    requires UniqueIds(ps) && k == IndexOf(ps, id) && 0 <= k < |ps|
    ensures Filter(ps[..k], NotFiledUnder(id)) == ps[..k]
    ensures Filter(ps[k + 1..], NotFiledUnder(id)) == ps[k + 1..]
    ensures !NotFiledUnder(id)(ps[k])
  {
    var f := NotFiledUnder(id);
    var pre, post := ps[..k], ps[k + 1..];
    forall j | 0 <= j < |pre| ensures f(pre[j]) {
      assert !((p: Participant) => p.id == id)(ps[j]);
    }
    forall j | 0 <= j < |post| ensures f(post[j]) {
      assert post[j] == ps[k + 1 + j];
    }
    FilterAll(pre, f);
    FilterAll(post, f);
  }

  /** The membership facts of a departure: no kept entry is filed under the user id, every
      other entry is kept, nothing new appears, and an absent user id changes nothing. */
  lemma LeftMembership(s: State, d: ParticipantDescriptor)
    ensures var r := LeftStep(s, d);
      && r.pending == s.pending
      && (forall p :: p in r.participants ==> p.id != d.userId)
      && (forall p :: p in s.participants && p.id != d.userId ==> p in r.participants)
      && (forall p :: p in r.participants ==> p in s.participants)
      && (d.userId !in Ids(s.participants) ==> r == s)
  {
    FilteredOut(s.participants, d.userId);
    if d.userId !in Ids(s.participants) {
      AbsentIdKept(s.participants, d.userId);
    }
  }

  /** Filtering out `id` keeps exactly the entries filed under another id. */
  lemma FilteredOut(ps: seq<Participant>, id: Id)
    ensures var r := Filter(ps, NotFiledUnder(id));
      && (forall p :: p in r ==> p.id != id && p in ps)
      && (forall p :: p in ps && p.id != id ==> p in r)
  {
    var r := Filter(ps, NotFiledUnder(id));
    forall p | p in r ensures p.id != id && p in ps {
      var i :| 0 <= i < |r| && r[i] == p;
    }
    forall p | p in ps && p.id != id ensures p in r {
      var i :| 0 <= i < |ps| && ps[i] == p;
    }
  }

  /** Filtering out an id no entry carries keeps the list. */
  lemma AbsentIdKept(ps: seq<Participant>, id: Id)
    requires id !in Ids(ps)
    ensures Filter(ps, NotFiledUnder(id)) == ps
  {
    forall j | 0 <= j < |ps| ensures NotFiledUnder(id)(ps[j]) {
      assert Ids(ps)[j] == ps[j].id;
    }
    FilterAll(ps, NotFiledUnder(id));
  }

  /** A participant leaving removes exactly the entries filed under its user id and keeps the
      others in order; a user id that is not in the list changes nothing, and in a list with
      distinct ids the result is the list with that one entry cut out. */
  lemma LeftRemoves(s: State, d: ParticipantDescriptor)
    ensures var r := LeftStep(s, d);
      && r.pending == s.pending
      && (forall p :: p in r.participants ==> p.id != d.userId)
      && (forall p :: p in s.participants && p.id != d.userId ==> p in r.participants)
      && (forall p :: p in r.participants ==> p in s.participants)
      && (d.userId !in Ids(s.participants) ==> r == s)
      && (UniqueIds(s.participants) && d.userId in Ids(s.participants) ==>
            var k := IndexOf(s.participants, d.userId);
            0 <= k < |s.participants| && r.participants == s.participants[..k] + s.participants[k + 1..])
  {
    LeftMembership(s, d);
    if UniqueIds(s.participants) && d.userId in Ids(s.participants) {
      IndexOfFinds(s.participants, d.userId);
      LeftDropsOne(s.participants, d.userId, IndexOf(s.participants, d.userId));
    }
  }

  /** SWAP_POSITION leaves the state alone when an id is falsy or missing; otherwise it
      exchanges exactly the entries at the first indices of the two ids, keeps the same entries
      (as a multiset) and touches nothing else. */
  lemma SwapExchanges(s: State, id1: Option<Id>, id2: Option<Id>)
    ensures var ps := s.participants;
      var r := SwapStep(s, id1, id2);
      && (!Truthy(id1) || !Truthy(id2) || id1.value !in Ids(ps) || id2.value !in Ids(ps) ==> r == s)
      && (Truthy(id1) && Truthy(id2) && id1.value in Ids(ps) && id2.value in Ids(ps) ==>
            var i := IndexOf(ps, id1.value);
            var j := IndexOf(ps, id2.value);
            && 0 <= i < |ps| && 0 <= j < |ps|
            && ps[i].id == id1.value && ps[j].id == id2.value
            && r.pending == s.pending && |r.participants| == |ps|
            && r.participants[i] == ps[j] && r.participants[j] == ps[i]
            && (forall k :: 0 <= k < |ps| && k != i && k != j ==> r.participants[k] == ps[k])
            && multiset(r.participants) == multiset(ps))
  {
    var ps := s.participants;
    if Truthy(id1) && Truthy(id2) {
      var i := IndexOf(ps, id1.value);
      var j := IndexOf(ps, id2.value);
      IndexOfFinds(ps, id1.value);
      IndexOfFinds(ps, id2.value);
      if i >= 0 && j >= 0 {
        ExchangeIsPermutation(ps, i, j);
      }
    }
  }

  lemma ExchangeIsPermutation(ps: seq<Participant>, i: nat, j: nat)
    requires i < |ps| && j < |ps|
    ensures multiset(Exchange(ps, i, j)) == multiset(ps)
  {
    var t := ps[i := ps[j]];
    assert multiset(t) == multiset(ps) - multiset{ps[i]} + multiset{ps[j]};
    assert multiset(t[j := ps[i]]) == multiset(t) - multiset{t[j]} + multiset{ps[i]};
  }

  /** With distinct ids, the entry filed under `id` sits at index `k` exactly when `k` is the
      index `findIndex` reports. */
  lemma IndexOfUnique(ps: seq<Participant>, k: int, id: Id)
    requires UniqueIds(ps)
    requires 0 <= k < |ps| && ps[k].id == id
    ensures IndexOf(ps, id) == k
  {
    var f := IndexOf(ps, id);
  }

  /** With distinct ids, swapping the same two ids twice restores the list. */
  lemma SwapTwiceIsIdentity(s: State, id1: Option<Id>, id2: Option<Id>)
    requires UniqueIds(s.participants)
    ensures SwapStep(SwapStep(s, id1, id2), id1, id2) == s
  {
    var ps := s.participants;
    if Truthy(id1) && Truthy(id2) {
      var i := IndexOf(ps, id1.value);
      var j := IndexOf(ps, id2.value);
      if i >= 0 && j >= 0 {
        var q := Exchange(ps, i, j);
        IndexOfFinds(ps, id1.value);
        IndexOfFinds(ps, id2.value);
        assert q[j].id == id1.value && q[i].id == id2.value;
        ExchangeKeepsIdsUnique(ps, i, j);
        IndexOfUnique(q, j, id1.value);
        IndexOfUnique(q, i, id2.value);
        ExchangeBack(ps, i, j);
      }
    }
  }

  /** UPDATE_LAYER sets every entry's layer from the settings (none when the id has no entry
      there), in the same order, and changes no other field. */
  lemma UpdateLayerSets(s: State, receiveSettings: map<Id, int>)
    ensures var r := UpdateLayerStep(s, receiveSettings);
      && r.pending == s.pending && |r.participants| == |s.participants|
      && (forall i :: 0 <= i < |r.participants| ==>
            && r.participants[i].layer ==
                 (if s.participants[i].id in receiveSettings then Some(receiveSettings[s.participants[i].id]) else None)
            && r.participants[i].(layer := s.participants[i].layer) == s.participants[i])
  {
  }

  /** The reducer throws exactly for an unrecognized action. */
  lemma ReduceFailsOnlyOnUnknown(s: State, a: Action, env: Env)
    ensures Reduce(s, a, env).Err? <==> a.Unrecognized?
  {
  }

  // ================================================================ the store invariant

  /** What callers of the store guarantee about an action: joiners are remote and not yet in
      the list, a remote update never claims the id `"local"`, and the leaving user id is never
      `"local"`. */
  predicate Admissible(s: State, a: Action) {
    match a
    case Joined(d) => !d.local && d.userId !in Ids(s.participants)
    case Updated(d) => d.local || d.userId != LOCAL
    case Left(d) => d.userId != LOCAL
    case _ => true
  }

  lemma InitialStateWf()
    ensures Wf(InitialState())
  {
    assert Ids(InitialState().participants)[0] == LOCAL;
  }

  lemma ActiveSpeakerPreservesWf(s: State, id: Option<Id>, now: Date)
    requires Wf(s)
    ensures Wf(ActiveSpeakerStep(s, id, now))
  {
    if Truthy(id) {
      var ps := s.participants;
      var r := ActiveSpeakerStep(s, id, now).participants;
      ActiveSpeakerMarks(s, id.value, now);
      assert Ids(r) == Ids(ps);
    }
  }

  lemma InsertKeepsIdsUnique(ps: seq<Participant>, k: nat, item: Participant)
    requires k <= |ps|
    requires UniqueIds(ps)
    requires forall j :: 0 <= j < |ps| ==> ps[j].id != item.id
    ensures UniqueIds(InsertAt(ps, k, item))
  {
    var r := InsertAt(ps, k, item);
    forall a, b | 0 <= a < b < |r| ensures r[a].id != r[b].id {
      if a != k && b != k {
        assert r[a] == ps[if a < k then a else a - 1];
        assert r[b] == ps[if b < k then b else b - 1];
      }
    }
  }

  lemma InsertKeepsOneActive(ps: seq<Participant>, k: nat, item: Participant)
    requires k <= |ps|
    requires AtMostOneActive(ps)
    requires item.isActiveSpeaker ==> NoneActive(ps)
    ensures AtMostOneActive(InsertAt(ps, k, item))
  {
    var r := InsertAt(ps, k, item);
    forall a, b | 0 <= a < b < |r| && r[a].isActiveSpeaker ensures !r[b].isActiveSpeaker {
      if a != k && b != k {
        assert r[a] == ps[if a < k then a else a - 1];
        assert r[b] == ps[if b < k then b else b - 1];
      }
    }
  }

  lemma InsertKeepsMembers(ps: seq<Participant>, k: nat, item: Participant)
    requires k <= |ps|
    ensures forall j :: 0 <= j < |ps| ==> ps[j] in InsertAt(ps, k, item)
    ensures forall p :: p in InsertAt(ps, k, item) ==> p == item || p in ps
  {
    var r := InsertAt(ps, k, item);
    forall j | 0 <= j < |ps| ensures ps[j] in r {
      assert r[if j < k then j else j + 1] == ps[j];
    }
  }

  /** The local entry is present exactly when some entry is filed under `"local"`. */
  lemma LocalPresent(ps: seq<Participant>)
    ensures LOCAL in Ids(ps) <==> exists j :: 0 <= j < |ps| && ps[j].id == LOCAL
  {
    assert forall j :: 0 <= j < |ps| ==> Ids(ps)[j] == ps[j].id;
  }

  lemma InsertKeepsFlags(ps: seq<Participant>, k: nat, item: Participant)
    requires k <= |ps|
    requires LocalFlagged(ps) && (item.isLocal <==> item.id == LOCAL)
    ensures LocalFlagged(InsertAt(ps, k, item))
    ensures NoneActive(ps) && !item.isActiveSpeaker ==> NoneActive(InsertAt(ps, k, item))
  {
  }

  lemma JoinPreservesWf(s: State, d: ParticipantDescriptor, color: Color)
    requires Wf(s)
    requires !d.local && d.userId !in Ids(s.participants)
    ensures Wf(JoinStep(s, d, color))
  {
    var ps := s.participants;
    var item := Newcomer(s, d, color);
    NewcomerEntry(s, d, color);
    var k := JoinIndex(ps, item);
    var r := JoinStep(s, d, color);
    assert r.participants == InsertAt(ps, k, item);
    assert r.pending == (if IsPendingSpeaker(s, d) then None else s.pending);
    LocalPresent(ps);
    LocalPresent(r.participants);
    assert item.id == d.userId && item.id != LOCAL && !item.isLocal;
    assert forall j :: 0 <= j < |ps| ==> Ids(ps)[j] == ps[j].id;
    InsertKeepsIdsUnique(ps, k, item);
    InsertKeepsOneActive(ps, k, item);
    InsertKeepsFlags(ps, k, item);
    InsertKeepsMembers(ps, k, item);
    var l :| 0 <= l < |ps| && ps[l].id == LOCAL;
    assert ps[l] in r.participants;
  }

  lemma UpdatePreservesWf(s: State, d: ParticipantDescriptor, color: Color)
    requires Wf(s)
    requires d.local || d.userId != LOCAL
    ensures Wf(UpdateStep(s, d, color))
  {
    var ps := s.participants;
    IndexOfFinds(ps, StoreId(d));
    var r := UpdateStep(s, d, color).participants;
    assert Ids(r) == Ids(ps);
  }

  lemma PrependKeepsIdsUnique(x: Participant, ps: seq<Participant>)
    requires UniqueIds(ps)
    requires forall j :: 0 <= j < |ps| ==> ps[j].id != x.id
    ensures UniqueIds([x] + ps)
  {
    var r := [x] + ps;
    forall a, b | 0 <= a < b < |r| ensures r[a].id != r[b].id {
      assert r[b] == ps[b - 1];
      if a > 0 { assert r[a] == ps[a - 1]; }
    }
  }

  /** Keeping some entries of a list with distinct ids keeps the ids distinct. */
  lemma {:induction false} FilterKeepsIdsUnique(ps: seq<Participant>, f: Participant -> bool)
    requires UniqueIds(ps)
    ensures UniqueIds(Filter(ps, f))
  {
    if ps != [] {
      var rest := ps[1..];
      FilterKeepsIdsUnique(rest, f);
      var fr := Filter(rest, f);
      forall j | 0 <= j < |fr| ensures fr[j].id != ps[0].id {
        assert fr[j] in rest;
      }
      if f(ps[0]) {
        PrependKeepsIdsUnique(ps[0], fr);
      }
    }
  }

  /** In a list with distinct ids, two active entries would have to be one and the same. */
  lemma SubsetKeepsOneActive(ps: seq<Participant>, r: seq<Participant>)
    requires UniqueIds(ps) && AtMostOneActive(ps) && UniqueIds(r)
    requires forall p :: p in r ==> p in ps
    ensures AtMostOneActive(r)
  {
    forall a, b | 0 <= a < b < |r| && r[a].isActiveSpeaker ensures !r[b].isActiveSpeaker {
      assert r[a] in r && r[b] in r;
      var a' :| 0 <= a' < |ps| && ps[a'] == r[a];
      var b' :| 0 <= b' < |ps| && ps[b'] == r[b];
      assert a' != b';
    }
  }

  lemma LeftPreservesWf(s: State, d: ParticipantDescriptor)
    requires Wf(s)
    requires d.userId != LOCAL
    ensures Wf(LeftStep(s, d))
  {
    var ps := s.participants;
    var r := LeftStep(s, d).participants;
    FilteredOut(ps, d.userId);
    FilterKeepsIdsUnique(ps, NotFiledUnder(d.userId));
    SubsetKeepsOneActive(ps, r);
    SubsetKeepsFlags(ps, r);
    KeptLocal(ps, r, d.userId);
  }

  /** Every entry of a list drawn from `ps` keeps its local flag and speaker flag, so the
      local flags stay right and no active speaker appears. */
  lemma SubsetKeepsFlags(ps: seq<Participant>, r: seq<Participant>)
    requires forall p :: p in r ==> p in ps
    ensures LocalFlagged(ps) ==> LocalFlagged(r)
    ensures NoneActive(ps) ==> NoneActive(r)
  {
    forall i | 0 <= i < |r| ensures r[i] in ps {
      assert r[i] in r;
    }
  }

  /** A list that keeps every entry of `ps` filed under an id other than `id` keeps the
      local entry when `id` is not `"local"`. */
  lemma KeptLocal(ps: seq<Participant>, r: seq<Participant>, id: Id)
    requires id != LOCAL && LOCAL in Ids(ps)
    requires forall p :: p in ps && p.id != id ==> p in r
    ensures LOCAL in Ids(r)
  {
    LocalPresent(ps);
    LocalPresent(r);
    var l :| 0 <= l < |ps| && ps[l].id == LOCAL;
    assert ps[l] in r;
  }

  /** The entry at each index after an exchange. */
  lemma ExchangeAt(ps: seq<Participant>, i: nat, j: nat)
    requires i < |ps| && j < |ps|
    ensures forall a :: 0 <= a < |ps| ==> Exchange(ps, i, j)[a] == ps[if a == i then j else if a == j then i else a]
  {
  }

  /** An exchange keeps the ids distinct. */
  lemma ExchangeKeepsIdsUnique(ps: seq<Participant>, i: nat, j: nat)
    requires i < |ps| && j < |ps|
    requires UniqueIds(ps)
    ensures UniqueIds(Exchange(ps, i, j))
  {
    var r := Exchange(ps, i, j);
    ExchangeAt(ps, i, j);
    forall a, b | 0 <= a < b < |r| ensures r[a].id != r[b].id {
      assert r[a] == ps[if a == i then j else if a == j then i else a];
      assert r[b] == ps[if b == i then j else if b == j then i else b];
    }
  }

  lemma ExchangeKeepsWf(ps: seq<Participant>, i: nat, j: nat)
    requires i < |ps| && j < |ps|
    requires UniqueIds(ps) && AtMostOneActive(ps)
    ensures UniqueIds(Exchange(ps, i, j)) && AtMostOneActive(Exchange(ps, i, j))
  {
    var r := Exchange(ps, i, j);
    ExchangeKeepsIdsUnique(ps, i, j);
    ExchangeAt(ps, i, j);
    forall a, b | 0 <= a < b < |r| && r[a].isActiveSpeaker ensures !r[b].isActiveSpeaker {
      assert r[a] == ps[if a == i then j else if a == j then i else a];
      assert r[b] == ps[if b == i then j else if b == j then i else b];
    }
  }

  /** Exchanging back undoes an exchange. */
  lemma ExchangeBack(ps: seq<Participant>, i: nat, j: nat)
    requires i < |ps| && j < |ps|
    ensures Exchange(Exchange(ps, i, j), j, i) == ps
  {
  }

  /** An exchange keeps the local entry, the local flags and the absence of an active
      speaker. */
  lemma ExchangeKeepsLocal(ps: seq<Participant>, i: nat, j: nat)
    requires i < |ps| && j < |ps|
    requires LOCAL in Ids(ps) && LocalFlagged(ps)
    ensures LOCAL in Ids(Exchange(ps, i, j)) && LocalFlagged(Exchange(ps, i, j))
    ensures NoneActive(ps) ==> NoneActive(Exchange(ps, i, j))
  {
    var r := Exchange(ps, i, j);
    ExchangeAt(ps, i, j);
    LocalPresent(ps);
    LocalPresent(r);
    var l :| 0 <= l < |ps| && ps[l].id == LOCAL;
    assert r[if l == i then j else if l == j then i else l] == ps[l];
  }

  lemma SwapPreservesWf(s: State, id1: Option<Id>, id2: Option<Id>)
    requires Wf(s)
    ensures Wf(SwapStep(s, id1, id2))
  {
    var ps := s.participants;
    if Truthy(id1) && Truthy(id2) {
      var i := IndexOf(ps, id1.value);
      var j := IndexOf(ps, id2.value);
      if i >= 0 && j >= 0 {
        ExchangeKeepsWf(ps, i, j);
        ExchangeKeepsLocal(ps, i, j);
      }
    }
  }

  lemma UpdateLayerPreservesWf(s: State, receiveSettings: map<Id, int>)
    requires Wf(s)
    ensures Wf(UpdateLayerStep(s, receiveSettings))
  {
    assert Ids(UpdateLayerStep(s, receiveSettings).participants) == Ids(s.participants);
  }

  /** Every admissible action that the reducer accepts keeps the store invariant. */
  lemma ReducePreservesWf(s: State, a: Action, env: Env)
    requires Wf(s)
    requires Admissible(s, a)
    ensures Reduce(s, a, env).Ok? ==> Wf(Reduce(s, a, env).value)
  {
    match a
    case ActiveSpeaker(id) => ActiveSpeakerPreservesWf(s, id, env.now);
    case Joined(d) => JoinPreservesWf(s, d, env.color);
    case Updated(d) => UpdatePreservesWf(s, d, env.color);
    case Left(d) => LeftPreservesWf(s, d);
    case SwapPosition(id1, id2) => SwapPreservesWf(s, id1, id2);
    case UpdateLayer(rs) => UpdateLayerPreservesWf(s, rs);
    case Unrecognized(_) =>
  }

  /** Every action of the run is admissible in the state it is reduced in. */
  predicate AdmissibleRun(s: State, steps: seq<Step>)
    decreases |steps|
  {
    steps == [] ||
    (Admissible(s, steps[0].action) &&
     match Reduce(s, steps[0].action, steps[0].env)
     case Err(_) => true
     case Ok(t) => AdmissibleRun(t, steps[1..]))
  }

  /** Along any run of admissible actions the invariant holds at the end: ids stay distinct,
      the local entry survives, at most one participant is the active speaker, and nobody is
      active while a speaker is pending. */
  lemma {:induction false} RunPreservesWf(s: State, steps: seq<Step>)
    requires Wf(s)
    requires AdmissibleRun(s, steps)
    ensures Run(s, steps).Ok? ==> Wf(Run(s, steps).value)
    decreases |steps|
  {
    if steps != [] {
      ReducePreservesWf(s, steps[0].action, steps[0].env);
      match Reduce(s, steps[0].action, steps[0].env)
      case Err(_) =>
      case Ok(t) => RunPreservesWf(t, steps[1..]);
    }
  }
}
