/** The camera-subscription layer of contexts/TracksProvider.js: the recent speakers kept
    staged, the remote participants, the subscription updates that take every remote camera
    to its desired state, and the table of video tracks kept from track events. */
module TracksProvider {
  import opened Wrappers
  import opened Seqs
  import opened Media
  import opened Ordering
  import opened ParticipantReducer

  /** How many recent speakers stay subscribed or staged at most. */
  const MAX_RECENT_SPEAKER_COUNT: nat := 6

  // ---------------------------------------------------------------- recent speakers

  /** `Boolean(p.lastActiveDate) && !p.isLocal`. */
  function IsRemoteSpeaker(p: Participant): bool {
    p.lastActiveDate.Some? && !p.isLocal
  }

  /** The remote participants that have spoken, sorted by `lastActiveDate`. */
  function SortedSpeakers(ps: seq<Participant>, le: KeyOrder): seq<Participant> {
    SortBy(Filter(ps, IsRemoteSpeaker), LastActiveKey, le)
  }

  /** The last `MAX_RECENT_SPEAKER_COUNT` of the sorted speakers, most recent first. */
  function RecentSpeakers(ps: seq<Participant>, le: KeyOrder): seq<Participant> {
    var sorted := SortedSpeakers(ps, le);
    Reverse(JsSlice(sorted, -(MAX_RECENT_SPEAKER_COUNT as int), |sorted|))
  }

  /** `recentSpeakerIds`. */
  function RecentSpeakerIds(ps: seq<Participant>, le: KeyOrder): seq<Id> {
    Ids(RecentSpeakers(ps, le))
  }

  /** The recent speakers are the last (at most six) entries of the sorted speakers, in
      reverse. */
  lemma RecentSpeakersShape(ps: seq<Participant>, le: KeyOrder)
    ensures var sorted := SortedSpeakers(ps, le);
      var m := if |sorted| < MAX_RECENT_SPEAKER_COUNT then |sorted| else MAX_RECENT_SPEAKER_COUNT;
      && |RecentSpeakers(ps, le)| == m
      && forall k :: 0 <= k < m ==> RecentSpeakers(ps, le)[k] == sorted[|sorted| - 1 - k]
  {
    var r := LastReversed(SortedSpeakers(ps, le), MAX_RECENT_SPEAKER_COUNT);
  }

  /** Each sorted speaker is a remote participant of the list that has spoken. */
  lemma SortedSpeakerIsRemote(ps: seq<Participant>, le: KeyOrder, j: nat)
    requires j < |SortedSpeakers(ps, le)|
    ensures SortedSpeakers(ps, le)[j] in ps && IsRemoteSpeaker(SortedSpeakers(ps, le)[j])
  {
    var speakers := Filter(ps, IsRemoteSpeaker);
    var p := SortedSpeakers(ps, le)[j];
    assert p in multiset(SortedSpeakers(ps, le));
    assert p in multiset(speakers);
    var i :| 0 <= i < |speakers| && speakers[i] == p;
  }

  /** At most six recent speakers, each a remote participant of the list that has spoken. */
  lemma RecentSpeakersAreRemote(ps: seq<Participant>, le: KeyOrder)
    ensures |RecentSpeakerIds(ps, le)| <= MAX_RECENT_SPEAKER_COUNT
    ensures forall k :: 0 <= k < |RecentSpeakers(ps, le)| ==>
      RecentSpeakers(ps, le)[k] in ps
      && RecentSpeakers(ps, le)[k].lastActiveDate.Some?
      && !RecentSpeakers(ps, le)[k].isLocal
  {
    var sorted := SortedSpeakers(ps, le);
    RecentSpeakersShape(ps, le);
    forall k | 0 <= k < |RecentSpeakers(ps, le)|
      ensures RecentSpeakers(ps, le)[k] in ps && IsRemoteSpeaker(RecentSpeakers(ps, le)[k])
    {
      SortedSpeakerIsRemote(ps, le, |sorted| - 1 - k);
    }
  }

  /** Under a total preorder the recent speakers run from the most recent down: each sorts no
      earlier than any that follows it. */
  lemma RecentSpeakersMostRecentFirst(ps: seq<Participant>, le: KeyOrder)
    requires TotalPreorder(le)
    ensures forall k, l :: 0 <= k < l < |RecentSpeakers(ps, le)| ==>
      le(LastActiveKey(RecentSpeakers(ps, le)[l]), LastActiveKey(RecentSpeakers(ps, le)[k]))
  {
    var sorted := SortedSpeakers(ps, le);
    SortBySorted(Filter(ps, IsRemoteSpeaker), LastActiveKey, le);
    RecentSpeakersShape(ps, le);
  }

  /** A remote participant that has spoken has a place in the sorted speakers. */
  lemma PlaceInSorted(ps: seq<Participant>, le: KeyOrder, p: Participant) returns (j: nat)
    requires p in ps && IsRemoteSpeaker(p)
    ensures j < |SortedSpeakers(ps, le)| && SortedSpeakers(ps, le)[j] == p
  {
    var i :| 0 <= i < |ps| && ps[i] == p;
    assert p in Filter(ps, IsRemoteSpeaker);
    assert p in multiset(SortedSpeakers(ps, le));
    j :| 0 <= j < |SortedSpeakers(ps, le)| && SortedSpeakers(ps, le)[j] == p;
  }

  /** A sorted speaker among the last six is a recent speaker. */
  lemma SortedTailIsRecent(ps: seq<Participant>, le: KeyOrder, j: nat)
    requires j < |SortedSpeakers(ps, le)|
    requires j >= |SortedSpeakers(ps, le)| - |RecentSpeakers(ps, le)|
    ensures SortedSpeakers(ps, le)[j] in RecentSpeakers(ps, le)
  {
    RecentSpeakersShape(ps, le);
    var sorted := SortedSpeakers(ps, le);
    assert RecentSpeakers(ps, le)[|sorted| - 1 - j] == sorted[j];
  }

  /** Under a total preorder, a sorted speaker before the last six sorts no later than every
      recent speaker. */
  lemma SortedHeadIsOlder(ps: seq<Participant>, le: KeyOrder, j: nat)
    requires TotalPreorder(le)
    requires j < |SortedSpeakers(ps, le)| - |RecentSpeakers(ps, le)|
    ensures forall k :: 0 <= k < |RecentSpeakers(ps, le)| ==>
      le(LastActiveKey(SortedSpeakers(ps, le)[j]), LastActiveKey(RecentSpeakers(ps, le)[k]))
  {
    var sorted := SortedSpeakers(ps, le);
    var recent := RecentSpeakers(ps, le);
    SortBySorted(Filter(ps, IsRemoteSpeaker), LastActiveKey, le);
    RecentSpeakersShape(ps, le);
    forall k | 0 <= k < |recent| ensures le(LastActiveKey(sorted[j]), LastActiveKey(recent[k])) {
      assert recent[k] == sorted[|sorted| - 1 - k];
    }
  }

  /** The recent speakers are the most recent ones: a remote participant that has spoken is
      either among them or sorts no later than every one of them. */
  lemma RecentSpeakersAreTop(ps: seq<Participant>, le: KeyOrder, p: Participant)
    requires TotalPreorder(le)
    requires p in ps && IsRemoteSpeaker(p)
    ensures p in RecentSpeakers(ps, le)
      || forall k :: 0 <= k < |RecentSpeakers(ps, le)| ==> le(LastActiveKey(p), LastActiveKey(RecentSpeakers(ps, le)[k]))
  {
    var j := PlaceInSorted(ps, le, p);
    if j >= |SortedSpeakers(ps, le)| - |RecentSpeakers(ps, le)| {
      SortedTailIsRecent(ps, le, j);
    } else {
      SortedHeadIsOlder(ps, le, j);
    }
  }

  // ---------------------------------------------------------------- remote participants

  /** `remoteParticipantIds`: the ids of the entries not flagged local, in list order. */
  function RemoteParticipantIds(ps: seq<Participant>): seq<Id> {
    Ids(Filter(ps, IsRemote))
  }

  /** Each remote id is carried by an entry not flagged local. */
  lemma RemoteIdSource(ps: seq<Participant>, k: nat)
    requires k < |RemoteParticipantIds(ps)|
    ensures exists i :: 0 <= i < |ps| && !ps[i].isLocal && ps[i].id == RemoteParticipantIds(ps)[k]
  {
    var remote := Filter(ps, IsRemote);
    assert RemoteParticipantIds(ps)[k] == remote[k].id;
    var i :| 0 <= i < |ps| && ps[i] == remote[k];
  }

  /** The id of every entry not flagged local is remote. */
  lemma RemoteIdListed(ps: seq<Participant>, i: nat)
    requires i < |ps| && !ps[i].isLocal
    ensures ps[i].id in RemoteParticipantIds(ps)
  {
    var remote := Filter(ps, IsRemote);
    var k :| 0 <= k < |remote| && remote[k] == ps[i];
    assert RemoteParticipantIds(ps)[k] == ps[i].id;
  }

  /** An id is remote exactly when an entry not flagged local carries it; when only the entry
      filed under `"local"` is flagged local, `"local"` is never remote. */
  lemma RemoteParticipantIdsMembers(ps: seq<Participant>, id: Id)
    ensures id in RemoteParticipantIds(ps) <==> exists i :: 0 <= i < |ps| && !ps[i].isLocal && ps[i].id == id
    ensures LocalFlagged(ps) ==> LOCAL !in RemoteParticipantIds(ps)
  {
    var ids := RemoteParticipantIds(ps);
    if id in ids {
      var k :| 0 <= k < |ids| && ids[k] == id;
      RemoteIdSource(ps, k);
    }
    if exists i :: 0 <= i < |ps| && !ps[i].isLocal && ps[i].id == id {
      var i :| 0 <= i < |ps| && !ps[i].isLocal && ps[i].id == id;
      RemoteIdListed(ps, i);
    }
    if LocalFlagged(ps) && LOCAL in ids {
      var k :| 0 <= k < |ids| && ids[k] == LOCAL;
      RemoteIdSource(ps, k);
    }
  }

  // ---------------------------------------------------------------- camera subscriptions

  /** `stagedIdsFiltered`: the staged ids, then the recent speakers that are not subscribed. */
  function StagedIdsFiltered(stagedIds: seq<Id>, recentSpeakerIds: seq<Id>, subscribedIds: seq<Id>): seq<Id> {
    stagedIds + Filter(recentSpeakerIds, (id: Id) => id !in subscribedIds)
  }

  /** The subscription a remote camera should have: subscribed when listed as such, staged
      when listed as staged, unsubscribed otherwise. */
  function Desired(id: Id, subscribedIds: seq<Id>, stagedIdsFiltered: seq<Id>): Subscription {
    if id in subscribedIds then Subscribed
    else if id in stagedIdsFiltered then Staged
    else Unsubscribed
  }

  /** Subscribed wins over staged, and a recent speaker is staged unless subscribed: excluding
      the subscribed ones from the recent speakers changes no decision. */
  lemma DesiredPrecedence(id: Id, subscribedIds: seq<Id>, stagedIds: seq<Id>, recentSpeakerIds: seq<Id>)
    ensures var d := Desired(id, subscribedIds, StagedIdsFiltered(stagedIds, recentSpeakerIds, subscribedIds));
      && (d == Subscribed <==> id in subscribedIds)
      && (d == Staged <==> id !in subscribedIds && (id in stagedIds || id in recentSpeakerIds))
      && (d == Unsubscribed <==> id !in subscribedIds && id !in stagedIds && id !in recentSpeakerIds)
      && d == Desired(id, subscribedIds, stagedIds + recentSpeakerIds)
  {
    var f := (x: Id) => x !in subscribedIds;
    if id in recentSpeakerIds && id !in subscribedIds {
      var k :| 0 <= k < |recentSpeakerIds| && recentSpeakerIds[k] == id;
      assert id in Filter(recentSpeakerIds, f);
    }
  }

  /** What the call reports for a camera: the `subscribed` value of the participant's video
      track, if the call knows it. */
  function Current(current: map<Id, Subscription>, id: Id): Option<Subscription> {
    if id in current then Some(current[id]) else None
  }

  /** The updates that take every remote camera to its desired subscription: keyed by the
      non-empty, non-local remote ids whose current subscription differs from the desired one,
      each carrying the desired one. */
  function CamUpdates(current: map<Id, Subscription>, remoteIds: seq<Id>, subscribedIds: seq<Id>, stagedIdsFiltered: seq<Id>): map<Id, Subscription> {
    map id | id in remoteIds && id != "" && id != LOCAL
      && Current(current, id) != Some(Desired(id, subscribedIds, stagedIdsFiltered))
      :: Desired(id, subscribedIds, stagedIdsFiltered)
  }

  /** `updateCamSubscriptions`: nothing without a call object; otherwise the `reduce` over the
      remote ids that collects an update for each camera not yet in its desired state. */
  method UpdateCamSubscriptions(
    callParticipants: Option<map<Id, Subscription>>,
    remoteIds: seq<Id>, recentSpeakerIds: seq<Id>,
    subscribedIds: seq<Id>, stagedIds: seq<Id>)
    returns (updates: Option<map<Id, Subscription>>)
    ensures callParticipants.None? <==> updates.None?
    ensures updates.Some? ==> updates.value == CamUpdates(callParticipants.value, remoteIds, subscribedIds,
      StagedIdsFiltered(stagedIds, recentSpeakerIds, subscribedIds))
  {
    if callParticipants.None? {
      return None;
    }
    var current := callParticipants.value;
    var stagedIdsFiltered := stagedIds + Filter(recentSpeakerIds, (id: Id) => id !in subscribedIds);
    var u: map<Id, Subscription> := map[];
    for i := 0 to |remoteIds|
      invariant u == CamUpdates(current, remoteIds[..i], subscribedIds, stagedIdsFiltered)
    {
      var id := remoteIds[i];
      assert remoteIds[..i + 1] == remoteIds[..i] + [id];
      var currentSubscription := if id in current then Some(current[id]) else None;
      if id == "" || id == LOCAL {
        continue;
      }
      var desiredSubscription;
      if id in subscribedIds {
        desiredSubscription := Subscribed;
      } else if id in stagedIdsFiltered {
        desiredSubscription := Staged;
      } else {
        desiredSubscription := Unsubscribed;
      }
      if Some(desiredSubscription) == currentSubscription {
        continue;
      }
      u := u[id := desiredSubscription];
    }
    assert remoteIds[..|remoteIds|] == remoteIds;
    return Some(u);
  }

  /** Once the call applies the updates, recomputing them yields none: the diff converges in
      one round. */
  lemma UpdatesConverge(current: map<Id, Subscription>, remoteIds: seq<Id>, subscribedIds: seq<Id>, stagedIdsFiltered: seq<Id>)
    ensures var updates := CamUpdates(current, remoteIds, subscribedIds, stagedIdsFiltered);
      CamUpdates(current + updates, remoteIds, subscribedIds, stagedIdsFiltered) == map[]
  {
    var updates := CamUpdates(current, remoteIds, subscribedIds, stagedIdsFiltered);
    var after := CamUpdates(current + updates, remoteIds, subscribedIds, stagedIdsFiltered);
    forall id | id in remoteIds && id != "" && id != LOCAL
      ensures Current(current + updates, id) == Some(Desired(id, subscribedIds, stagedIdsFiltered))
    {
      if id !in updates {
        assert Current(current, id) == Some(Desired(id, subscribedIds, stagedIdsFiltered));
      }
    }
    assert after.Keys == {};
  }

  /** A camera already in its desired state gets no update, and an update never names
      `"local"`, an empty id or an id that is not remote. */
  lemma UpdatesOnlyWhereNeeded(current: map<Id, Subscription>, remoteIds: seq<Id>, subscribedIds: seq<Id>, stagedIdsFiltered: seq<Id>, id: Id)
    ensures id in CamUpdates(current, remoteIds, subscribedIds, stagedIdsFiltered) <==>
      (id in remoteIds && id != "" && id != LOCAL && Current(current, id) != Some(Desired(id, subscribedIds, stagedIdsFiltered)))
    ensures LOCAL !in CamUpdates(current, remoteIds, subscribedIds, stagedIdsFiltered)
    ensures "" !in CamUpdates(current, remoteIds, subscribedIds, stagedIdsFiltered)
  {
  }

  // ---------------------------------------------------------------- the video track table

  /** The call events the track table listens to. */
  datatype TrackAction = TrackStarted | TrackStopped | ParticipantUpdated | ParticipantLeft

  /** `videoTracks`: the last video track record seen per participant (`None` when the event
      carried none), filed under `"local"` for the local user. */
  class TrackTable {
    var videoTracks: map<Id, Option<Track>>

    constructor ()
      ensures videoTracks == map[]
    {
      videoTracks := map[];
    }

    /** `handleTrackUpdate`: an event without a participant and a non-video track event change
        nothing; a video track event or a participant update files the participant's video
        track; a departure removes the participant's entry. */
    method HandleTrackUpdate(action: TrackAction, participant: Option<ParticipantDescriptor>, trackKind: string)
      modifies this
      ensures participant.None? ==> videoTracks == old(videoTracks)
      ensures participant.Some? && (action == TrackStarted || action == TrackStopped) ==>
        videoTracks == if trackKind == "video" then old(videoTracks)[StoreId(participant.value) := participant.value.video]
                       else old(videoTracks)
      ensures participant.Some? && action == ParticipantUpdated ==>
        videoTracks == old(videoTracks)[StoreId(participant.value) := participant.value.video]
      ensures participant.Some? && action == ParticipantLeft ==>
        videoTracks == old(videoTracks) - {StoreId(participant.value)}
    {
      if participant.None? {
        return;
      }
      var p := participant.value;
      var id := if p.local then LOCAL else p.userId;
      match action {
        case TrackStarted =>
          if trackKind == "video" {
            videoTracks := videoTracks[id := p.video];
          }
        case TrackStopped =>
          if trackKind == "video" {
            videoTracks := videoTracks[id := p.video];
          }
        case ParticipantUpdated =>
          videoTracks := videoTracks[id := p.video];
        case ParticipantLeft =>
          videoTracks := videoTracks - {id};
      }
    }
  }
}
