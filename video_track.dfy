/** The gate of hooks/useVideoTrack.js: whether a tile is handed its participant's camera
    track, given the table of video tracks kept from track events. */
module VideoTrack {
  import opened Wrappers
  import opened Media

  /** What the hook returns: `null`, or the entry's `persistentTrack`, which is `None`
      (`undefined`) when there is no entry or the entry has none. */
  datatype VideoTrackResult = NoTrack | PersistentTrack(track: Option<MediaTrack>)

  /** `videoTracks?.[id]`: the track record filed for `id`, if any. */
  function Entry(videoTracks: map<Id, Option<Track>>, id: Id): Option<Track> {
    if id in videoTracks then videoTracks[id] else None
  }

  /** `!videoTrack?.subscribed`: no record, or a record that is not subscribed. */
  predicate NotSubscribed(t: Option<Track>) {
    t.None? || !IsTruthy(t.value.subscribed)
  }

  /** The hook's result for participant `id`. */
  function UseVideoTrack(videoTracks: map<Id, Option<Track>>, id: Id): VideoTrackResult {
    var t := Entry(videoTracks, id);
    if IsOffOrBlocked(t) || (NotSubscribed(t) && id != LOCAL) then NoTrack
    else PersistentTrack(if t.Some? then t.value.persistentTrack else None)
  }

  /** A track that is off or blocked is never handed out, nor a remote track that is not
      subscribed or staged; in every other case the tile gets the record's `persistentTrack`. */
  lemma UseVideoTrackGate(videoTracks: map<Id, Option<Track>>, id: Id)
    ensures var t := Entry(videoTracks, id);
      && ((UseVideoTrack(videoTracks, id) == NoTrack)
          <==> (IsOffOrBlocked(t) || (id != LOCAL && (t.None? || t.value.subscribed == Unsubscribed))))
      && (UseVideoTrack(videoTracks, id).PersistentTrack? ==>
           UseVideoTrack(videoTracks, id).track == if t.Some? then t.value.persistentTrack else None)
  {
  }

  /** A staged remote track that is neither off nor blocked is handed out, as a subscribed one
      is. */
  lemma StagedTrackIsReturned(videoTracks: map<Id, Option<Track>>, id: Id)
    requires id in videoTracks && videoTracks[id].Some?
    requires videoTracks[id].value.subscribed == Staged
    requires videoTracks[id].value.state != Off && videoTracks[id].value.state != Blocked
    ensures UseVideoTrack(videoTracks, id) == PersistentTrack(videoTracks[id].value.persistentTrack)
  {
  }

  /** The local user's track is handed out even when unsubscribed, and even with no record
      (as `undefined`), unless it is off or blocked. */
  lemma LocalTrackIgnoresSubscription(videoTracks: map<Id, Option<Track>>)
    ensures UseVideoTrack(videoTracks, LOCAL) == NoTrack <==> IsOffOrBlocked(Entry(videoTracks, LOCAL))
    ensures LOCAL !in videoTracks ==> UseVideoTrack(videoTracks, LOCAL) == PersistentTrack(None)
  {
  }
}
