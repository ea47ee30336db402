/** The values the media session hands to the application: per-participant track records and
    the participant descriptors carried by its events. Only the fields the modelled code reads
    are kept. */
module Media {
  import opened Wrappers

  /** Participant identifiers; the local user is always stored under `"local"`. */
  type Id = string

  const LOCAL: Id := "local"

  /** JavaScript truthiness of an optional identifier: `undefined`, `null` and `""` are falsy. */
  predicate Truthy(id: Option<Id>) {
    id.Some? && id.value != ""
  }

  /** The `state` of a track as the media session reports it. */
  datatype TrackState = Blocked | Off | Sendable | Loading | Interrupted | Playable

  /** The `subscribed` value of a track: `true`, `"staged"` or `false`. */
  datatype Subscription = Subscribed | Staged | Unsubscribed

  /** Truthiness of a `subscribed` value: `true` and `"staged"` are truthy. */
  predicate IsTruthy(sub: Subscription) {
    sub != Unsubscribed
  }

  /** An opaque handle on a browser `MediaStreamTrack`. */
  datatype MediaTrack = MediaTrack(trackId: string)

  /** A track record: `participant.tracks.video` or `participant.tracks.audio`. */
  datatype Track = Track(state: TrackState, subscribed: Subscription, persistentTrack: Option<MediaTrack>)

  /** The participant object carried by participant events. `audio`/`video` are `None` when the
      track record is missing. */
  datatype ParticipantDescriptor = ParticipantDescriptor(
    local: bool,
    userId: Id,
    userName: string,
    owner: bool,
    audio: Option<Track>,
    video: Option<Track>)

  /** `track?.state === "off" || track?.state === "blocked"`. */
  predicate IsOffOrBlocked(t: Option<Track>) {
    t.Some? && (t.value.state == Off || t.value.state == Blocked)
  }

  /** `track?.state === "loading"`. */
  predicate IsLoadingTrack(t: Option<Track>) {
    t.Some? && t.value.state == Loading
  }

  /** The key under which the application files a participant: `"local"` for the local user,
      the user id otherwise. */
  function StoreId(d: ParticipantDescriptor): Id {
    if d.local then LOCAL else d.userId
  }
}
