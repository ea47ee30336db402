/** The decisions of components/PaginatedGrid.js: which participants the current page shows,
    which participants' cameras are subscribed (shown) or staged (buffered) around it, which
    off-screen speaker is promoted onto the first page, and which bandwidth layer the shown
    participants get. */
module PaginatedGrid {
  import opened Wrappers
  import opened Seqs
  import opened Media
  import opened Ordering
  import opened ParticipantReducer
  import AspectGrid
  import ParticipantProvider

  lemma MulMono(a: int, b: int, c: nat)
    requires a <= b
    ensures a * c <= b * c
  {
  }

  /** The ids of a slice are the slice of the ids. */
  lemma IdsSlice(ps: seq<Participant>, a: nat, b: nat)
    requires a <= b <= |ps|
    ensures Ids(ps[a..b]) == Ids(ps)[a..b]
  {
  }

  // ---------------------------------------------------------------- the visible page

  /** `visibleParticipants`: the page's slice while participants remain after it, otherwise the
      last `pageSize` participants. */
  function VisibleParticipants(ps: seq<Participant>, page: int, pageSize: nat): (r: seq<Participant>)
    ensures |r| <= pageSize
  {
    if |ps| - page * pageSize > 0 then
      assert page * pageSize - (page - 1) * pageSize == pageSize;
      JsSliceLength(ps, (page - 1) * pageSize, page * pageSize);
      JsSlice(ps, (page - 1) * pageSize, page * pageSize)
    else JsSlice(ps, -(pageSize as int), |ps|)
  }

  /** From the first page on, the visible participants are a contiguous run of
      `min(pageSize, n)` entries: the page's own slice when participants remain after it, the
      last entries otherwise. */
  lemma VisibleRun(ps: seq<Participant>, page: int, pageSize: nat)
    requires page >= 1 && pageSize >= 1
    ensures |VisibleParticipants(ps, page, pageSize)| == Min(pageSize, |ps|)
    ensures |ps| > page * pageSize ==>
      VisibleParticipants(ps, page, pageSize) == ps[(page - 1) * pageSize .. page * pageSize]
    ensures |ps| <= page * pageSize ==>
      VisibleParticipants(ps, page, pageSize) == ps[|ps| - Min(pageSize, |ps|) ..]
  {
    MulMono(1, page, pageSize);
    MulMono(0, page - 1, pageSize);
    assert page * pageSize - (page - 1) * pageSize == pageSize;
  }

  // ---------------------------------------------------------------- the subscription window

  /** The ids of the participants whose cameras are rendered or buffered: the first two pages
      on page 1, the last two pages' worth on the last page, and the page with a page of buffer
      on either side anywhere else. Page 1 is checked first, and with a page size of 0 the
      last-page case never applies (`Math.ceil(n / 0)` is not a page number). */
  function WindowIds(ps: seq<Participant>, page: int, pageSize: nat): seq<Id> {
    var maxSubs := 3 * pageSize;
    if page == 1 then Ids(JsSlice(ps, 0, Min(maxSubs, 2 * pageSize)))
    else if pageSize >= 1 && page == AspectGrid.Pages(|ps|, pageSize) then
      Ids(JsSlice(ps, -Min(maxSubs, 2 * pageSize), |ps|))
    else
      var buffer := (maxSubs - pageSize) / 2;
      Ids(JsSlice(ps, (page - 1) * pageSize - buffer, page * pageSize + buffer))
  }

  /** Page 1 takes the first `2·pageSize` ids, even when it is also the last page. */
  lemma WindowFirstPage(ps: seq<Participant>, pageSize: nat)
    ensures WindowIds(ps, 1, pageSize) == Ids(ps)[..Min(2 * pageSize, |ps|)]
  {
    IdsSlice(ps, 0, Min(2 * pageSize, |ps|));
  }

  /** Any later page that is the last page, `ceil(n / pageSize)`, takes the last
      `2·pageSize` ids. */
  lemma WindowLastPage(ps: seq<Participant>, page: int, pageSize: nat)
    requires page != 1 && pageSize >= 1 && page == AspectGrid.Pages(|ps|, pageSize)
    ensures WindowIds(ps, page, pageSize) == Ids(ps)[|ps| - Min(2 * pageSize, |ps|) ..]
  {
    IdsSlice(ps, |ps| - Min(2 * pageSize, |ps|), |ps|);
  }

  /** The interior window's bounds: a page of buffer on either side of page `page`. */
  lemma InteriorBounds(page: int, pageSize: nat)
    requires page >= 2
    ensures (page - 1) * pageSize - (3 * pageSize - pageSize) / 2 == (page - 2) * pageSize
    ensures page * pageSize + (3 * pageSize - pageSize) / 2 == (page + 1) * pageSize
    ensures 0 <= (page - 2) * pageSize <= (page + 1) * pageSize
  {
    assert (3 * pageSize - pageSize) / 2 == pageSize;
    MulMono(0, page - 2, pageSize);
    MulMono(page - 2, page + 1, pageSize);
  }

  /** With bounds that are not negative, `slice` clamps both to the length. */
  lemma JsSliceClamped<T>(s: seq<T>, lo: int, hi: int)
    requires 0 <= lo <= hi
    ensures Min(lo, |s|) <= Min(hi, |s|)
    ensures JsSlice(s, lo, hi) == s[Min(lo, |s|) .. Min(hi, |s|)]
  {
  }

  /** Any other page from the second on takes the ids from `(page − 2)·pageSize` to
      `(page + 1)·pageSize`: the page with a page of buffer on either side. */
  lemma WindowInterior(ps: seq<Participant>, page: int, pageSize: nat)
    requires page >= 2 && !(pageSize >= 1 && page == AspectGrid.Pages(|ps|, pageSize))
    ensures 0 <= (page - 2) * pageSize <= (page + 1) * pageSize
    ensures WindowIds(ps, page, pageSize)
      == Ids(ps)[Min((page - 2) * pageSize, |ps|) .. Min((page + 1) * pageSize, |ps|)]
  {
    var lo, hi := (page - 2) * pageSize, (page + 1) * pageSize;
    InteriorBounds(page, pageSize);
    JsSliceClamped(ps, lo, hi);
    IdsSlice(ps, Min(lo, |ps|), Min(hi, |ps|));
  }

  /** No window holds more than `3·pageSize` ids (`maxSubs`). */
  lemma WindowSize(ps: seq<Participant>, page: int, pageSize: nat)
    ensures |WindowIds(ps, page, pageSize)| <= 3 * pageSize
  {
    var n := |ps|;
    if page == 1 {
      WindowFirstPage(ps, pageSize);
    } else if pageSize >= 1 && page == AspectGrid.Pages(n, pageSize) {
      WindowLastPage(ps, page, pageSize);
    } else {
      var lo := (page - 1) * pageSize - (3 * pageSize - pageSize) / 2;
      var hi := page * pageSize + (3 * pageSize - pageSize) / 2;
      assert (3 * pageSize - pageSize) / 2 == pageSize;
      assert hi - lo == 3 * pageSize;
      JsSliceLength(ps, lo, hi);
    }
  }

  /** `visibleParticipants.some((vp) => vp.id === id)` for a non-local id. */
  function SubscribeFilter(visible: seq<Participant>): Id -> bool {
    (id: Id) => id != LOCAL && id in Ids(visible)
  }

  /** A non-local id that is not visible. */
  function StageFilter(visible: seq<Participant>): Id -> bool {
    (id: Id) => id != LOCAL && id !in Ids(visible)
  }

  /** The subscribed ids: the window's non-local ids that are visible, in window order. */
  function SubscribedIds(window: seq<Id>, visible: seq<Participant>): seq<Id> {
    Filter(window, SubscribeFilter(visible))
  }

  /** The staged ids: the window's non-local ids that are not visible, in window order. */
  function StagedIds(window: seq<Id>, visible: seq<Participant>): seq<Id> {
    Filter(window, StageFilter(visible))
  }

  /** The `forEach` that pushes each non-local id of the window onto the subscribed list when
      it is visible and onto the staged list otherwise. */
  method SplitWindow(window: seq<Id>, visible: seq<Participant>) returns (subscribedIds: seq<Id>, stagedIds: seq<Id>)
    ensures subscribedIds == SubscribedIds(window, visible)
    ensures stagedIds == StagedIds(window, visible)
  {
    subscribedIds, stagedIds := [], [];
    for i := 0 to |window|
      invariant subscribedIds == SubscribedIds(window[..i], visible)
      invariant stagedIds == StagedIds(window[..i], visible)
    {
      var id := window[i];
      assert window[..i + 1] == window[..i] + [id];
      FilterAppend(window[..i], id, SubscribeFilter(visible));
      FilterAppend(window[..i], id, StageFilter(visible));
      if id != LOCAL {
        if id in Ids(visible) {
          subscribedIds := subscribedIds + [id];
        } else {
          stagedIds := stagedIds + [id];
        }
      }
    }
    assert window[..|window|] == window;
  }

  /** An id is subscribed exactly when it is a non-local, visible id of the window, and staged
      exactly when it is a non-local, invisible id of the window; so no id is both and
      `"local"` is neither. */
  lemma SplitMembership(window: seq<Id>, visible: seq<Participant>, id: Id)
    ensures id in SubscribedIds(window, visible) <==> id in window && id != LOCAL && id in Ids(visible)
    ensures id in StagedIds(window, visible) <==> id in window && id != LOCAL && id !in Ids(visible)
    ensures !(id in SubscribedIds(window, visible) && id in StagedIds(window, visible))
    ensures LOCAL !in SubscribedIds(window, visible) && LOCAL !in StagedIds(window, visible)
  {
    var sub, staged := SubscribedIds(window, visible), StagedIds(window, visible);
    if id in sub {
      var k :| 0 <= k < |sub| && sub[k] == id;
    }
    if id in staged {
      var k :| 0 <= k < |staged| && staged[k] == id;
    }
    if id in window {
      var k :| 0 <= k < |window| && window[k] == id;
    }
    assert forall k :: 0 <= k < |sub| ==> sub[k] != LOCAL;
    assert forall k :: 0 <= k < |staged| ==> staged[k] != LOCAL;
  }

  /** Together the two lists hold each non-local id of the window exactly as often as the
      window does: the split loses and duplicates nothing. */
  lemma {:induction false} SplitPartitions(window: seq<Id>, visible: seq<Participant>)
    ensures multiset(SubscribedIds(window, visible)) + multiset(StagedIds(window, visible))
      == multiset(Filter(window, (id: Id) => id != LOCAL))
  {
    if window != [] {
      SplitPartitions(window[1..], visible);
    }
  }

  /** An id of a slice lies in any wider slice. */
  lemma SliceIdsWithin(ps: seq<Participant>, a: nat, b: nat, c: nat, d: nat, id: Id)
    requires c <= a <= b <= d <= |ps|
    requires id in Ids(ps[a..b])
    ensures id in Ids(ps)[c..d]
  {
    var k :| 0 <= k < b - a && Ids(ps[a..b])[k] == id;
    assert Ids(ps)[c..d][a + k - c] == ps[a + k].id;
  }

  /** Where the visible run starts and ends in the list. */
  lemma VisibleBounds(ps: seq<Participant>, page: int, pageSize: nat) returns (a: nat, b: nat)
    requires page >= 1 && pageSize >= 1
    ensures a <= b <= |ps| && VisibleParticipants(ps, page, pageSize) == ps[a..b]
    ensures |ps| > page * pageSize ==> a == (page - 1) * pageSize && b == page * pageSize
    ensures |ps| <= page * pageSize ==> a == |ps| - Min(pageSize, |ps|) && b == |ps|
  {
    VisibleRun(ps, page, pageSize);
    MulMono(0, page - 1, pageSize);
    if |ps| > page * pageSize {
      a, b := (page - 1) * pageSize, page * pageSize;
    } else {
      a, b := |ps| - Min(pageSize, |ps|), |ps|;
    }
  }

  lemma FirstPageWithinWindow(ps: seq<Participant>, pageSize: nat, id: Id)
    requires pageSize >= 1
    requires id in Ids(VisibleParticipants(ps, 1, pageSize))
    ensures id in WindowIds(ps, 1, pageSize)
  {
    var a, b := VisibleBounds(ps, 1, pageSize);
    WindowFirstPage(ps, pageSize);
    SliceIdsWithin(ps, a, b, 0, Min(2 * pageSize, |ps|), id);
  }

  lemma LastPageWithinWindow(ps: seq<Participant>, page: int, pageSize: nat, id: Id)
    requires pageSize >= 1 && 1 < page == AspectGrid.Pages(|ps|, pageSize)
    requires id in Ids(VisibleParticipants(ps, page, pageSize))
    ensures id in WindowIds(ps, page, pageSize)
  {
    var n := |ps|;
    var a, b := VisibleBounds(ps, page, pageSize);
    assert n <= page * pageSize;
    WindowLastPage(ps, page, pageSize);
    SliceIdsWithin(ps, a, b, n - Min(2 * pageSize, n), n, id);
    assert Ids(ps)[n - Min(2 * pageSize, n)..] == Ids(ps)[n - Min(2 * pageSize, n)..n];
  }

  /** On a page strictly between the first and the last, the page lies inside its buffered
      window, and the list runs past it. */
  lemma InteriorArithmetic(n: nat, page: int, pageSize: nat)
    requires pageSize >= 1 && 1 < page < AspectGrid.Pages(n, pageSize)
    ensures n > page * pageSize
    ensures 0 <= Min((page - 2) * pageSize, n) <= (page - 1) * pageSize
    ensures page * pageSize <= Min((page + 1) * pageSize, n)
  {
    var pages := AspectGrid.Pages(n, pageSize);
    MulMono(page, pages - 1, pageSize);
    MulMono(0, page - 2, pageSize);
    assert (page - 2) * pageSize == (page - 1) * pageSize - pageSize;
    assert (page + 1) * pageSize == page * pageSize + pageSize;
  }

  lemma InteriorPageWithinWindow(ps: seq<Participant>, page: int, pageSize: nat, id: Id)
    requires pageSize >= 1 && 1 < page < AspectGrid.Pages(|ps|, pageSize)
    requires id in Ids(VisibleParticipants(ps, page, pageSize))
    ensures id in WindowIds(ps, page, pageSize)
  {
    var n := |ps|;
    InteriorArithmetic(n, page, pageSize);
    var a, b := VisibleBounds(ps, page, pageSize);
    WindowInterior(ps, page, pageSize);
    SliceIdsWithin(ps, a, b, Min((page - 2) * pageSize, n), Min((page + 1) * pageSize, n), id);
  }

  /** Every visible participant's id lies in the window when `1 <= page <= pages`. */
  lemma VisibleWithinWindow(ps: seq<Participant>, page: int, pageSize: nat, id: Id)
    requires pageSize >= 1 && 1 <= page <= AspectGrid.Pages(|ps|, pageSize)
    requires id in Ids(VisibleParticipants(ps, page, pageSize))
    ensures id in WindowIds(ps, page, pageSize)
  {
    if page == 1 {
      FirstPageWithinWindow(ps, pageSize, id);
    } else if page == AspectGrid.Pages(|ps|, pageSize) {
      LastPageWithinWindow(ps, page, pageSize, id);
    } else {
      InteriorPageWithinWindow(ps, page, pageSize, id);
    }
  }

  /** Between the first and the last page every visible remote participant is subscribed, and
      only visible ones are. */
  lemma SubscribedAreVisible(ps: seq<Participant>, page: int, pageSize: nat, id: Id)
    requires pageSize >= 1 && 1 <= page <= AspectGrid.Pages(|ps|, pageSize)
    ensures var visible := VisibleParticipants(ps, page, pageSize);
      (id in SubscribedIds(WindowIds(ps, page, pageSize), visible))
        <==> (id != LOCAL && id in Ids(visible))
  {
    var visible := VisibleParticipants(ps, page, pageSize);
    SplitMembership(WindowIds(ps, page, pageSize), visible, id);
    if id != LOCAL && id in Ids(visible) {
      VisibleWithinWindow(ps, page, pageSize, id);
    }
  }

  /** A remote participant filed under `id`. */
  function Remote(id: Id): Participant {
    Participant(id, id, None, false, false, false, false, false, false, None, Some(0))
  }

  /** Twelve remote participants `p1` … `p12` in list order. */
  function TwelveRemotes(): seq<Participant> {
    [Remote("p1"), Remote("p2"), Remote("p3"), Remote("p4"),
     Remote("p5"), Remote("p6"), Remote("p7"), Remote("p8"),
     Remote("p9"), Remote("p10"), Remote("p11"), Remote("p12")]
  }

  /** Of the example's first-page window, exactly the first four ids are shown. */
  lemma ExampleShown(window: seq<Id>, visible: seq<Participant>, i: nat)
    requires window == ["p1", "p2", "p3", "p4", "p5", "p6", "p7", "p8"]
    requires Ids(visible) == ["p1", "p2", "p3", "p4"]
    requires i < 8
    ensures window[i] != LOCAL
    ensures window[i] in Ids(visible) <==> i < 4
  {
    var shownIds := Ids(visible);
    if i >= 4 {
      assert window[i][1] !in {'1', '2', '3', '4'};
      assert forall k :: 0 <= k < 4 ==> shownIds[k][1] in {'1', '2', '3', '4'};
    } else {
      assert shownIds[i] == window[i];
    }
  }

  lemma ExampleSubscribed(window: seq<Id>, visible: seq<Participant>)
    requires window == ["p1", "p2", "p3", "p4", "p5", "p6", "p7", "p8"]
    requires Ids(visible) == ["p1", "p2", "p3", "p4"]
    ensures SubscribedIds(window, visible) == ["p1", "p2", "p3", "p4"]
  {
    assert window[0..4] == ["p1", "p2", "p3", "p4"];
    forall i | 0 <= i < 8 ensures SubscribeFilter(visible)(window[i]) <==> 0 <= i < 4 {
      ExampleShown(window, visible, i);
    }
    FilterRange(window, SubscribeFilter(visible), 0, 4);
  }

  lemma ExampleStaged(window: seq<Id>, visible: seq<Participant>)
    requires window == ["p1", "p2", "p3", "p4", "p5", "p6", "p7", "p8"]
    requires Ids(visible) == ["p1", "p2", "p3", "p4"]
    ensures StagedIds(window, visible) == ["p5", "p6", "p7", "p8"]
  {
    assert window[4..8] == ["p5", "p6", "p7", "p8"];
    forall i | 0 <= i < 8 ensures StageFilter(visible)(window[i]) <==> 4 <= i < 8 {
      ExampleShown(window, visible, i);
    }
    FilterRange(window, StageFilter(visible), 4, 8);
  }

  /** The example's ids, `p1` to `p12`. */
  lemma TwelveIds()
    ensures Ids(TwelveRemotes()) == ["p1", "p2", "p3", "p4", "p5", "p6", "p7", "p8", "p9", "p10", "p11", "p12"]
  {
  }

  /** The example's first-page window: the first eight ids. */
  lemma ExampleWindow()
    ensures WindowIds(TwelveRemotes(), 1, 4) == ["p1", "p2", "p3", "p4", "p5", "p6", "p7", "p8"]
  {
    WindowFirstPage(TwelveRemotes(), 4);
    TwelveIds();
  }

  /** The example's first page: the first four participants. */
  lemma ExampleVisible()
    ensures Ids(VisibleParticipants(TwelveRemotes(), 1, 4)) == ["p1", "p2", "p3", "p4"]
  {
    var ps := TwelveRemotes();
    FirstPageIsPrefix(ps, 4);
    IdsSlice(ps, 0, 4);
    assert ps[..4] == ps[0..4];
    TwelveIds();
  }

  /** Twelve remote participants, four per page: on page 1 the first four are subscribed and
      the next four staged. */
  lemma ExampleFirstPage()
    ensures SubscribedIds(WindowIds(TwelveRemotes(), 1, 4), VisibleParticipants(TwelveRemotes(), 1, 4))
      == ["p1", "p2", "p3", "p4"]
    ensures StagedIds(WindowIds(TwelveRemotes(), 1, 4), VisibleParticipants(TwelveRemotes(), 1, 4))
      == ["p5", "p6", "p7", "p8"]
  {
    var ps := TwelveRemotes();
    ExampleWindow();
    ExampleVisible();
    ExampleSubscribed(WindowIds(ps, 1, 4), VisibleParticipants(ps, 1, 4));
    ExampleStaged(WindowIds(ps, 1, 4), VisibleParticipants(ps, 1, 4));
  }

  // ---------------------------------------------------------------- speaker promotion

  /** The visible participants other than the local one, in their list order. */
  function RemoteVisible(visible: seq<Participant>): seq<Participant> {
    Filter(visible, IsRemote)
  }

  /** `handleActiveSpeakerChange`: the pair of ids handed to `swapParticipantPosition`, if any.
      The speaker `peerId` is swapped with the visible remote participant that sorts first by
      `lastActiveDate`, unless the id is falsy, already visible, the page is past the first or
      nobody visible is remote. */
  function PromotionSwap(visible: seq<Participant>, page: int, peerId: Option<Id>, le: KeyOrder): Option<(Id, Id)> {
    if !Truthy(peerId) then None
    else if peerId.value in Ids(visible) then None
    else if page > 1 then None
    else
      var sorted := SortBy(RemoteVisible(visible), LastActiveKey, le);
      if |sorted| == 0 then None
      else Some((sorted[0].id, peerId.value))
  }

  /** The effect that runs the handler for the current `activeParticipantId` while on the first
      page. */
  function SpeakerEffect(visible: seq<Participant>, page: int, activeParticipantId: Option<Id>, le: KeyOrder): Option<(Id, Id)> {
    if page > 1 || !Truthy(activeParticipantId) then None
    else PromotionSwap(visible, page, activeParticipantId, le)
  }

  /** Promotion does nothing exactly when the id is falsy, already visible, the page is past
      the first or no visible participant is remote; the effect adds no case of its own. */
  lemma PromotionNoop(visible: seq<Participant>, page: int, peerId: Option<Id>, le: KeyOrder)
    ensures PromotionSwap(visible, page, peerId, le).None?
      <==> !Truthy(peerId) || peerId.value in Ids(visible) || page > 1 || RemoteVisible(visible) == []
    ensures SpeakerEffect(visible, page, peerId, le) == PromotionSwap(visible, page, peerId, le)
  {
  }

  /** Otherwise exactly one swap is asked for: of the speaker with the earliest of the visible
      remote participants that sort first by `lastActiveDate`. */
  lemma PromotionPicksLeastRecent(visible: seq<Participant>, page: int, peerId: Option<Id>, le: KeyOrder)
    requires TotalPreorder(le)
    requires PromotionSwap(visible, page, peerId, le).Some?
    ensures var (a, b) := PromotionSwap(visible, page, peerId, le).value;
      && b == peerId.value
      && exists k :: FirstMinimalAt(RemoteVisible(visible), k, LastActiveKey, le) && a == RemoteVisible(visible)[k].id
  {
    SortByHead(RemoteVisible(visible), LastActiveKey, le);
  }

  /** The first page is a prefix of the list. */
  lemma FirstPageIsPrefix(ps: seq<Participant>, pageSize: nat)
    requires pageSize >= 1
    ensures VisibleParticipants(ps, 1, pageSize) == ps[..Min(pageSize, |ps|)]
  {
    VisibleRun(ps, 1, pageSize);
  }

  /** The participant promotion picks is a visible remote participant. */
  lemma PromotedIsVisible(visible: seq<Participant>, page: int, peerId: Option<Id>, le: KeyOrder)
    requires PromotionSwap(visible, page, peerId, le).Some?
    ensures exists i :: 0 <= i < |visible| && visible[i].id == PromotionSwap(visible, page, peerId, le).value.0 && !visible[i].isLocal
  {
    var remote := RemoteVisible(visible);
    var sorted := SortBy(remote, LastActiveKey, le);
    assert sorted[0] in multiset(remote);
    var k :| 0 <= k < |remote| && remote[k] == sorted[0];
    assert remote[k] in visible && IsRemote(remote[k]);
  }

  /** Exchanging an entry inside a prefix with one beyond it brings the outside entry's id
      into the prefix and takes the inside entry's id out, when ids are distinct. */
  lemma ExchangeIntoPrefix(ps: seq<Participant>, i: nat, j: nat, m: nat)
    requires UniqueIds(ps) && i < m <= j < |ps|
    ensures ps[j].id in Ids(Exchange(ps, i, j)[..m])
    ensures ps[i].id !in Ids(Exchange(ps, i, j)[..m])
  {
    var shown := Exchange(ps, i, j)[..m];
    ExchangeAt(ps, i, j);
    assert Ids(shown)[i] == ps[j].id;
    forall k | 0 <= k < m ensures Ids(shown)[k] != ps[i].id {
      assert shown[k] == ps[if k == i then j else k];
    }
  }

  /** Where the two participants of a first-page promotion sit: the picked one on the page,
      the speaker after it. */
  lemma PromotionIndices(ps: seq<Participant>, pageSize: nat, peer: Id, le: KeyOrder) returns (i: nat, j: nat)
    requires UniqueIds(ps) && pageSize >= 1 && peer in Ids(ps)
    requires PromotionSwap(VisibleParticipants(ps, 1, pageSize), 1, Some(peer), le).Some?
    ensures var (a, b) := PromotionSwap(VisibleParticipants(ps, 1, pageSize), 1, Some(peer), le).value;
      && i < Min(pageSize, |ps|) <= j < |ps|
      && ps[i].id == a && ps[j].id == b
      && IndexOf(ps, a) == i && IndexOf(ps, b) == j
  {
    var visible := VisibleParticipants(ps, 1, pageSize);
    var (a, b) := PromotionSwap(visible, 1, Some(peer), le).value;
    var m := Min(pageSize, |ps|);
    FirstPageIsPrefix(ps, pageSize);
    assert b == peer && peer !in Ids(visible);
    PromotedIsVisible(visible, 1, Some(peer), le);
    i :| 0 <= i < |visible| && visible[i].id == a;
    assert ps[i] == visible[i];
    IndexOfUnique(ps, i, a);
    IndexBeyondPrefix(ps, m, b);
    j := IndexOf(ps, b);
  }

  /** An id of the list that is not among the ids of its first `m` entries is found at or
      after index `m`. */
  lemma IndexBeyondPrefix(ps: seq<Participant>, m: nat, id: Id)
    requires m <= |ps| && id in Ids(ps) && id !in Ids(ps[..m])
    ensures m <= IndexOf(ps, id) < |ps| && ps[IndexOf(ps, id)].id == id
  {
    IndexOfFinds(ps, id);
    forall k | 0 <= k < m ensures ps[k].id != id {
      assert Ids(ps[..m])[k] == ps[k].id;
    }
  }

  /** On page 1 of a store with distinct, non-empty ids, the swap that promotion asks for puts
      the speaker on the page in place of the participant it picked. */
  lemma PromotionShowsSpeaker(s: State, pageSize: nat, peer: Id, le: KeyOrder)
    requires UniqueIds(s.participants) && pageSize >= 1
    requires forall k :: 0 <= k < |s.participants| ==> s.participants[k].id != ""
    requires peer in Ids(s.participants)
    requires PromotionSwap(VisibleParticipants(s.participants, 1, pageSize), 1, Some(peer), le).Some?
    ensures var (a, b) := PromotionSwap(VisibleParticipants(s.participants, 1, pageSize), 1, Some(peer), le).value;
      var shown := VisibleParticipants(SwapStep(s, Some(a), Some(b)).participants, 1, pageSize);
      b in Ids(shown) && a !in Ids(shown)
  {
    var ps := s.participants;
    var (a, b) := PromotionSwap(VisibleParticipants(ps, 1, pageSize), 1, Some(peer), le).value;
    var i, j := PromotionIndices(ps, pageSize, peer, le);
    assert SwapStep(s, Some(a), Some(b)).participants == Exchange(ps, i, j);
    FirstPageIsPrefix(Exchange(ps, i, j), pageSize);
    ExchangeIntoPrefix(ps, i, j, Min(pageSize, |ps|));
  }

  // ---------------------------------------------------------------- bandwidth layers

  /** The simulcast layer for `count` visible tiles: the top layer for fewer than 5, the middle
      one for fewer than 10, the lowest otherwise. */
  function LayerFor(count: nat): (layer: int)
    ensures 0 <= layer <= 2
    ensures layer == 2 <==> count < 5
    ensures layer == 0 <==> count >= 10
  {
    if count < 5 then 2 else if count < 10 then 1 else 0
  }

  /** More visible tiles never get a higher layer. */
  lemma LayerNonIncreasing(a: nat, b: nat)
    requires a <= b
    ensures LayerFor(b) <= LayerFor(a)
  {
  }

  /** The visible ids other than `"local"`. */
  function VisibleRemoteIds(visible: seq<Participant>): set<Id> {
    set i | 0 <= i < |visible| && visible[i].id != LOCAL :: visible[i].id
  }

  /** The receive settings the auto-layer effect builds: every visible non-local id at the
      layer for the count of visible tiles. */
  function AutoLayerMap(visible: seq<Participant>): map<Id, int> {
    map id | id in VisibleRemoteIds(visible) :: LayerFor(|visible|)
  }

  /** The auto-layer effect: nothing when auto layers are off; otherwise the receive settings
      built by the `reduce` that files every visible non-local id under the layer for the count
      of visible tiles. */
  method AutoLayerSettings(autoLayers: bool, visible: seq<Participant>) returns (settings: Option<map<Id, int>>)
    ensures !autoLayers <==> settings.None?
    ensures settings.Some? ==>
      && settings.value.Keys == VisibleRemoteIds(visible)
      && (forall id :: id in settings.value ==> settings.value[id] == LayerFor(|visible|))
      && settings.value == AutoLayerMap(visible)
  {
    if !autoLayers {
      return None;
    }
    var count := |visible|;
    var layer := LayerFor(count);
    var acc: map<Id, int> := map[];
    for i := 0 to |visible|
      invariant acc.Keys == (set j | 0 <= j < i && visible[j].id != LOCAL :: visible[j].id)
      invariant forall id :: id in acc ==> acc[id] == layer
    {
      var p := visible[i];
      if p.id == LOCAL {
        continue;
      }
      acc := acc[p.id := layer];
    }
    assert acc.Keys == AutoLayerMap(visible).Keys;
    return Some(acc);
  }

  /** What reaches the call when the effect hands its settings to `updateReceiveSettings`:
      with a call object, settings for exactly the visible non-local ids, never `"local"`,
      every one at the same layer in `0..2`; without a call object, nothing. */
  lemma AutoLayerCommand(hasCallObject: bool, visible: seq<Participant>)
    ensures var c := ParticipantProvider.ReceiveSettingsCommand(hasCallObject, AutoLayerMap(visible));
      && (c.Some? <==> hasCallObject)
      && (c.Some? ==>
            && c.value.Keys == VisibleRemoteIds(visible)
            && LOCAL !in c.value
            && forall id :: id in c.value ==> 0 <= c.value[id] <= 2 && c.value[id] == LayerFor(|visible|))
      && (forall i :: 0 <= i < |visible| && visible[i].id != LOCAL && c.Some? ==> visible[i].id in c.value)
  {
    var c := ParticipantProvider.ReceiveSettingsCommand(hasCallObject, AutoLayerMap(visible));
    if c.Some? {
      forall i | 0 <= i < |visible| && visible[i].id != LOCAL ensures visible[i].id in c.value {
        assert visible[i].id in VisibleRemoteIds(visible);
      }
    }
  }
}
