/**
 * The anchor reconciler: the set of anchor ids believed live, the
 * localization and head-tracking state that gate queries, and the events it
 * reports to consumers. Each event the source invokes is appended to
 * `events`, in invocation order.
 */
module AnchorReconciler {
  import opened Wrappers
  import opened Spatial

  /** A localization result of the space SDK. A null space name is modelled as "". */
  datatype LocalizationResult = LocalizationResult(status: LocalizationStatus, spaceId: string, spaceName: string)

  /** Head-tracking status; every status other than Valid is modelled as Invalid. */
  datatype HeadTrackingStatus = Invalid | Valid

  datatype Event =
    | OnLocalized(result: LocalizationResult)
    | OnAnchorsLost
    | OnAnchorAdded(anchor: Anchor)
    | OnAnchorUpdated(anchor: Anchor)
    | OnAnchorRemoved(id: string)

  /** The ids of a snapshot, as a set: a repeated id counts once. */
  function Ids(anchors: seq<Anchor>): set<string>
    decreases |anchors|
  {
    if anchors == [] then {} else Ids(anchors[..|anchors| - 1]) + {anchors[|anchors| - 1].id}
  }

  /** An id belongs to Ids(anchors) exactly when some entry carries it. */
  lemma {:induction false} InIds(anchors: seq<Anchor>, id: string)
    ensures id in Ids(anchors) <==> exists k :: 0 <= k < |anchors| && anchors[k].id == id
    decreases |anchors|
  {
    if anchors != [] {
      var n := |anchors| - 1;
      InIds(anchors[..n], id);
      if id in Ids(anchors[..n]) {
        var k :| 0 <= k < n && anchors[..n][k].id == id;
        assert anchors[k].id == id;
      }
      if exists k :: 0 <= k < |anchors| && anchors[k].id == id {
        var k :| 0 <= k < |anchors| && anchors[k].id == id;
        if k < n { assert anchors[..n][k].id == id; }
      }
    }
  }

  /** The event one snapshot entry yields, given the ids tracked when it is reached. */
  function ScanEvent(tracked: set<string>, anchor: Anchor): Event
  {
    if anchor.id in tracked then OnAnchorUpdated(anchor) else OnAnchorAdded(anchor)
  }

  /**
   * The Added/Updated events of a reconcile pass, in snapshot order. Every
   * entry sees the ids tracked before the pass plus those of the entries
   * before it, because an Added id is inserted at once.
   */
  function Scan(tracked: set<string>, anchors: seq<Anchor>): (r: seq<Event>)
    ensures |r| == |anchors|
    decreases |anchors|
  {
    if anchors == [] then []
    else
      var n := |anchors| - 1;
      Scan(tracked, anchors[..n]) + [ScanEvent(tracked + Ids(anchors[..n]), anchors[n])]
  }

  lemma SeenMinusUnseen(before: set<string>, seen: set<string>)
    ensures (before + seen) - (before - seen) == seen
  {
  }

  /** The scan of a snapshot followed by a removal report of the ids it lost is a reconcile trace. */
  lemma ReconcileTraceOf(tracked: set<string>, anchors: seq<Anchor>, order: seq<string>)
    requires IsRemovalOf(RemovedEvents(order), tracked - Ids(anchors))
    ensures IsReconcileTrace(tracked, anchors, Scan(tracked, anchors) + RemovedEvents(order))
  {
    var trace := Scan(tracked, anchors) + RemovedEvents(order);
    assert trace[..|anchors|] == Scan(tracked, anchors);
    assert trace[|anchors|..] == RemovedEvents(order);
  }

  /** The events log after a pass: what it held before, then a reconcile trace. */
  lemma PassTrace(tracked: set<string>, anchors: seq<Anchor>, start: seq<Event>, order: seq<string>, events: seq<Event>)
    requires IsRemovalOf(RemovedEvents(order), tracked - Ids(anchors))
    requires events == start + (Scan(tracked, anchors) + RemovedEvents(order))
    ensures |start| <= |events| && events[..|start|] == start
    ensures IsReconcileTrace(tracked, anchors, events[|start|..])
  {
    ReconcileTraceOf(tracked, anchors, order);
    assert events[|start|..] == Scan(tracked, anchors) + RemovedEvents(order);
  }

  /** `es` reports each id of `ids` as removed, exactly once, and nothing else. */
  ghost predicate IsRemovalOf(es: seq<Event>, ids: set<string>)
  {
    && (forall k :: 0 <= k < |es| ==> es[k].OnAnchorRemoved? && es[k].id in ids)
    && (forall id :: id in ids ==> OnAnchorRemoved(id) in es)
    && (forall j, k :: 0 <= j < k < |es| ==> es[j] != es[k])
  }

  /**
   * The events of one reconcile pass of `anchors` against `tracked`: one
   * Added or Updated event per snapshot entry, in order, and after all of
   * them one Removed event for every tracked id the snapshot lacks.
   */
  ghost predicate IsReconcileTrace(tracked: set<string>, anchors: seq<Anchor>, trace: seq<Event>)
  {
    && |anchors| <= |trace|
    && trace[..|anchors|] == Scan(tracked, anchors)
    && IsRemovalOf(trace[|anchors|..], tracked - Ids(anchors))
  }

  /** Entry k is reported as Updated exactly when its id was tracked at that moment. */
  lemma {:induction false} ScanAt(tracked: set<string>, anchors: seq<Anchor>, k: nat)
    requires k < |anchors|
    ensures Scan(tracked, anchors)[k] ==
            if anchors[k].id in tracked + Ids(anchors[..k]) then OnAnchorUpdated(anchors[k])
            else OnAnchorAdded(anchors[k])
    decreases |anchors|
  {
    var n := |anchors| - 1;
    if k < n {
      ScanAt(tracked, anchors[..n], k);
      assert anchors[..n][..k] == anchors[..k];
    }
  }

  /** Extending a scanned prefix by one entry adds that entry's id and its event. */
  lemma ScanExtend(tracked: set<string>, anchors: seq<Anchor>, i: nat)
    requires i < |anchors|
    ensures Ids(anchors[..i + 1]) == Ids(anchors[..i]) + {anchors[i].id}
    ensures Scan(tracked, anchors[..i + 1])
            == Scan(tracked, anchors[..i]) + [ScanEvent(tracked + Ids(anchors[..i]), anchors[i])]
  {
    assert anchors[..i + 1] == anchors[..i] + [anchors[i]];
    assert anchors[..i + 1][..i] == anchors[..i];
  }

  /** The set algebra of one scan step, for an entry with id `id` after the ids `seen`. */
  lemma ScanStepSets(before: set<string>, seen: set<string>, id: string)
    ensures id in before + seen ==>
              before + seen == before + (seen + {id}) && (before - seen) - {id} == before - (seen + {id})
    ensures id !in before + seen ==>
              (before + seen) + {id} == before + (seen + {id}) && before - seen == before - (seen + {id})
  {
  }

  /** The first entry of a snapshot that carries a given id. */
  lemma {:induction false} FirstEntryOf(anchors: seq<Anchor>, id: string) returns (k: nat)
    requires id in Ids(anchors)
    ensures k < |anchors| && anchors[k].id == id && id !in Ids(anchors[..k])
    decreases |anchors|
  {
    var n := |anchors| - 1;
    assert anchors == anchors[..n] + [anchors[n]];
    if id in Ids(anchors[..n]) {
      k := FirstEntryOf(anchors[..n], id);
      assert anchors[..n][..k] == anchors[..k];
    } else {
      k := n;
    }
  }

  /** Added fires only for ids that were not tracked before the pass. */
  lemma ScanAddsOnlyUntracked(tracked: set<string>, anchors: seq<Anchor>, k: nat)
    requires k < |anchors| && Scan(tracked, anchors)[k].OnAnchorAdded?
    ensures anchors[k].id !in tracked
  {
    ScanAt(tracked, anchors, k);
  }

  /** Every untracked id of the snapshot is reported Added, at its first entry. */
  lemma ScanAddsEveryNewId(tracked: set<string>, anchors: seq<Anchor>, id: string)
    requires id in Ids(anchors) && id !in tracked
    ensures exists k :: 0 <= k < |anchors| && anchors[k].id == id && Scan(tracked, anchors)[k] == OnAnchorAdded(anchors[k])
  {
    var k := FirstEntryOf(anchors, id);
    ScanAt(tracked, anchors, k);
  }

  /** A repeated id is reported Added at most once: later entries see it tracked. */
  lemma ScanAddsOncePerId(tracked: set<string>, anchors: seq<Anchor>, j: nat, k: nat)
    requires j < k < |anchors|
    requires Scan(tracked, anchors)[j].OnAnchorAdded? && Scan(tracked, anchors)[k].OnAnchorAdded?
    ensures anchors[j].id != anchors[k].id
  {
    ScanAt(tracked, anchors, k);
    InIds(anchors[..k], anchors[j].id);
    assert anchors[..k][j] == anchors[j];
  }

  /**
   * A snapshot whose ids are all tracked yields only Updated events; in
   * particular the second of two passes over the same snapshot does, and its
   * set of ids to remove, Ids(anchors) - Ids(anchors), is empty.
   */
  lemma RescanOnlyUpdates(tracked: set<string>, anchors: seq<Anchor>)
    requires Ids(anchors) <= tracked
    ensures forall k :: 0 <= k < |anchors| ==> Scan(tracked, anchors)[k] == OnAnchorUpdated(anchors[k])
  {
    forall k | 0 <= k < |anchors| ensures Scan(tracked, anchors)[k] == OnAnchorUpdated(anchors[k]) {
      ScanAt(tracked, anchors, k);
      InIds(anchors, anchors[k].id);
    }
  }

  /**
   * Idempotence of the reconcile pass: once the manager tracks exactly a
   * snapshot's ids, a pass over the same snapshot reports every entry as
   * Updated, in order, and removes nothing.
   */
  lemma SecondPassOnlyUpdates(anchors: seq<Anchor>, trace: seq<Event>)
    requires IsReconcileTrace(Ids(anchors), anchors, trace)
    ensures |trace| == |anchors|
    ensures forall k :: 0 <= k < |trace| ==> trace[k] == OnAnchorUpdated(anchors[k])
  {
    RescanOnlyUpdates(Ids(anchors), anchors);
    assert Ids(anchors) - Ids(anchors) == {};
    assert trace == trace[..|anchors|] + trace[|anchors|..];
  }

  /** One Removed event per id, in the given order. */
  function RemovedEvents(ids: seq<string>): seq<Event>
  {
    seq(|ids|, k requires 0 <= k < |ids| => OnAnchorRemoved(ids[k]))
  }

  /** Removing the ids of a repetition-free listing of a set reports that set's removal. */
  lemma RemovedEventsAreRemoval(order: seq<string>, ids: set<string>)
    requires forall k :: 0 <= k < |order| ==> order[k] in ids
    requires forall id :: id in ids ==> id in order
    requires forall j, k :: 0 <= j < k < |order| ==> order[j] != order[k]
    ensures IsRemovalOf(RemovedEvents(order), ids)
  {
    var es := RemovedEvents(order);
    forall id | id in ids ensures OnAnchorRemoved(id) in es {
      var k :| 0 <= k < |order| && order[k] == id;
      assert es[k] == OnAnchorRemoved(id);
    }
  }

  /** The pass's first loop: a copy of the tracked set, every id of which is presumed removed. */
  method CopyOf(ids: set<string>) returns (copy: set<string>)
    ensures copy == ids
  {
    copy := {};
    var rest := ids;
    while rest != {}
      invariant copy + rest == ids && copy !! rest
      decreases |rest|
    {
      var id :| id in rest;
      copy := copy + {id};
      rest := rest - {id};
    }
  }

  /** The worker's pose check: is there an anchor whose rotation is all zero? */
  method FindDegeneratePose(anchors: seq<Anchor>) returns (found: bool)
    ensures found <==> exists k :: 0 <= k < |anchors| && IsDegenerate(anchors[k].pose.rotation)
  {
    for i := 0 to |anchors|
      invariant forall k :: 0 <= k < i ==> !IsDegenerate(anchors[k].pose.rotation)
    {
      if IsDegenerate(anchors[i].pose.rotation) {
        return true;
      }
    }
    return false;
  }

  class AnchorManager {
    var trackedAnchorIds: set<string>
    var currentLocalization: LocalizationResult
    var searchNow: bool
    var lastTick: real
    var previousHeadTracking: HeadTrackingStatus
    var events: seq<Event>

    /** Localized into a space, so that anchors may be queried, created or removed. */
    predicate IsLocalized()
      reads this
    {
      currentLocalization.status == Localized
    }

    /** Start: nothing tracked yet, and the localization read when the update loop begins. */
    constructor (initial: LocalizationResult)
      ensures trackedAnchorIds == {} && currentLocalization == initial && events == []
      ensures !searchNow && lastTick == 0.0 && previousHeadTracking == Invalid
    {
      trackedAnchorIds := {};
      currentLocalization := initial;
      searchNow := false;
      lastTick := 0.0;
      previousHeadTracking := Invalid;
      events := [];
    }

    /** Bypass the search interval. */
    method SearchNow()
      modifies this`searchNow
      ensures searchNow
    {
      searchNow := true;
    }

    /** Unpausing the application requests an immediate search. */
    method OnApplicationPause(pauseStatus: bool)
      modifies this`searchNow
      ensures searchNow == (old(searchNow) || !pauseStatus)
    {
      if !pauseStatus {
        SearchNow();
      }
    }

    /**
     * A new localization result. Localizing for the first time or into another
     * space clears the tracked set (and reports the loss) before Localized is
     * reported; other results leave the tracked set alone. The result always
     * becomes current.
     */
    method OnLocalizationChanged(result: LocalizationResult)
      modifies this`trackedAnchorIds, this`events, this`currentLocalization
      ensures currentLocalization == result
      ensures IsLocalized() <==> result.status == Localized
      ensures var reset := result.status == Localized
                           && (old(currentLocalization).spaceName == "" || old(currentLocalization).spaceId != result.spaceId);
              && trackedAnchorIds == (if reset then {} else old(trackedAnchorIds))
              && events == old(events) + (if reset then [OnAnchorsLost] else [])
                                       + (if result.status == Localized then [OnLocalized(result)] else [])
    {
      if result.status == Localized {
        if currentLocalization.spaceName == "" || currentLocalization.spaceId != result.spaceId {
          ClearAnchors();
        }
        events := events + [OnLocalized(result)];
      }
      currentLocalization := result;
    }

    method ClearAnchors()
      modifies this`trackedAnchorIds, this`events
      ensures trackedAnchorIds == {}
      ensures events == old(events) + [OnAnchorsLost]
    {
      trackedAnchorIds := {};
      events := events + [OnAnchorsLost];
    }

    /**
     * The head-tracking check. While the head device is invalid nothing else
     * happens; when a state is read, an Invalid-to-Valid edge requests an
     * immediate search and the state is remembered.
     */
    method UpdateHeadPoseStatus(deviceValid: bool, state: Option<HeadTrackingStatus>)
      modifies this`searchNow, this`previousHeadTracking
      ensures previousHeadTracking == if deviceValid && state.Some? then state.value else old(previousHeadTracking)
      ensures searchNow == (old(searchNow)
                            || (deviceValid && state == Some(Valid) && old(previousHeadTracking) != Valid))
    {
      if !deviceValid {
        return;
      }
      if state.Some? {
        if previousHeadTracking != Valid && state.value == Valid {
          SearchNow();
        }
        previousHeadTracking := state.value;
      }
    }

    /**
     * One iteration of the update loop at time `now`. A query is scheduled
     * only when head tracking is valid and the device is localized; the
     * search request is then consumed and the tick recorded either way.
     */
    method UpdateStep(now: real, deviceValid: bool, state: Option<HeadTrackingStatus>) returns (scheduled: bool)
      modifies this`searchNow, this`previousHeadTracking, this`lastTick
      ensures previousHeadTracking == if deviceValid && state.Some? then state.value else old(previousHeadTracking)
      ensures scheduled <==> previousHeadTracking == Valid && IsLocalized()
      ensures !searchNow && lastTick == now
    {
      UpdateHeadPoseStatus(deviceValid, state);
      scheduled := previousHeadTracking == Valid && currentLocalization.status == Localized;
      searchNow := false;
      lastTick := now;
    }

    /**
     * The worker's handling of a query result: a snapshot holding an anchor
     * whose rotation is all zero is dropped, any other is reconciled.
     */
    method UpdateAnchorsOnWorkerThread(snapshot: seq<Anchor>) returns (dispatched: bool)
      modifies this`trackedAnchorIds, this`events
      ensures dispatched <==> forall k :: 0 <= k < |snapshot| ==> !IsDegenerate(snapshot[k].pose.rotation)
      ensures !dispatched ==> trackedAnchorIds == old(trackedAnchorIds) && events == old(events)
      ensures dispatched ==> trackedAnchorIds == Ids(snapshot)
      ensures dispatched ==> |old(events)| <= |events| && events[..|old(events)|] == old(events)
                             && IsReconcileTrace(old(trackedAnchorIds), snapshot, events[|old(events)|..])
    {
      var invalid := FindDegeneratePose(snapshot);
      if invalid {
        return false;
      }
      UpdateAnchorsOnMainThread(snapshot);
      return true;
    }

    /**
     * The reconcile pass: Added or Updated per snapshot entry, then Removed
     * for every previously tracked id the snapshot lacks; afterwards exactly
     * the snapshot's ids are tracked.
     */
    method UpdateAnchorsOnMainThread(anchors: seq<Anchor>)
      modifies this`trackedAnchorIds, this`events
      ensures trackedAnchorIds == Ids(anchors)
      ensures |old(events)| <= |events| && events[..|old(events)|] == old(events)
      ensures IsReconcileTrace(old(trackedAnchorIds), anchors, events[|old(events)|..])
    {
      // Presume every tracked id removed.
      var anchorsToRemove := CopyOf(trackedAnchorIds);
      ghost var before := trackedAnchorIds;
      ghost var start := events;
      anchorsToRemove := ReportPresent(anchors, anchorsToRemove);
      // Whatever the snapshot did not contain is reported removed.
      ghost var order := ReportRemoved(anchorsToRemove);
      SeenMinusUnseen(before, Ids(anchors));
      PassTrace(before, anchors, start, order, events);
    }

    /**
     * The first loop of the pass: each snapshot entry is reported Updated when
     * its id is tracked, and then no longer presumed removed, or else Added
     * and tracked from then on.
     */
    method ReportPresent(anchors: seq<Anchor>, anchorsToRemove: set<string>) returns (remaining: set<string>)
      requires anchorsToRemove == trackedAnchorIds
      modifies this`trackedAnchorIds, this`events
      ensures trackedAnchorIds == old(trackedAnchorIds) + Ids(anchors)
      ensures remaining == old(trackedAnchorIds) - Ids(anchors)
      ensures events == old(events) + Scan(old(trackedAnchorIds), anchors)
    {
      ghost var before := trackedAnchorIds;
      ghost var start := events;
      remaining := anchorsToRemove;
      assert Ids(anchors[..0]) == {};
      for i := 0 to |anchors|
        invariant trackedAnchorIds == before + Ids(anchors[..i])
        invariant remaining == before - Ids(anchors[..i])
        invariant events == start + Scan(before, anchors[..i])
      {
        var anchor := anchors[i];
        ScanExtend(before, anchors, i);
        ScanStepSets(before, Ids(anchors[..i]), anchor.id);
        if anchor.id in trackedAnchorIds {
          events := events + [OnAnchorUpdated(anchor)];
          remaining := remaining - {anchor.id};
        } else {
          events := events + [OnAnchorAdded(anchor)];
          trackedAnchorIds := trackedAnchorIds + {anchor.id};
        }
      }
      assert anchors[..|anchors|] == anchors;
    }

    /** The last loop of the pass: each presumed-removed id stops being tracked and is reported removed. */
    method ReportRemoved(anchorsToRemove: set<string>) returns (ghost order: seq<string>)
      modifies this`trackedAnchorIds, this`events
      ensures trackedAnchorIds == old(trackedAnchorIds) - anchorsToRemove
      ensures events == old(events) + RemovedEvents(order)
      ensures IsRemovalOf(RemovedEvents(order), anchorsToRemove)
    {
      ghost var start := events;
      ghost var keep := trackedAnchorIds - anchorsToRemove;
      order := [];
      var pending := anchorsToRemove;
      while pending != {}
        invariant pending <= anchorsToRemove
        invariant trackedAnchorIds == keep + (old(trackedAnchorIds) * pending)
        invariant events == start + RemovedEvents(order)
        invariant forall k :: 0 <= k < |order| ==> order[k] in anchorsToRemove && order[k] !in pending
        invariant forall id :: id in anchorsToRemove && id !in pending ==> id in order
        invariant forall j, k :: 0 <= j < k < |order| ==> order[j] != order[k]
        decreases |pending|
      {
        var removedId :| removedId in pending;
        trackedAnchorIds := trackedAnchorIds - {removedId};
        events := events + [OnAnchorRemoved(removedId)];
        assert RemovedEvents(order + [removedId]) == RemovedEvents(order) + [OnAnchorRemoved(removedId)];
        order := order + [removedId];
        pending := pending - {removedId};
      }
      RemovedEventsAreRemoval(order, anchorsToRemove);
    }

    /**
     * Deleting an anchor. When the SDK delete succeeds the id stops being
     * tracked and one Removed event fires, whether or not it was tracked;
     * when it fails nothing changes.
     */
    method TryRemoveAnchor(id: string, deleteOk: bool) returns (ok: bool)
      modifies this`trackedAnchorIds, this`events
      ensures ok == deleteOk
      ensures trackedAnchorIds == if deleteOk then old(trackedAnchorIds) - {id} else old(trackedAnchorIds)
      ensures events == old(events) + (if deleteOk then [OnAnchorRemoved(id)] else [])
    {
      if deleteOk {
        if id in trackedAnchorIds {
          trackedAnchorIds := trackedAnchorIds - {id};
        }
        events := events + [OnAnchorRemoved(id)];
        return true;
      }
      return false;
    }
  }
}
