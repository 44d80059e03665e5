/**
 * The spatial-anchors scene: it polls the anchor SDK's localization at an
 * interval, keeps the objects instantiated for saved anchors of the current
 * space, and lets the user create (Trigger, Menu) and delete (Bumper)
 * anchor-bound objects.
 */
module SpatialAnchors {
  import opened Wrappers
  import opened Spatial
  import opened Bindings
  import opened Content

  /** The anchor SDK's localization info: a status and the id of the space. */
  datatype LocalizationInfo = LocalizationInfo(status: LocalizationStatus, spaceId: string)

  /** What an anchor query gives back: its start failed, its fetch failed, or a result. */
  datatype QueryOutcome = StartFailed | FetchFailed | Fetched(anchors: seq<Anchor>)

  class SpatialAnchorsExample {
    const prefab1Name: string
    const prefab2Name: string
    /** Seconds between two localization checks. */
    const searchInterval: real

    var objects: map<string, Visual>
    /** The id of the space localized into; None before the first check (null in the source). */
    var localizedSpace: Option<string>
    var searchNow: bool
    var lastTick: real
    var numberOfSearches: nat
    /** The saved bindings of this scene's store. */
    var bindings: seq<Binding>

    ghost predicate Valid()
      reads this
    {
      VisualsBound(objects, bindings)
    }

    /** Start: the bindings are loaded from storage and nothing is instantiated yet. */
    constructor (prefab1Name: string, prefab2Name: string, searchInterval: real, saved: seq<Binding>)
      ensures Valid()
      ensures this.prefab1Name == prefab1Name && this.prefab2Name == prefab2Name && this.searchInterval == searchInterval
      ensures objects == map[] && localizedSpace == None && !searchNow && lastTick == 0.0
      ensures numberOfSearches == 0 && bindings == saved
    {
      this.prefab1Name := prefab1Name;
      this.prefab2Name := prefab2Name;
      this.searchInterval := searchInterval;
      objects := map[];
      localizedSpace := None;
      searchNow := false;
      lastTick := 0.0;
      numberOfSearches := 0;
      bindings := saved;
    }

    /** Bypass the search interval. Nothing in this scene ever clears the request again. */
    method SearchNow()
      modifies this`searchNow
      ensures searchNow
    {
      searchNow := true;
    }

    method OnApplicationPause(pauseStatus: bool)
      modifies this`searchNow
      ensures searchNow == (old(searchNow) || !pauseStatus)
    {
      if !pauseStatus {
        SearchNow();
      }
    }

    method ClearVisuals()
      modifies this`objects
      ensures objects == map[]
    {
      objects := map[];
    }

    /**
     * One frame at time `now`. Unless a search is requested or the interval
     * has elapsed nothing changes. Otherwise the tick is recorded and, when
     * the localization info is available: a new space clears the objects
     * and the search count and is recorded, and a search follows whenever
     * the device is localized; not being localized clears the objects, the
     * space and the count.
     */
    method Update(now: real, info: Option<LocalizationInfo>, query: QueryOutcome)
      requires Valid()
      modifies this`objects, this`localizedSpace, this`numberOfSearches, this`lastTick
      ensures Valid()
      ensures var gated := !old(searchNow) && now - old(lastTick) < searchInterval;
              && (gated ==> objects == old(objects) && localizedSpace == old(localizedSpace)
                            && numberOfSearches == old(numberOfSearches) && lastTick == old(lastTick))
              && (!gated ==> lastTick == now)
              && (!gated && info.None? ==>
                    objects == old(objects) && localizedSpace == old(localizedSpace)
                    && numberOfSearches == old(numberOfSearches))
              && (!gated && info.Some? && info.value.status == Localized ==>
                    var newSpace := old(localizedSpace) != Some(info.value.spaceId);
                    var kept := if newSpace then map[] else old(objects);
                    && localizedSpace == Some(info.value.spaceId)
                    && numberOfSearches == (if newSpace then 0 else old(numberOfSearches)) + 1
                    && objects == SearchResult(kept, query))
              && (!gated && info.Some? && info.value.status != Localized ==>
                    objects == map[] && localizedSpace == Some("") && numberOfSearches == 0)
    {
      if !searchNow && now - lastTick < searchInterval {
        return;
      }
      lastTick := now;
      if info.None? {
        return;
      }
      if info.value.status == Localized {
        if localizedSpace != Some(info.value.spaceId) {
          ClearVisuals();
          numberOfSearches := 0;
          localizedSpace := Some(info.value.spaceId);
        }
        var _ := SearchSpatialAnchors(query);
      } else {
        ClearVisuals();
        localizedSpace := Some("");
        numberOfSearches := 0;
      }
    }

    /** The objects after a search starting from `objects`: restored from a fetched result only. */
    ghost function SearchResult(objects: map<string, Visual>, query: QueryOutcome): map<string, Visual>
      reads this
    {
      if query.Fetched? then Restored(objects, bindings, query.anchors, prefab1Name) else objects
    }

    /**
     * A search: counted even when it fails; it succeeds exactly when the
     * query result is fetched, and only then are bound anchors restored.
     */
    method SearchSpatialAnchors(query: QueryOutcome) returns (ok: bool)
      requires Valid()
      modifies this`objects, this`numberOfSearches
      ensures Valid()
      ensures numberOfSearches == old(numberOfSearches) + 1
      ensures ok <==> query.Fetched?
      ensures objects == SearchResult(old(objects), query)
    {
      numberOfSearches := numberOfSearches + 1;
      if !query.Fetched? {
        return false;
      }
      var anchors := query.anchors;
      for i := 0 to |anchors|
        invariant numberOfSearches == old(numberOfSearches) + 1
        invariant objects == Restored(old(objects), bindings, anchors[..i], prefab1Name)
      {
        var anchor := anchors[i];
        assert anchors[..i + 1][..i] == anchors[..i];
        var saved := Find(bindings, anchor.id);
        if saved.Some? && anchor.id !in objects {
          objects := objects[anchor.id := Visual(PrefabFor(saved.value.payload, prefab1Name), anchor.pose)];
        }
      }
      assert anchors[..|anchors|] == anchors;
      RestoredStaysBound(old(objects), bindings, anchors, prefab1Name);
      return true;
    }

    /**
     * Menu: a published anchor is bound to Prefab2 (the binding is appended)
     * and a Prefab2 object is placed at the controller. Adding a key that is
     * already present throws, so then no object is placed.
     */
    method MenuStarted(controllerPose: Pose, anchorId: string, publishOk: bool) returns (inserted: bool)
      requires Valid()
      modifies this`objects, this`bindings
      ensures Valid()
      ensures bindings == old(bindings) + (if publishOk then [Binding(anchorId, prefab2Name)] else [])
      ensures inserted <==> publishOk && anchorId !in old(objects)
      ensures objects == if publishOk then Placed(old(objects), anchorId, Visual(Prefab2, controllerPose)) else old(objects)
    {
      inserted := false;
      if publishOk {
        SaveStaysBound(objects, bindings, Binding(anchorId, prefab2Name));
        bindings := bindings + [Binding(anchorId, prefab2Name)];
        inserted := anchorId !in objects;
        objects := Placed(objects, anchorId, Visual(Prefab2, controllerPose));
      }
    }

    /** Trigger: as Menu, with Prefab1. */
    method TriggerStarted(controllerPose: Pose, anchorId: string, publishOk: bool) returns (inserted: bool)
      requires Valid()
      modifies this`objects, this`bindings
      ensures Valid()
      ensures bindings == old(bindings) + (if publishOk then [Binding(anchorId, prefab1Name)] else [])
      ensures inserted <==> publishOk && anchorId !in old(objects)
      ensures objects == if publishOk then Placed(old(objects), anchorId, Visual(Prefab1, controllerPose)) else old(objects)
    {
      inserted := false;
      if publishOk {
        SaveStaysBound(objects, bindings, Binding(anchorId, prefab1Name));
        bindings := bindings + [Binding(anchorId, prefab1Name)];
        inserted := anchorId !in objects;
        objects := Placed(objects, anchorId, Visual(Prefab1, controllerPose));
      }
    }

    /**
     * Deleting an anchor: succeeds exactly when a binding for the id is saved,
     * and then removes its object (if any) and unbinds it; otherwise nothing
     * changes.
     */
    method RemoveAnchor(id: string) returns (ok: bool)
      requires Valid()
      modifies this`objects, this`bindings
      ensures Valid()
      ensures ok <==> Find(old(bindings), id).Some?
      ensures ok ==> objects == old(objects) - {id} && bindings == WithoutId(old(bindings), id)
      ensures !ok ==> objects == old(objects) && bindings == old(bindings)
    {
      var saved := Find(bindings, id);
      if saved.None? {
        return false;
      }
      UnbindStaysBound(objects, bindings, id);
      // the object, if any, is destroyed and its key removed; then the id is unbound
      objects := objects - {id};
      bindings := WithoutId(bindings, id);
      return true;
    }

    /**
     * Bumper: over a fetched query result, in order, the first anchor whose
     * removal succeeds (the first with a saved binding) is removed, and no
     * other; a failed query or a result without bound anchors changes nothing.
     */
    method BumperStarted(query: QueryOutcome) returns (removed: Option<string>)
      requires Valid()
      modifies this`objects, this`bindings
      ensures Valid()
      ensures removed.None? ==> objects == old(objects) && bindings == old(bindings)
      ensures removed.None? && query.Fetched? ==>
                forall j :: 0 <= j < |query.anchors| ==> Find(old(bindings), query.anchors[j].id).None?
      ensures removed.Some? ==>
                && query.Fetched?
                && Find(old(bindings), removed.value).Some?
                && (exists k :: 0 <= k < |query.anchors| && query.anchors[k].id == removed.value
                                && forall j :: 0 <= j < k ==> Find(old(bindings), query.anchors[j].id).None?)
                && objects == old(objects) - {removed.value}
                && bindings == WithoutId(old(bindings), removed.value)
    {
      if !query.Fetched? {
        return None;
      }
      var anchors := query.anchors;
      for i := 0 to |anchors|
        invariant objects == old(objects) && bindings == old(bindings)
        invariant forall j :: 0 <= j < i ==> Find(bindings, anchors[j].id).None?
      {
        var ok := RemoveAnchor(anchors[i].id);
        if ok {
          return Some(anchors[i].id);
        }
      }
      return None;
    }
  }
}
