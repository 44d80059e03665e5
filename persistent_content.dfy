/**
 * The persistent-content scene: it listens to the anchor manager's events
 * to keep one object per bound anchor, and lets the user create (Trigger,
 * Menu) and delete (Bumper) anchor-bound objects.
 */
module PersistentContent {
  import opened Wrappers
  import opened Spatial
  import opened Bindings
  import opened Content
  import opened AnchorReconciler

  /** The scene's state: the objects by anchor id and the saved bindings. */
  datatype Scene = Scene(objects: map<string, Visual>, bindings: seq<Binding>)

  /** Moving an anchor moves its object, if there is one; no key is added or removed. */
  function Repositioned(objects: map<string, Visual>, anchor: Anchor): (r: map<string, Visual>)
    ensures r.Keys == objects.Keys
    ensures forall id :: id in objects && id != anchor.id ==> r[id] == objects[id]
    ensures anchor.id in objects ==> r[anchor.id].prefab == objects[anchor.id].prefab && r[anchor.id].pose == anchor.pose
  {
    if anchor.id in objects then objects[anchor.id := Visual(objects[anchor.id].prefab, anchor.pose)] else objects
  }

  /**
   * Removing an anchor's binding: only when one is saved, its object (if
   * any) goes and the id is unbound; otherwise the scene is untouched, even
   * when an object carries the id.
   */
  function Unbound(s: Scene, id: string): (r: Scene)
    ensures Find(s.bindings, id).None? ==> r == s
    ensures Find(s.bindings, id).Some? ==> r.objects == s.objects - {id}
    ensures Find(r.bindings, id).None?
    ensures forall other :: other != id ==> Find(r.bindings, other) == Find(s.bindings, other)
  {
    FindAfterRemove(s.bindings, id, id);
    forall other | other != id ensures Find(WithoutId(s.bindings, id), other) == Find(s.bindings, other) {
      FindAfterRemove(s.bindings, id, other);
    }
    if Find(s.bindings, id).Some? then Scene(s.objects - {id}, WithoutId(s.bindings, id)) else s
  }

  /** When every object is bound, unbinding an id removes exactly that id's object. */
  lemma UnboundStaysBound(s: Scene, id: string)
    requires VisualsBound(s.objects, s.bindings)
    ensures VisualsBound(Unbound(s, id).objects, Unbound(s, id).bindings)
    ensures Unbound(s, id).objects.Keys == s.objects.Keys - {id}
  {
    UnbindStaysBound(s.objects, s.bindings, id);
  }

  /**
   * The listeners the scene registers on the manager: AnchorsLost clears the
   * objects, Added restores, Updated moves and Removed unbinds; Localized has
   * no listener.
   */
  function Apply(s: Scene, e: Event, prefab1Name: string): Scene
  {
    match e
    case OnLocalized(_) => s
    case OnAnchorsLost => Scene(map[], s.bindings)
    case OnAnchorAdded(anchor) => Scene(RestoreOne(s.objects, s.bindings, anchor, prefab1Name), s.bindings)
    case OnAnchorUpdated(anchor) => Scene(Repositioned(s.objects, anchor), s.bindings)
    case OnAnchorRemoved(id) => Unbound(s, id)
  }

  /** The scene after its listeners have seen `es`, in order. */
  function ApplyAll(s: Scene, es: seq<Event>, prefab1Name: string): Scene
    decreases |es|
  {
    if es == [] then s else Apply(ApplyAll(s, es[..|es| - 1], prefab1Name), es[|es| - 1], prefab1Name)
  }

  lemma {:induction false} ApplyAllAppend(s: Scene, a: seq<Event>, b: seq<Event>, prefab1Name: string)
    ensures ApplyAll(s, a + b, prefab1Name) == ApplyAll(ApplyAll(s, a, prefab1Name), b, prefab1Name)
    decreases |b|
  {
    if b == [] {
      assert a + b == a;
    } else {
      var n := |b| - 1;
      assert (a + b)[..|a + b| - 1] == a + b[..n];
      ApplyAllAppend(s, a, b[..n], prefab1Name);
    }
  }

  /**
   * The Added/Updated part of a reconcile pass keeps the bindings and adds an
   * object for exactly the bound snapshot ids that were not tracked.
   */
  lemma {:induction false} ApplyScan(s: Scene, tracked: set<string>, anchors: seq<Anchor>, prefab1Name: string)
    ensures ApplyAll(s, Scan(tracked, anchors), prefab1Name).bindings == s.bindings
    ensures forall id :: id in ApplyAll(s, Scan(tracked, anchors), prefab1Name).objects <==>
              id in s.objects || (id in Ids(anchors) && id !in tracked && Find(s.bindings, id).Some?)
    decreases |anchors|
  {
    if anchors != [] {
      var n := |anchors| - 1;
      var prefix := anchors[..n];
      ApplyScan(s, tracked, prefix, prefab1Name);
      ScanExtend(tracked, anchors, n);
      assert anchors[..n + 1] == anchors;
      var scan := Scan(tracked, anchors);
      assert scan[..|scan| - 1] == Scan(tracked, prefix);
    }
  }

  /**
   * A run of Removed events, over a scene whose objects are all bound,
   * removes exactly the objects of the ids it names, deletes the saved
   * bindings of those ids and of no other, and keeps the rest bound.
   */
  lemma {:induction false} ApplyRemovals(s: Scene, es: seq<Event>, prefab1Name: string)
    requires VisualsBound(s.objects, s.bindings)
    requires forall k :: 0 <= k < |es| ==> es[k].OnAnchorRemoved?
    ensures VisualsBound(ApplyAll(s, es, prefab1Name).objects, ApplyAll(s, es, prefab1Name).bindings)
    ensures forall id :: id in ApplyAll(s, es, prefab1Name).objects <==> id in s.objects && OnAnchorRemoved(id) !in es
    ensures forall id :: Find(ApplyAll(s, es, prefab1Name).bindings, id) ==
              if OnAnchorRemoved(id) in es then None else Find(s.bindings, id)
    decreases |es|
  {
    if es != [] {
      var n := |es| - 1;
      ApplyRemovals(s, es[..n], prefab1Name);
      var mid := ApplyAll(s, es[..n], prefab1Name);
      UnboundStaysBound(mid, es[n].id);
      assert es == es[..n] + [es[n]];
      assert es[n] == OnAnchorRemoved(es[n].id);
    }
  }

  /**
   * The scene follows the reconciler: after its listeners have seen a whole
   * reconcile pass, it holds the objects it had plus one for every bound,
   * newly tracked snapshot id, minus those of the tracked ids the snapshot
   * lost — and every object is still bound. The saved bindings of those lost
   * ids are deleted too, so a single query that misses a tracked anchor
   * loses its content for good; every other id's binding is untouched.
   */
  lemma ReconcileContent(s: Scene, tracked: set<string>, anchors: seq<Anchor>, trace: seq<Event>, prefab1Name: string)
    requires VisualsBound(s.objects, s.bindings)
    requires IsReconcileTrace(tracked, anchors, trace)
    ensures VisualsBound(ApplyAll(s, trace, prefab1Name).objects, ApplyAll(s, trace, prefab1Name).bindings)
    ensures forall id :: id in ApplyAll(s, trace, prefab1Name).objects <==>
              && (id in s.objects || (id in Ids(anchors) && id !in tracked && Find(s.bindings, id).Some?))
              && !(id in tracked && id !in Ids(anchors))
    ensures forall id :: Find(ApplyAll(s, trace, prefab1Name).bindings, id) ==
              if id in tracked && id !in Ids(anchors) then None else Find(s.bindings, id)
  {
    var n := |anchors|;
    var removals := trace[n..];
    assert trace == trace[..n] + removals;
    ApplyAllAppend(s, trace[..n], removals, prefab1Name);
    ApplyScan(s, tracked, anchors, prefab1Name);
    var mid := ApplyAll(s, trace[..n], prefab1Name);
    ApplyRemovals(mid, removals, prefab1Name);
    forall id ensures OnAnchorRemoved(id) in removals <==> id in tracked && id !in Ids(anchors) {
      if OnAnchorRemoved(id) in removals {
        var k :| 0 <= k < |removals| && removals[k] == OnAnchorRemoved(id);
        assert removals[k].id in tracked - Ids(anchors);
      }
    }
  }

  /** Reconciling a snapshot that is already tracked changes no object's presence. */
  lemma RescanKeepsContent(s: Scene, anchors: seq<Anchor>, trace: seq<Event>, prefab1Name: string)
    requires VisualsBound(s.objects, s.bindings)
    requires IsReconcileTrace(Ids(anchors), anchors, trace)
    ensures ApplyAll(s, trace, prefab1Name).objects.Keys == s.objects.Keys
  {
    ReconcileContent(s, Ids(anchors), anchors, trace, prefab1Name);
  }

  /**
   * A query that misses a tracked anchor: the pass reports it Removed, and the
   * scene loses both its object and its saved binding.
   */
  lemma MissedAnchorLosesBinding(v: Visual, payload: string, prefab1Name: string)
    ensures IsReconcileTrace({"a1"}, [], [OnAnchorRemoved("a1")])
    ensures ApplyAll(Scene(map["a1" := v], [Binding("a1", payload)]), [OnAnchorRemoved("a1")], prefab1Name)
            == Scene(map[], [])
  {
    var s := Scene(map["a1" := v], [Binding("a1", payload)]);
    assert [OnAnchorRemoved("a1")][..0] == [];
    assert Unbound(s, "a1") == Scene(map[], []);
  }

  class PersistentContentExample {
    const prefab1Name: string
    const prefab2Name: string
    const anchorManager: AnchorManager

    var objects: map<string, Visual>
    /** The saved bindings of this scene's store. */
    var bindings: seq<Binding>

    ghost predicate Valid()
      reads this
    {
      VisualsBound(objects, bindings)
    }

    /** Start: the bindings are loaded from storage and the listeners are wired to `anchorManager`. */
    constructor (prefab1Name: string, prefab2Name: string, anchorManager: AnchorManager, saved: seq<Binding>)
      ensures Valid()
      ensures this.prefab1Name == prefab1Name && this.prefab2Name == prefab2Name && this.anchorManager == anchorManager
      ensures objects == map[] && bindings == saved
    {
      this.prefab1Name := prefab1Name;
      this.prefab2Name := prefab2Name;
      this.anchorManager := anchorManager;
      objects := map[];
      bindings := saved;
    }

    method ClearVisuals()
      modifies this`objects
      ensures objects == map[]
    {
      objects := map[];
    }

    /** An added anchor gets an object only when a binding is saved and it has none yet. */
    method RestoreAnchor(anchor: Anchor)
      requires Valid()
      modifies this`objects
      ensures Valid()
      ensures objects == RestoreOne(old(objects), bindings, anchor, prefab1Name)
    {
      var saved := Find(bindings, anchor.id);
      if saved.Some? && anchor.id !in objects {
        objects := objects[anchor.id := Visual(PrefabFor(saved.value.payload, prefab1Name), anchor.pose)];
      }
    }

    method RemoveAnchorBinding(anchorId: string)
      requires Valid()
      modifies this`objects, this`bindings
      ensures Valid()
      ensures Scene(objects, bindings) == Unbound(old(Scene(objects, bindings)), anchorId)
      ensures objects.Keys == old(objects.Keys) - {anchorId}
    {
      UnboundStaysBound(Scene(objects, bindings), anchorId);
      var saved := Find(bindings, anchorId);
      if saved.Some? {
        // the object, if any, is destroyed and its key removed; then the id is unbound
        objects := objects - {anchorId};
        bindings := WithoutId(bindings, anchorId);
      }
    }

    method UpdateAnchorPosition(anchor: Anchor)
      requires Valid()
      modifies this`objects
      ensures Valid()
      ensures objects == Repositioned(old(objects), anchor)
    {
      if anchor.id in objects {
        objects := objects[anchor.id := Visual(objects[anchor.id].prefab, anchor.pose)];
      }
    }

    /** One event of the manager, delivered to the listener registered for it. */
    method HandleEvent(e: Event)
      requires Valid()
      modifies this`objects, this`bindings
      ensures Valid()
      ensures Scene(objects, bindings) == Apply(old(Scene(objects, bindings)), e, prefab1Name)
    {
      match e
      case OnLocalized(_) =>
      case OnAnchorsLost => ClearVisuals();
      case OnAnchorAdded(anchor) => RestoreAnchor(anchor);
      case OnAnchorUpdated(anchor) => UpdateAnchorPosition(anchor);
      case OnAnchorRemoved(id) => RemoveAnchorBinding(id);
    }

    /**
     * Menu: a created anchor is bound to Prefab2 (the binding is appended),
     * and a Prefab2 object is placed only when the store is written to file.
     * Adding a key that is already present throws, so then no object is placed.
     */
    method MenuStarted(controllerPose: Pose, createOk: bool, anchorId: string, saveOk: bool) returns (inserted: bool)
      requires Valid()
      modifies this`objects, this`bindings
      ensures Valid()
      ensures bindings == old(bindings) + (if createOk then [Binding(anchorId, prefab2Name)] else [])
      ensures inserted <==> createOk && saveOk && anchorId !in old(objects)
      ensures objects == if createOk && saveOk then Placed(old(objects), anchorId, Visual(Prefab2, controllerPose)) else old(objects)
    {
      inserted := false;
      if createOk {
        SaveStaysBound(objects, bindings, Binding(anchorId, prefab2Name));
        bindings := bindings + [Binding(anchorId, prefab2Name)];
        if saveOk {
          inserted := anchorId !in objects;
          objects := Placed(objects, anchorId, Visual(Prefab2, controllerPose));
        }
      }
    }

    /**
     * Trigger: nothing while the pointer is over the UI; otherwise a created
     * anchor is bound to Prefab1, and a Prefab1 object is placed only when
     * the binding reports success.
     */
    method TriggerStarted(pointerOverUI: bool, controllerPose: Pose, createOk: bool, anchorId: string, bindOk: bool)
      returns (inserted: bool)
      requires Valid()
      modifies this`objects, this`bindings
      ensures Valid()
      ensures bindings == old(bindings) + (if !pointerOverUI && createOk then [Binding(anchorId, prefab1Name)] else [])
      ensures inserted <==> !pointerOverUI && createOk && bindOk && anchorId !in old(objects)
      ensures objects == if !pointerOverUI && createOk && bindOk then Placed(old(objects), anchorId, Visual(Prefab1, controllerPose))
                         else old(objects)
    {
      inserted := false;
      if pointerOverUI {
        return;
      }
      if createOk {
        SaveStaysBound(objects, bindings, Binding(anchorId, prefab1Name));
        bindings := bindings + [Binding(anchorId, prefab1Name)];
        if bindOk {
          inserted := anchorId !in objects;
          objects := Placed(objects, anchorId, Visual(Prefab1, controllerPose));
        }
      }
    }

    /**
     * Bumper: with no objects nothing happens. Otherwise one object is chosen
     * (the closest one to the controller) and the manager is asked to delete
     * its anchor; when the delete succeeds, the manager's Removed event reaches
     * this scene's listener, so the object is gone and its id unbound, and the
     * manager no longer tracks it. A failed delete changes nothing here.
     */
    method BumperStarted(deleteOk: bool) returns (chosen: Option<string>)
      requires Valid()
      modifies this`objects, this`bindings, anchorManager`trackedAnchorIds, anchorManager`events
      ensures Valid()
      ensures chosen.None? <==> old(objects) == map[]
      ensures chosen.Some? ==> chosen.value in old(objects)
      ensures chosen.Some? && deleteOk ==>
                && objects == old(objects) - {chosen.value}
                && bindings == WithoutId(old(bindings), chosen.value)
                && anchorManager.trackedAnchorIds == old(anchorManager.trackedAnchorIds) - {chosen.value}
                && anchorManager.events == old(anchorManager.events) + [OnAnchorRemoved(chosen.value)]
      ensures chosen.None? || !deleteOk ==>
                && objects == old(objects) && bindings == old(bindings)
                && anchorManager.trackedAnchorIds == old(anchorManager.trackedAnchorIds)
                && anchorManager.events == old(anchorManager.events)
    {
      if objects == map[] {
        return None;
      }
      var key :| key in objects;
      var ok := anchorManager.TryRemoveAnchor(key, deleteOk);
      if ok {
        AnchorDeleted(key);
      }
      return Some(key);
    }

    /**
     * What follows a successful delete of a displayed anchor: the manager's
     * Removed event reaches the listener, which removes the object and unbinds
     * the id; the Bumper's own removal of the key and of a binding still
     * found then have nothing left to do.
     */
    method AnchorDeleted(key: string)
      requires Valid() && key in objects
      modifies this`objects, this`bindings
      ensures Valid()
      ensures objects == old(objects) - {key} && bindings == WithoutId(old(bindings), key)
    {
      RemoveAnchorBinding(key);
      assert objects - {key} == objects && Find(bindings, key).None?;
      objects := objects - {key};
      bindings := if Find(bindings, key).Some? then WithoutId(bindings, key) else bindings;
    }
  }
}
