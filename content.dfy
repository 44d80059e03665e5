/**
 * The content maps of the two example scenes: the objects instantiated for
 * anchors, keyed by anchor id. A Dafny map cannot hold a key twice, so the
 * source's "no duplicate entries" shows up as: an entry is only ever added
 * for an id that is absent.
 */
module Content {
  import opened Wrappers
  import opened Spatial
  import opened Bindings

  datatype Prefab = Prefab1 | Prefab2

  /** An instantiated object: which prefab it is an instance of, and where it stands. */
  datatype Visual = Visual(prefab: Prefab, pose: Pose)

  /** A saved payload selects Prefab1 when it is Prefab1's name and Prefab2 otherwise. */
  function PrefabFor(payload: string, prefab1Name: string): Prefab
  {
    if payload == prefab1Name then Prefab1 else Prefab2
  }

  /**
   * Restoring one queried anchor: an object is instantiated at the anchor's
   * pose when a binding for its id is saved and no object exists for it yet.
   */
  function RestoreOne(objects: map<string, Visual>, bindings: seq<Binding>, anchor: Anchor, prefab1Name: string)
    : (r: map<string, Visual>)
    ensures r.Keys == objects.Keys + (if Find(bindings, anchor.id).Some? then {anchor.id} else {})
    ensures forall id :: id in objects ==> r[id] == objects[id]
    ensures anchor.id in r && anchor.id !in objects ==>
              r[anchor.id].pose == anchor.pose
              && (r[anchor.id].prefab == Prefab1 <==> Find(bindings, anchor.id).value.payload == prefab1Name)
  {
    match Find(bindings, anchor.id)
    case None => objects
    case Some(saved) =>
      if anchor.id in objects then objects
      else objects[anchor.id := Visual(PrefabFor(saved.payload, prefab1Name), anchor.pose)]
  }

  /** Restoring every anchor of a query result, in order. */
  function Restored(objects: map<string, Visual>, bindings: seq<Binding>, anchors: seq<Anchor>, prefab1Name: string)
    : map<string, Visual>
    decreases |anchors|
  {
    if anchors == [] then objects
    else
      var n := |anchors| - 1;
      RestoreOne(Restored(objects, bindings, anchors[..n], prefab1Name), bindings, anchors[n], prefab1Name)
  }

  /** The ids among a query result that have a saved binding. */
  ghost function BoundIds(bindings: seq<Binding>, anchors: seq<Anchor>): set<string>
  {
    set a | a in anchors && Find(bindings, a.id).Some? :: a.id
  }

  /** Every object on display belongs to an anchor with a saved binding. */
  ghost predicate VisualsBound(objects: map<string, Visual>, bindings: seq<Binding>)
  {
    forall id :: id in objects ==> Find(bindings, id).Some?
  }

  /**
   * The restore loop adds exactly the bound ids of the query result that were
   * absent, and leaves every existing entry as it was.
   */
  lemma {:induction false} RestoredKeys(objects: map<string, Visual>, bindings: seq<Binding>, anchors: seq<Anchor>, prefab1Name: string)
    ensures Restored(objects, bindings, anchors, prefab1Name).Keys == objects.Keys + BoundIds(bindings, anchors)
    ensures forall id :: id in objects ==> Restored(objects, bindings, anchors, prefab1Name)[id] == objects[id]
  {
    if anchors != [] {
      var n := |anchors| - 1;
      RestoredKeys(objects, bindings, anchors[..n], prefab1Name);
      assert anchors == anchors[..n] + [anchors[n]];
      assert BoundIds(bindings, anchors) ==
             BoundIds(bindings, anchors[..n]) + (if Find(bindings, anchors[n].id).Some? then {anchors[n].id} else {});
    }
  }

  /**
   * A newly restored object stands at the pose of the FIRST anchor in the
   * result with its id (later duplicates are skipped), and is Prefab1 exactly
   * when its saved payload is Prefab1's name.
   */
  lemma {:induction false} RestoredEntry(objects: map<string, Visual>, bindings: seq<Binding>, anchors: seq<Anchor>, prefab1Name: string, id: string)
    requires id in Restored(objects, bindings, anchors, prefab1Name) && id !in objects
    ensures Find(bindings, id).Some?
    ensures Restored(objects, bindings, anchors, prefab1Name)[id].prefab == Prefab1
            <==> Find(bindings, id).value.payload == prefab1Name
    ensures exists k :: 0 <= k < |anchors| && anchors[k].id == id
                        && (forall j :: 0 <= j < k ==> anchors[j].id != id)
                        && Restored(objects, bindings, anchors, prefab1Name)[id].pose == anchors[k].pose
  {
    var n := |anchors| - 1;
    var prev := Restored(objects, bindings, anchors[..n], prefab1Name);
    var r := RestoreOne(prev, bindings, anchors[n], prefab1Name);
    assert r == Restored(objects, bindings, anchors, prefab1Name);
    if id in prev {
      assert r[id] == prev[id];
      RestoredEntry(objects, bindings, anchors[..n], prefab1Name, id);
      var k :| 0 <= k < |anchors[..n]| && anchors[..n][k].id == id
                && (forall j :: 0 <= j < k ==> anchors[..n][j].id != id)
                && prev[id].pose == anchors[..n][k].pose;
      assert anchors[k] == anchors[..n][k];
      assert forall j :: 0 <= j < k ==> anchors[j] == anchors[..n][j];
    } else {
      assert anchors[n].id == id;
      RestoredKeys(objects, bindings, anchors[..n], prefab1Name);
      assert id !in BoundIds(bindings, anchors[..n]);
      forall j | 0 <= j < n ensures anchors[j].id != id {
        assert anchors[j] in anchors[..n];
      }
      assert r[id].pose == anchors[n].pose;
    }
  }

  /** Restoring keeps every object bound: it only adds ids that have a saved binding. */
  lemma RestoredStaysBound(objects: map<string, Visual>, bindings: seq<Binding>, anchors: seq<Anchor>, prefab1Name: string)
    requires VisualsBound(objects, bindings)
    ensures VisualsBound(Restored(objects, bindings, anchors, prefab1Name), bindings)
  {
    RestoredKeys(objects, bindings, anchors, prefab1Name);
  }

  /** Deleting an id's object and unbinding that id keeps every other object bound. */
  lemma UnbindStaysBound(objects: map<string, Visual>, bindings: seq<Binding>, id: string)
    requires VisualsBound(objects, bindings)
    ensures VisualsBound(objects - {id}, WithoutId(bindings, id))
  {
    forall other | other in objects - {id} ensures Find(WithoutId(bindings, id), other).Some? {
      FindAfterRemove(bindings, id, other);
    }
  }

  /**
   * `Dictionary.Add` on the object map: an absent key gets the object; on a
   * present key it throws, and the map keeps what it had.
   */
  function Placed(objects: map<string, Visual>, id: string, visual: Visual): (r: map<string, Visual>)
    ensures r.Keys == objects.Keys + {id}
    ensures forall other :: other in objects ==> r[other] == objects[other]
    ensures id !in objects ==> r[id] == visual
  {
    if id in objects then objects else objects[id := visual]
  }

  /** Saving a binding keeps every object bound, and the saved id is bound from then on. */
  lemma SaveStaysBound(objects: map<string, Visual>, bindings: seq<Binding>, saved: Binding)
    requires VisualsBound(objects, bindings)
    ensures VisualsBound(objects, bindings + [saved])
    ensures Find(bindings + [saved], saved.id).Some?
  {
    forall id | id in objects ensures Find(bindings + [saved], id).Some? {
      FindAfterAppend(bindings, saved, id);
    }
    FindAfterAppend(bindings, saved, saved.id);
  }
}
