/**
 * The binding store shared by the example scenes: the in-memory list of
 * saved bindings, each pairing an anchor id with an opaque payload (the name
 * of the prefab to restore). Only the list is modelled; how it is written to
 * and read from its file is not.
 */
module Bindings {
  import opened Wrappers

  datatype Binding = Binding(id: string, payload: string)

  /** `Bindings.Find(x => x.Id == id)`: the first record with that id, if any. */
  function Find(bindings: seq<Binding>, id: string): (r: Option<Binding>)
    ensures r.Some? ==> r.value in bindings && r.value.id == id
    ensures r.None? <==> forall b :: b in bindings ==> b.id != id
  {
    if bindings == [] then None
    else if bindings[0].id == id then Some(bindings[0])
    else Find(bindings[1..], id)
  }

  /** Unbinding an id: every record with that id leaves the list, the others keep their order. */
  function WithoutId(bindings: seq<Binding>, id: string): (r: seq<Binding>)
    ensures forall b :: b in r <==> b in bindings && b.id != id
    ensures |r| <= |bindings|
  {
    if bindings == [] then []
    else (if bindings[0].id == id then [] else [bindings[0]]) + WithoutId(bindings[1..], id)
  }

  /** Find returns the FIRST match: no earlier record carries the id. */
  lemma {:induction false} FindIsFirstMatch(bindings: seq<Binding>, id: string)
    requires Find(bindings, id).Some?
    ensures exists k :: 0 <= k < |bindings| && bindings[k] == Find(bindings, id).value
                        && forall j :: 0 <= j < k ==> bindings[j].id != id
  {
    if bindings[0].id != id {
      FindIsFirstMatch(bindings[1..], id);
      var k :| 0 <= k < |bindings[1..]| && bindings[1..][k] == Find(bindings[1..], id).value
                && forall j :: 0 <= j < k ==> bindings[1..][j].id != id;
      assert bindings[k + 1] == Find(bindings, id).value;
      forall j | 0 <= j < k + 1 ensures bindings[j].id != id {
        if j > 0 { assert bindings[j] == bindings[1..][j - 1]; }
      }
    }
  }

  /** Saving a binding appends it: earlier matches still win, otherwise the new record is found. */
  lemma {:induction false} FindAfterAppend(bindings: seq<Binding>, b: Binding, id: string)
    ensures Find(bindings + [b], id) ==
            if Find(bindings, id).Some? then Find(bindings, id)
            else if b.id == id then Some(b) else None
  {
    if bindings != [] {
      assert (bindings + [b])[1..] == bindings[1..] + [b];
      FindAfterAppend(bindings[1..], b, id);
    }
  }

  /** After unbinding an id it is no longer found, and every other id is found as before. */
  lemma {:induction false} FindAfterRemove(bindings: seq<Binding>, id: string, other: string)
    ensures Find(WithoutId(bindings, id), other) == if other == id then None else Find(bindings, other)
  {
    if bindings != [] {
      var rest := WithoutId(bindings[1..], id);
      FindAfterRemove(bindings[1..], id, other);
      if bindings[0].id == id {
        assert WithoutId(bindings, id) == rest;
      } else {
        var w := [bindings[0]] + rest;
        assert WithoutId(bindings, id) == w;
        assert w[1..] == rest;
      }
    }
  }
}
