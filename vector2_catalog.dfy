/** Vector2ObservableModelsCatalog: a catalog of Vector2 models built from
    (name, value) pairs. */
module Vector2Catalogs {
  import opened Wrappers
  import opened Numerics
  import opened Observable
  import opened Catalogs
  import Vector2Models

  /** Create: one fresh model per pair, created with the pair's value and
      filed under the pair's name, in order. A repeated name makes
      Dictionary.Add throw, so the whole call fails with Argument. */
  method Create(pairs: seq<(string, Vector2)>) returns (r: Result<ModelsCatalog<Vector2>>)
    ensures r.Err? <==> !DistinctKeys(pairs)
    ensures r.Err? ==> r.error == Argument
    ensures r.Ok? ==> fresh(r.value) && r.value.Injective()
    ensures r.Ok? ==> r.value.Count() == |pairs|
    ensures r.Ok? ==> forall k :: r.value.ContainsKey(k) <==> k in Keys(pairs)
    ensures r.Ok? ==> forall i :: 0 <= i < |pairs| ==>
              pairs[i].0 in r.value.models &&
              var m := r.value.models[pairs[i].0];
              fresh(m) && AsCreated(m, pairs[i].1)
  {
    var c := new ModelsCatalog();
    for i := 0 to |pairs|
      invariant fresh(c) && c.Injective()
      invariant DistinctKeys(pairs[..i])
      invariant c.models.Keys == Keys(pairs[..i])
      invariant forall k :: k in c.models ==> fresh(c.models[k])
      invariant forall j :: 0 <= j < i ==>
                  pairs[j].0 in c.models &&
                  var m := c.models[pairs[j].0];
                  AsCreated(m, pairs[j].1)
    {
      var (key, value) := pairs[i];
      var m := Vector2Models.Create(value);
      var added := c.Add(key, m);
      if added.Failed? {
        RepeatedKey(pairs, i);
        return Err(Argument);
      }
      KeysSnoc(pairs, i);
      DistinctSnoc(pairs, i);
    }
    assert pairs[..|pairs|] == pairs;
    DistinctKeysCount(pairs);
    r := Ok(c);
  }
}
