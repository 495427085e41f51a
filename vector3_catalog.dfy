/** Vector3ObservableModelsCatalog: a catalog of Vector3 models built from
    (name, value) pairs. */
module Vector3Catalogs {
  import opened Wrappers
  import opened Numerics
  import opened Observable
  import opened Catalogs
  import Vector3Models

  /** Create: one fresh model per pair, created with the pair's value and
      filed under the pair's name, in order. A repeated name makes
      Dictionary.Add throw, so the whole call fails with Argument. */
  method Create(pairs: seq<(string, Vector3)>) returns (r: Result<ModelsCatalog<Vector3>>)
    ensures r.Err? <==> !DistinctKeys(pairs)
    ensures r.Err? ==> r.error == Argument
    ensures r.Ok? ==> fresh(r.value) && r.value.Injective()
    ensures r.Ok? ==> r.value.Count() == |pairs|
    ensures r.Ok? ==> forall k :: r.value.ContainsKey(k) <==> k in Keys(pairs)
    ensures r.Ok? ==> forall i :: 0 <= i < |pairs| ==>
              pairs[i].0 in r.value.models &&
              var m := r.value.models[pairs[i].0];
              fresh(m) && AsCreated(m, pairs[i].1)
  {
    var c := new ModelsCatalog();
    for i := 0 to |pairs|
      invariant fresh(c) && c.Injective()
      invariant DistinctKeys(pairs[..i])
      invariant c.models.Keys == Keys(pairs[..i])
      invariant forall k :: k in c.models ==> fresh(c.models[k])
      invariant forall j :: 0 <= j < i ==>
                  pairs[j].0 in c.models &&
                  var m := c.models[pairs[j].0];
                  AsCreated(m, pairs[j].1)
    {
      var (key, value) := pairs[i];
      var m := Vector3Models.Create(value);
      var added := c.Add(key, m);
      if added.Failed? {
        RepeatedKey(pairs, i);
        return Err(Argument);
      }
      KeysSnoc(pairs, i);
      DistinctSnoc(pairs, i);
    }
    assert pairs[..|pairs|] == pairs;
    DistinctKeysCount(pairs);
    r := Ok(c);
  }

  /** Assigning to one model of a catalog notifies that model's
      subscribers only, on every assignment, even of an equal value: a
      subscriber of another model hears nothing. */
  method AssignmentsStayWithTheirModel(h: HandlerId) returns (c: ModelsCatalog<Vector3>)
    ensures c.ContainsKey("one") && c.ContainsKey("two") && c.ContainsKey("three") && c.Count() == 3
    ensures c.models["one"].value == Vector3One
    ensures c.models["one"].log == [Notice(Vector3Zero, []), Notice(Vector3Zero, []), Notice(Vector3One, [])]
    ensures c.models["two"].handlers == [h] && c.models["two"].log == [Notice(Vector3One, [])]
  {
    var pairs := [("one", Vector3Zero), ("two", Vector3One), ("three", Vector3Right)];
    var r := Create(pairs);
    c := r.value;
    assert pairs[0].0 == "one" && pairs[1].0 == "two" && pairs[2].0 == "three";
    var one, two := c.models["one"], c.models["two"];
    two.Subscribe(h);
    one.SetValue(Vector3Zero);
    one.SetValue(Vector3One);
  }
}
