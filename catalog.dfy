/** The read side of ObservableModelsCatalog<string, U>: a dictionary from
    names to value models, read through Count, ContainsKey, the indexer and
    TryGetValue, and filled by the typed catalogs' Create. */
module Catalogs {
  import opened Wrappers
  import opened Observable

  /** No key occurs twice among the pairs. */
  predicate DistinctKeys<V>(pairs: seq<(string, V)>) {
    forall i, j :: 0 <= i < j < |pairs| ==> pairs[i].0 != pairs[j].0
  }

  /** The keys of the pairs. */
  function Keys<V>(pairs: seq<(string, V)>): set<string> {
    set i | 0 <= i < |pairs| :: pairs[i].0
  }

  /** The state a typed model's Create leaves behind for the value v: value
      and initial value v, no subscriber, one notice of v to nobody. */
  ghost predicate AsCreated<V>(m: ValueModel<V>, v: V)
    reads m
  {
    m.value == v && m.initial == v && m.handlers == [] && m.log == [Notice(v, [])]
  }

  /** Distinct keys number as many as the pairs. */
  lemma {:induction false} DistinctKeysCount<V>(pairs: seq<(string, V)>)
    requires DistinctKeys(pairs)
    ensures |Keys(pairs)| == |pairs|
  {
    if pairs != [] {
      var init := pairs[..|pairs| - 1];
      var last := pairs[|pairs| - 1];
      assert DistinctKeys(init);
      DistinctKeysCount(init);
      assert Keys(pairs) == Keys(init) + {last.0} by {
        forall k | k in Keys(pairs) ensures k in Keys(init) + {last.0} {
          var i :| 0 <= i < |pairs| && pairs[i].0 == k;
          if i < |pairs| - 1 {
            assert init[i].0 == k;
          }
        }
      }
      assert last.0 !in Keys(init);
    }
  }

  /** One more pair adds its key to the keys of the prefix. */
  lemma KeysSnoc<V>(pairs: seq<(string, V)>, i: nat)
    requires i < |pairs|
    ensures Keys(pairs[..i + 1]) == Keys(pairs[..i]) + {pairs[i].0}
  {
    assert pairs[..i + 1] == pairs[..i] + [pairs[i]];
    forall k | k in Keys(pairs[..i + 1]) ensures k in Keys(pairs[..i]) + {pairs[i].0} {
      var j :| 0 <= j < i + 1 && pairs[..i + 1][j].0 == k;
      if j < i {
        assert pairs[..i][j].0 == k;
      }
    }
    forall k | k in Keys(pairs[..i]) ensures k in Keys(pairs[..i + 1]) {
      var j :| 0 <= j < i && pairs[..i][j].0 == k;
      assert pairs[..i + 1][j].0 == k;
    }
    assert pairs[..i + 1][i].0 == pairs[i].0;
  }

  /** A pair whose key is new keeps the prefix's keys distinct. */
  lemma DistinctSnoc<V>(pairs: seq<(string, V)>, i: nat)
    requires i < |pairs| && DistinctKeys(pairs[..i]) && pairs[i].0 !in Keys(pairs[..i])
    ensures DistinctKeys(pairs[..i + 1])
  {
    var prefix := pairs[..i + 1];
    forall j, l | 0 <= j < l < i + 1 ensures prefix[j].0 != prefix[l].0 {
      if l == i {
        assert pairs[..i][j].0 == pairs[j].0;
      } else {
        assert pairs[..i][j] == pairs[j] && pairs[..i][l] == pairs[l];
      }
    }
  }

  /** A pair whose key is already taken makes the keys repeat. */
  lemma RepeatedKey<V>(pairs: seq<(string, V)>, i: nat)
    requires i < |pairs| && pairs[i].0 in Keys(pairs[..i])
    ensures !DistinctKeys(pairs)
  {
    var j :| 0 <= j < i && pairs[..i][j].0 == pairs[i].0;
    assert pairs[j].0 == pairs[i].0;
  }

  class ModelsCatalog<V(==)> {
    /** The _models dictionary. */
    var models: map<string, ValueModel<V>>

    /** A new catalog holds no model. */
    constructor ()
      ensures models == map[]
    {
      models := map[];
    }

    /** No model is filed under two names. */
    predicate Injective()
      reads this
    {
      forall k1, k2 :: k1 in models && k2 in models && k1 != k2 ==> models[k1] != models[k2]
    }

    /** Count: the number of names. */
    function Count(): (n: nat)
      reads this
      ensures n == |models.Keys|
    {
      |models|
    }

    /** ContainsKey: whether a model is filed under the name. */
    function ContainsKey(key: string): (r: bool)
      reads this
      ensures r <==> key in models.Keys
    {
      key in models
    }

    /** The indexer: the model filed under the name; an absent name fails
        with KeyNotFound. */
    function Get(key: string): (r: Result<ValueModel<V>>)
      reads this
      ensures r.Ok? <==> ContainsKey(key)
      ensures r.Ok? ==> r.value == models[key]
      ensures r.Err? ==> r.error == KeyNotFound
    {
      if key in models then Ok(models[key]) else Err(KeyNotFound)
    }

    /** TryGetValue: whether the name is present and, if so, its model; the
        out parameter is null when it is absent. */
    function TryGetValue(key: string): (r: (bool, ValueModel?<V>))
      reads this
      ensures r.0 <==> ContainsKey(key)
      ensures r.0 ==> r.1 == models[key]
      ensures !r.0 ==> r.1 == null
    {
      if key in models then (true, models[key]) else (false, null)
    }

    /** Dictionary.Add: files the model under a new name; a name already
        present fails with Argument and changes nothing. */
    method Add(key: string, model: ValueModel<V>) returns (r: Outcome)
      modifies this`models
      ensures key in old(models) ==> r == Failed(Argument) && models == old(models)
      ensures key !in old(models) ==> r == Done && models == old(models)[key := model]
    {
      if key in models {
        r := Failed(Argument);
      } else {
        models := models[key := model];
        r := Done;
      }
    }
  }

  /** TryGetValue and the indexer agree: TryGetValue succeeds exactly where
      the indexer does, with the same model. */
  lemma TryGetValueAgreesWithIndexer<V>(c: ModelsCatalog<V>, key: string)
    ensures c.TryGetValue(key).0 <==> c.Get(key).Ok?
    ensures c.Get(key).Ok? ==> c.TryGetValue(key).1 == c.Get(key).value
  {
  }
}
