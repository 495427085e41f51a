/** Vector3ObservableListModel: a list model of Vector3 values. */
module Vector3ListModels {
  import opened Wrappers
  import opened Numerics
  import opened Sequences
  import opened Observable
  import opened ObservableLists

  /** Create: a fresh model whose Value holds values, in order; the
      initial list stays the empty one Awake made. */
  method Create(values: seq<Vector3>) returns (m: ListModel<Vector3>)
    ensures fresh(m) && m.Valid() && fresh(m.proxy) && fresh(m.proxy.inner) && fresh(m.initial)
    ensures m.Contents() == values
    ensures m.initial.items == [] && m.initial != m.proxy.inner
    ensures m.handlers == [] && m.log == [Notice([], []), Notice(values, [])]
  {
    m := ListModel.CreateInstance();
    var list := new ListObj(values);
    m.SetValue(PlainList(list));
  }

  /** Deleting the middle of three elements leaves the outer two. */
  lemma MiddleOut<T>(a: T, b: T, c: T)
    ensures DeleteAt([a, b, c], 1) == [a, c]
  {
  }

  /** RemoveAt(1) on a three-element list drops the middle element and
      announces the shortened list once. */
  method RemoveMiddle(a: Vector3, b: Vector3, c: Vector3)
    returns (m: ListModel<Vector3>, removed: Outcome)
    ensures removed == Done
    ensures m.Valid() && m.Contents() == [a, c]
    ensures |m.log| == 3 && m.log[2] == Notice([a, c], [])
  {
    MiddleOut(a, b, c);
    m := Create([a, b, c]);
    removed := m.RemoveAt(1);
  }

  /** Out-of-range indexes fail with ArgumentOutOfRange and announce
      nothing. */
  method OutOfRangeChangesNothing(a: Vector3, b: Vector3)
    returns (m: ListModel<Vector3>, removed: Outcome, inserted: Outcome)
    ensures removed == Failed(ArgumentOutOfRange) && inserted == Failed(ArgumentOutOfRange)
    ensures m.Valid() && m.Contents() == [a, b] && |m.log| == 2
  {
    m := Create([a, b]);
    removed := m.RemoveAt(2);
    inserted := m.Insert(3, a);
  }
}
