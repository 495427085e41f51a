/** Vector2ObservableListModel: a list model of Vector2 values. */
module Vector2ListModels {
  import opened Numerics
  import opened Observable
  import opened ObservableLists

  /** Create: a fresh model whose Value holds values, in order; the
      initial list stays the empty one Awake made. */
  method Create(values: seq<Vector2>) returns (m: ListModel<Vector2>)
    ensures fresh(m) && m.Valid() && fresh(m.proxy) && fresh(m.proxy.inner) && fresh(m.initial)
    ensures m.Contents() == values
    ensures m.initial.items == [] && m.initial != m.proxy.inner
    ensures m.handlers == [] && m.log == [Notice([], []), Notice(values, [])]
  {
    m := ListModel.CreateInstance();
    var list := new ListObj(values);
    m.SetValue(PlainList(list));
  }
}
