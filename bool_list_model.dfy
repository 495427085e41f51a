/** BoolObservableListModel: a list model of booleans with truth-table
    reductions over its current contents. The reductions only read the
    model: none of them has a modifies clause. */
module BoolListModels {
  import opened Observable
  import opened ObservableLists

  /** Every element is true, and there is at least one. */
  predicate AllTrue(s: seq<bool>) {
    |s| > 0 && forall i :: 0 <= i < |s| ==> s[i]
  }

  /** Some element is true. */
  predicate AnyTrue(s: seq<bool>) {
    exists i :: 0 <= i < |s| && s[i]
  }

  /** How many elements equal b. */
  function Count(s: seq<bool>, b: bool): nat {
    if s == [] then 0
    else Count(s[..|s| - 1], b) + (if s[|s| - 1] == b then 1 else 0)
  }

  /** Create: a fresh model whose Value holds values, in order; the
      initial list stays the empty one Awake made. */
  method Create(values: seq<bool>) returns (m: ListModel<bool>)
    ensures fresh(m) && m.Valid() && fresh(m.proxy) && fresh(m.proxy.inner) && fresh(m.initial)
    ensures m.Contents() == values
    ensures m.initial.items == [] && m.initial != m.proxy.inner
    ensures m.handlers == [] && m.log == [Notice([], []), Notice(values, [])]
  {
    m := ListModel.CreateInstance();
    var list := new ListObj(values);
    m.SetValue(PlainList(list));
  }

  /** All: false on an empty list, otherwise whether every element is true. */
  method All(m: ListModel<bool>) returns (r: bool)
    requires m.Valid()
    ensures r == AllTrue(m.Contents())
  {
    var items := m.proxy.inner.items;
    if |items| == 0 {
      return false;
    }
    for i := 0 to |items|
      invariant forall j :: 0 <= j < i ==> items[j]
    {
      if !items[i] {
        return false;
      }
    }
    return true;
  }

  /** Any: whether some element is true (false on an empty list). */
  method Any(m: ListModel<bool>) returns (r: bool)
    requires m.Valid()
    ensures r == AnyTrue(m.Contents())
  {
    var items := m.proxy.inner.items;
    for i := 0 to |items|
      invariant forall j :: 0 <= j < i ==> !items[j]
    {
      if items[i] {
        return true;
      }
    }
    return false;
  }

  /** And: All under another name. */
  method And(m: ListModel<bool>) returns (r: bool)
    requires m.Valid()
    ensures r == AllTrue(m.Contents())
  {
    r := All(m);
  }

  /** Or: Any under another name. */
  method Or(m: ListModel<bool>) returns (r: bool)
    requires m.Valid()
    ensures r == AnyTrue(m.Contents())
  {
    r := Any(m);
  }

  /** NotAll: the negation of All (true on an empty list). */
  method NotAll(m: ListModel<bool>) returns (r: bool)
    requires m.Valid()
    ensures r == !AllTrue(m.Contents())
  {
    var a := All(m);
    r := !a;
  }

  /** None: the negation of Any, so no element is true. */
  method None(m: ListModel<bool>) returns (r: bool)
    requires m.Valid()
    ensures r <==> forall i :: 0 <= i < |m.Contents()| ==> !m.Contents()[i]
  {
    var a := Any(m);
    r := !a;
  }

  /** Nand: the negation of And. */
  method Nand(m: ListModel<bool>) returns (r: bool)
    requires m.Valid()
    ensures r == !AllTrue(m.Contents())
  {
    var a := And(m);
    r := !a;
  }

  /** Nor: the negation of Or. */
  method Nor(m: ListModel<bool>) returns (r: bool)
    requires m.Valid()
    ensures r == !AnyTrue(m.Contents())
  {
    var a := Or(m);
    r := !a;
  }

  /** AllEqual: `All() || None()`, which holds exactly when no two elements
      differ (so also on an empty list). */
  method AllEqual(m: ListModel<bool>) returns (r: bool)
    requires m.Valid()
    ensures r <==> Uniform(m.Contents())
  {
    var a := All(m);
    var n := None(m);
    r := a || n;
    AllOrNoneIsUniform(m.Contents());
  }

  /** CountTrue: the number of true elements. */
  method CountTrue(m: ListModel<bool>) returns (count: nat)
    requires m.Valid()
    ensures count == Count(m.Contents(), true)
  {
    var items := m.proxy.inner.items;
    count := 0;
    for i := 0 to |items|
      invariant count == Count(items[..i], true)
    {
      assert items[..i + 1][..i] == items[..i];
      if items[i] {
        count := count + 1;
      }
    }
    assert items[..|items|] == items;
  }

  /** CountFalse: the number of false elements. */
  method CountFalse(m: ListModel<bool>) returns (count: nat)
    requires m.Valid()
    ensures count == Count(m.Contents(), false)
  {
    var items := m.proxy.inner.items;
    count := 0;
    for i := 0 to |items|
      invariant count == Count(items[..i], false)
    {
      assert items[..i + 1][..i] == items[..i];
      if !items[i] {
        count := count + 1;
      }
    }
    assert items[..|items|] == items;
  }

  /** No two elements differ. */
  predicate Uniform(s: seq<bool>) {
    forall i, j :: 0 <= i < |s| && 0 <= j < |s| ==> s[i] == s[j]
  }

  /** `All() || None()` is uniformity: true for an empty list and for any
      list whose elements are all true or all false, false otherwise. */
  lemma AllOrNoneIsUniform(s: seq<bool>)
    ensures (AllTrue(s) || !AnyTrue(s)) <==> Uniform(s)
  {
    if Uniform(s) && |s| > 0 {
      if s[0] {
        assert forall i :: 0 <= i < |s| ==> s[i] == s[0];
      } else {
        forall i | 0 <= i < |s| ensures !s[i] {
          assert s[i] == s[0];
        }
      }
    }
  }

  /** Every element is counted once: CountTrue + CountFalse == Count. */
  lemma {:induction false} CountsAddUp(s: seq<bool>)
    ensures Count(s, true) + Count(s, false) == |s|
  {
    if s != [] {
      CountsAddUp(s[..|s| - 1]);
    }
  }

  /** The counts agree with the quantified reductions: CountTrue is
      positive exactly when Any holds, and equals the length exactly when
      the list is empty or All holds. */
  lemma {:induction false} CountsMatchReductions(s: seq<bool>)
    ensures Count(s, true) > 0 <==> AnyTrue(s)
    ensures Count(s, true) == |s| <==> (s == [] || AllTrue(s))
  {
    if s != [] {
      var init := s[..|s| - 1];
      CountsMatchReductions(init);
      CountsAddUp(init);
      assert forall i :: 0 <= i < |init| ==> init[i] == s[i];
      if AnyTrue(init) {
        var i :| 0 <= i < |init| && init[i];
        assert s[i];
      }
      if AnyTrue(s) && !s[|s| - 1] {
        var i :| 0 <= i < |s| && s[i];
        assert init[i];
      }
    }
  }

  /** The truth table on the empty list, [true, true, true] and
      [true, true, false]. */
  lemma TruthTable()
    ensures !AllTrue([]) && !AnyTrue([]) && Uniform([]) && Count([], true) == 0
    ensures AllTrue([true, true, true]) && AnyTrue([true, true, true])
    ensures var s := [true, true, false];
            !AllTrue(s) && AnyTrue(s) && Count(s, true) == 2 && Count(s, false) == 1
  {
    var s := [true, true, false];
    assert s[..2] == [true, true] && [true, true][..1] == [true] && [true][..0] == [];
    assert Count([true], false) == 0 && Count([true, true], false) == 0;
    assert [true, true, true][0];
    assert s[0] && !s[2];
  }
}
