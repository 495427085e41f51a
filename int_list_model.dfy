/** IntObservableListModel: a list model of integers with the LINQ
    reductions Sum, Min, Max and Average over its current contents (apply
    them to `m.Contents()`). Elements and sums are unbounded integers, and
    Average is exact over the rationals. */
module IntListModels {
  import opened Wrappers
  import opened Observable
  import opened ObservableLists

  /** Create: a fresh model whose Value holds values, in order; the
      initial list stays the empty one Awake made. */
  method Create(values: seq<int>) returns (m: ListModel<int>)
    ensures fresh(m) && m.Valid() && fresh(m.proxy) && fresh(m.proxy.inner) && fresh(m.initial)
    ensures m.Contents() == values
    ensures m.initial.items == [] && m.initial != m.proxy.inner
    ensures m.handlers == [] && m.log == [Notice([], []), Notice(values, [])]
  {
    m := ListModel.CreateInstance();
    var list := new ListObj(values);
    m.SetValue(PlainList(list));
  }

  /** Sum: the total of the elements; unlike Min, Max and Average it does
      not fail on an empty list, which sums to 0. */
  function Sum(s: seq<int>): (r: int)
    ensures s == [] ==> r == 0
  {
    if s == [] then 0 else s[0] + Sum(s[1..])
  }

  /** Sum accumulates from the first element to the last, as LINQ's Sum
      does: the sum of a list is the sum of all but its last element plus
      that element. */
  lemma {:induction false} SumSnoc(s: seq<int>)
    requires s != []
    ensures Sum(s) == Sum(s[..|s| - 1]) + s[|s| - 1]
  {
    if |s| > 1 {
      assert s[1..][..|s| - 2] == s[..|s| - 1][1..];
      SumSnoc(s[1..]);
    }
  }

  /** Min: the least element; an empty list fails. */
  function Min(s: seq<int>): (r: Result<int>)
    ensures r.Ok? <==> |s| > 0
    ensures r.Err? ==> r.error == InvalidOperation
    ensures r.Ok? ==> r.value in s && forall x :: x in s ==> r.value <= x
  {
    if s == [] then Err(InvalidOperation)
    else if |s| == 1 then Ok(s[0])
    else
      var rest := Min(s[1..]);
      assert s == [s[0]] + s[1..];
      Ok(if s[0] <= rest.value then s[0] else rest.value)
  }

  /** Max: the greatest element; an empty list fails. */
  function Max(s: seq<int>): (r: Result<int>)
    ensures r.Ok? <==> |s| > 0
    ensures r.Err? ==> r.error == InvalidOperation
    ensures r.Ok? ==> r.value in s && forall x :: x in s ==> x <= r.value
  {
    if s == [] then Err(InvalidOperation)
    else if |s| == 1 then Ok(s[0])
    else
      var rest := Max(s[1..]);
      assert s == [s[0]] + s[1..];
      Ok(if s[0] >= rest.value then s[0] else rest.value)
  }

  /** Average: Sum / Count as an exact rational; an empty list fails. */
  function Average(s: seq<int>): (r: Result<real>)
    ensures r.Ok? <==> |s| > 0
    ensures r.Err? ==> r.error == InvalidOperation
    ensures r.Ok? ==> r.value * |s| as real == Sum(s) as real
  {
    if s == [] then Err(InvalidOperation) else Ok(Sum(s) as real / |s| as real)
  }

  /** A lower bound of every element bounds the sum from below. */
  lemma {:induction false} SumAtLeast(s: seq<int>, lo: int)
    requires forall x :: x in s ==> lo <= x
    ensures lo * |s| <= Sum(s)
  {
    if s != [] {
      assert s[0] in s;
      assert forall x :: x in s[1..] ==> x in s;
      SumAtLeast(s[1..], lo);
      assert lo * (|s| - 1) + lo == lo * |s|;
    }
  }

  /** An upper bound of every element bounds the sum from above. */
  lemma {:induction false} SumAtMost(s: seq<int>, hi: int)
    requires forall x :: x in s ==> x <= hi
    ensures Sum(s) <= hi * |s|
  {
    if s != [] {
      assert s[0] in s;
      assert forall x :: x in s[1..] ==> x in s;
      SumAtMost(s[1..], hi);
      assert hi * (|s| - 1) + hi == hi * |s|;
    }
  }

  /** A quotient by a positive count lies between the bounds of the
      dividend divided by that count. */
  lemma QuotientBetween(sum: int, count: int, lo: int, hi: int)
    requires count > 0
    requires lo * count <= sum <= hi * count
    ensures lo as real <= sum as real / count as real <= hi as real
  {
    var q, n := sum as real / count as real, count as real;
    assert q * n == sum as real;
    assert (lo * count) as real == lo as real * n;
    assert (hi * count) as real == hi as real * n;
  }

  /** Min <= Average <= Max on every non-empty list. */
  lemma AverageBetweenMinAndMax(s: seq<int>)
    requires |s| > 0
    ensures Min(s).value as real <= Average(s).value <= Max(s).value as real
  {
    var lo, hi := Min(s).value, Max(s).value;
    SumAtLeast(s, lo);
    SumAtMost(s, hi);
    QuotientBetween(Sum(s), |s|, lo, hi);
  }

  /** The reductions on [1, 2, 3] and on the empty list. */
  lemma Examples()
    ensures Sum([1, 2, 3]) == 6 && Min([1, 2, 3]) == Ok(1) && Max([1, 2, 3]) == Ok(3)
    ensures Average([1, 2, 3]) == Ok(2.0)
    ensures Sum([]) == 0 && Min([]).Err? && Max([]).Err? && Average([]).Err?
  {
    assert [1, 2, 3][1..] == [2, 3] && [2, 3][1..] == [3] && [3][1..] == [];
  }

  /** After `Create(1, 2)`, ResetValue installs a proxy over the initial
      list object itself. Adding 5 then changes the initial list, and a
      second ResetValue is ignored by the setter's guard: the contents stay
      [5] instead of returning to the empty list. */
  method ResetAliasesInitialList() returns (m: ListModel<int>)
    ensures m.Valid() && m.initial != null && m.proxy.inner == m.initial
    ensures m.Contents() == [5] && m.initial.items == [5]
  {
    m := Create([1, 2]);
    m.ResetValue();
    assert m.Contents() == [];
    m.Add(5);
    m.ResetValue();
  }
}
