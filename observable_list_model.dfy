/** ObservableListModel<T>: a model whose value is a proxy (ObservableList)
    over a List<T> heap object. Every mutation through the proxy changes the
    wrapped list in place and then raises the owner's OnValueChanged once.
    The wrapped list is an object, so the proxy installed by Awake or
    ResetValue wraps the very _initialValue list and later mutations change
    that list too. */
module ObservableLists {
  import opened Wrappers
  import opened Sequences
  import opened Observable

  /** A System.Collections.Generic.List<T>: an object whose items change in place. */
  class ListObj<T> {
    var items: seq<T>

    /** `new List<T>(values)`: a fresh list holding a copy of values. */
    constructor (values: seq<T>)
      ensures items == values
    {
      items := values;
    }
  }

  /** What the Value setter can be given: null, a List<T>, or the model's
      own current proxy (`model.Value = model.Value`). */
  datatype ListArg<T> = NullList | PlainList(list: ListObj<T>) | ProxyList(proxy: ObservableList<T>)

  /** The nested ObservableList: wraps internalList and calls back the
      owner's InvokeOnValueChanged after each mutation. The notice carries
      the owner's current Value, which is this proxy's list unless another
      assignment to the owner has replaced this proxy since. */
  class ObservableList<T(==)> {
    const inner: ListObj<T>
    const owner: ListModel<T>

    constructor (list: ListObj<T>, owner: ListModel<T>)
      ensures inner == list && this.owner == owner
    {
      inner := list;
      this.owner := owner;
    }

    /** Count. */
    function Count(): (n: nat)
      reads inner
      ensures n == |inner.items|
    {
      |inner.items|
    }

    /** The indexer's getter: fails outside [0, Count). */
    function At(index: int): (r: Result<T>)
      reads inner
      ensures r.Ok? <==> 0 <= index < Count()
      ensures r.Ok? ==> r.value == inner.items[index]
      ensures r.Err? ==> r.error == ArgumentOutOfRange
    {
      if 0 <= index < |inner.items| then Ok(inner.items[index]) else Err(ArgumentOutOfRange)
    }

    /** Contains: whether some element equals x. */
    function Contains(x: T): (r: bool)
      reads inner
      ensures r <==> exists i :: 0 <= i < Count() && inner.items[i] == x
    {
      x in inner.items
    }

    /** IndexOf: the first index holding x, or -1 (see Sequences.FirstIndex). */
    function IndexOf(x: T): (r: int)
      reads inner
      ensures r == -1 <==> x !in inner.items
      ensures r != -1 ==> 0 <= r < Count() && inner.items[r] == x
                          && forall j :: 0 <= j < r ==> inner.items[j] != x
    {
      FirstIndex(inner.items, x)
    }

    /** The indexer's setter: replaces one element and notifies, or fails
        without change or notification. */
    method Set(index: int, x: T) returns (r: Outcome)
      requires owner.Valid()
      modifies inner, owner`log
      ensures r.Done? <==> 0 <= index < old(Count())
      ensures r.Done? ==> inner.items == old(inner.items)[index := x]
                          && owner.log == old(owner.log) + [Notice(owner.Contents(), owner.handlers)]
      ensures r.Failed? ==> r.error == ArgumentOutOfRange
                            && inner.items == old(inner.items) && owner.log == old(owner.log)
    {
      if 0 <= index < |inner.items| {
        inner.items := inner.items[index := x];
        owner.InvokeOnValueChanged();
        r := Done;
      } else {
        r := Failed(ArgumentOutOfRange);
      }
    }

    /** Add: appends x, then notifies. */
    method Add(x: T)
      requires owner.Valid()
      modifies inner, owner`log
      ensures inner.items == old(inner.items) + [x]
      ensures owner.log == old(owner.log) + [Notice(owner.Contents(), owner.handlers)]
    {
      inner.items := inner.items + [x];
      owner.InvokeOnValueChanged();
    }

    /** Clear: empties the list, then notifies (even when it was empty). */
    method Clear()
      requires owner.Valid()
      modifies inner, owner`log
      ensures inner.items == []
      ensures owner.log == old(owner.log) + [Notice(owner.Contents(), owner.handlers)]
    {
      inner.items := [];
      owner.InvokeOnValueChanged();
    }

    /** Insert: x lands at index, later elements shift right, then notifies;
        an index outside [0, Count] fails without change or notification. */
    method Insert(index: int, x: T) returns (r: Outcome)
      requires owner.Valid()
      modifies inner, owner`log
      ensures r.Done? <==> 0 <= index <= old(Count())
      ensures r.Done? ==> inner.items == InsertAt(old(inner.items), index, x)
                          && owner.log == old(owner.log) + [Notice(owner.Contents(), owner.handlers)]
      ensures r.Failed? ==> r.error == ArgumentOutOfRange
                            && inner.items == old(inner.items) && owner.log == old(owner.log)
    {
      if 0 <= index <= |inner.items| {
        inner.items := InsertAt(inner.items, index, x);
        owner.InvokeOnValueChanged();
        r := Done;
      } else {
        r := Failed(ArgumentOutOfRange);
      }
    }

    /** Remove: deletes the first occurrence of x and reports whether there
        was one; notifies only then. */
    method Remove(x: T) returns (removed: bool)
      requires owner.Valid()
      modifies inner, owner`log
      ensures removed <==> x in old(inner.items)
      ensures inner.items == RemoveFirst(old(inner.items), x)
      ensures removed ==> owner.log == old(owner.log) + [Notice(owner.Contents(), owner.handlers)]
      ensures !removed ==> owner.log == old(owner.log)
    {
      removed := x in inner.items;
      inner.items := RemoveFirst(inner.items, x);
      if removed {
        owner.InvokeOnValueChanged();
      }
    }

    /** RemoveAt: deletes the element at index, keeping the order of the
        rest, then notifies; an index outside [0, Count) fails without change
        or notification. */
    method RemoveAt(index: int) returns (r: Outcome)
      requires owner.Valid()
      modifies inner, owner`log
      ensures r.Done? <==> 0 <= index < old(Count())
      ensures r.Done? ==> inner.items == DeleteAt(old(inner.items), index)
                          && owner.log == old(owner.log) + [Notice(owner.Contents(), owner.handlers)]
      ensures r.Failed? ==> r.error == ArgumentOutOfRange
                            && inner.items == old(inner.items) && owner.log == old(owner.log)
    {
      if 0 <= index < |inner.items| {
        inner.items := DeleteAt(inner.items, index);
        owner.InvokeOnValueChanged();
        r := Done;
      } else {
        r := Failed(ArgumentOutOfRange);
      }
    }
  }

  class ListModel<T(==)> {
    /** base._value: the current Value, a proxy; null only before Awake. */
    var proxy: ObservableList?<T>
    /** _initialValue. */
    var initial: ListObj?<T>
    /** The invocation list of OnValueChanged. */
    var handlers: seq<HandlerId>
    /** Every raising of OnValueChanged, with the contents the handlers see. */
    ghost var log: seq<Notice<seq<T>>>

    /** The current proxy, if any, calls back this model. */
    ghost predicate Wired()
      reads this
    {
      proxy != null ==> proxy.owner == this
    }

    /** Value is not null and its proxy calls back this model. */
    ghost predicate Valid()
      reads this
    {
      proxy != null && proxy.owner == this
    }

    /** What enumerating Value yields: the items of the wrapped list. */
    function Contents(): seq<T>
      reads this, if proxy != null then {proxy.inner} else {}
      requires Valid()
    {
      proxy.inner.items
    }

    /** The fields as the engine allocates them, before any engine callback. */
    constructor ()
      ensures proxy == null && initial == null
      ensures handlers == [] && log == []
    {
      proxy, initial := null, null;
      handlers, log := [], [];
    }

    /** CreateInstance: allocate, then the engine's Awake and OnEnable. */
    static method CreateInstance() returns (m: ListModel<T>)
      ensures fresh(m) && m.Valid() && fresh(m.proxy) && fresh(m.initial)
      ensures m.proxy.inner == m.initial && m.initial.items == []
      ensures m.handlers == [] && m.log == [Notice([], [])]
    {
      m := new ListModel();
      m.Awake();
      m.OnEnable();
    }

    /** InvokeOnValueChanged: raises the event with the current Value. */
    method InvokeOnValueChanged()
      requires Valid()
      modifies this`log
      ensures log == old(log) + [Notice(Contents(), handlers)]
    {
      log := log + [Notice(proxy.inner.items, handlers)];
    }

    /** `OnValueChanged += h`. */
    method Subscribe(h: HandlerId)
      modifies this`handlers
      ensures handlers == old(handlers) + [h]
    {
      handlers := handlers + [h];
    }

    /** `OnValueChanged -= h`. */
    method Unsubscribe(h: HandlerId)
      modifies this`handlers
      ensures handlers == RemoveLast(old(handlers), h)
    {
      handlers := RemoveLast(handlers, h);
    }

    /** The overridden Value setter. Null becomes a fresh empty list. The
        model's own proxy, or the list its proxy already wraps, is ignored:
        no new proxy, no notification. Any other list is wrapped in a fresh
        proxy, which base.Value installs and announces once. */
    method SetValue(arg: ListArg<T>)
      requires Wired()
      requires arg.ProxyList? ==> arg.proxy == proxy
      modifies this`proxy, this`log
      ensures Valid()
      ensures arg.NullList? ==>
                fresh(proxy) && fresh(proxy.inner) && Contents() == []
                && log == old(log) + [Notice([], handlers)]
      ensures arg.PlainList? && (old(proxy) == null || arg.list != old(proxy).inner) ==>
                fresh(proxy) && proxy.inner == arg.list
                && log == old(log) + [Notice(arg.list.items, handlers)]
      ensures arg.PlainList? && old(proxy) != null && arg.list == old(proxy).inner ==>
                proxy == old(proxy) && log == old(log)
      ensures arg.ProxyList? ==> proxy == old(proxy) && log == old(log)
    {
      var notNull: ListObj<T>;
      match arg {
        case NullList =>
          notNull := new ListObj([]);
        case PlainList(l) =>
          notNull := l;
        case ProxyList(p) =>
          // the proxy is reference-equal to Value: the guard rejects it
          return;
      }
      if proxy == null || notNull != proxy.inner {
        proxy := new ObservableList(notNull, this);
        log := log + [Notice(notNull.items, handlers)];
      }
    }

    /** ResetValue: `Value = _initialValue` through the overridden setter.
        The new proxy wraps the initial list object itself; once it does,
        a further reset is ignored by the setter's guard. */
    method ResetValue()
      requires Wired()
      modifies this`proxy, this`log
      ensures Valid()
      ensures initial == null ==>
                fresh(proxy) && fresh(proxy.inner) && Contents() == []
                && log == old(log) + [Notice([], handlers)]
      ensures initial != null && old(proxy) != null && old(proxy).inner == initial ==>
                proxy == old(proxy) && log == old(log)
      ensures initial != null && (old(proxy) == null || old(proxy).inner != initial) ==>
                fresh(proxy) && proxy.inner == initial
                && log == old(log) + [Notice(initial.items, handlers)]
    {
      SetValue(if initial == null then NullList else PlainList(initial));
    }

    /** OnEnable, inherited: reset when _initialValue is not null (the
        default of a list type) and Value is null. */
    method OnEnable()
      requires Wired()
      modifies this`proxy, this`log
      ensures Wired()
      ensures initial != null && old(proxy) == null ==>
                fresh(proxy) && proxy.owner == this && proxy.inner == initial
                && log == old(log) + [Notice(initial.items, handlers)]
      ensures !(initial != null && old(proxy) == null) ==> proxy == old(proxy) && log == old(log)
    {
      if initial != null && proxy == null {
        ResetValue();
      }
    }

    /** Awake: a fresh empty initial list, and Value set to it if still null. */
    method Awake()
      requires Wired()
      modifies this`initial, this`proxy, this`log
      ensures Valid() && fresh(initial) && initial.items == []
      ensures old(proxy) == null ==>
                fresh(proxy) && proxy.inner == initial && log == old(log) + [Notice([], handlers)]
      ensures old(proxy) != null ==> proxy == old(proxy) && log == old(log)
    {
      initial := new ListObj([]);
      if proxy == null {
        SetValue(PlainList(initial));
      }
    }

    /** OnAfterDeserialize: an empty initial list if it is null, then Value
        set to the initial list if still null. */
    method OnAfterDeserialize()
      requires Wired()
      modifies this`initial, this`proxy, this`log
      ensures Valid() && initial != null
      ensures old(initial) != null ==> initial == old(initial)
      ensures old(initial) == null ==> fresh(initial) && initial.items == []
      ensures old(proxy) == null ==>
                fresh(proxy) && proxy.inner == initial && log == old(log) + [Notice(initial.items, handlers)]
      ensures old(proxy) != null ==> proxy == old(proxy) && log == old(log)
    {
      if initial == null {
        initial := new ListObj([]);
      }
      if proxy == null {
        SetValue(PlainList(initial));
      }
    }

    /** Count, forwarded to Value. */
    function Count(): nat
      reads this, if proxy != null then {proxy.inner} else {}
      requires Valid()
    {
      proxy.Count()
    }

    /** The indexer's getter, forwarded to Value. */
    function At(index: int): Result<T>
      reads this, if proxy != null then {proxy.inner} else {}
      requires Valid()
    {
      proxy.At(index)
    }

    /** Contains, forwarded to Value. */
    function Contains(x: T): bool
      reads this, if proxy != null then {proxy.inner} else {}
      requires Valid()
    {
      proxy.Contains(x)
    }

    /** IndexOf, forwarded to Value. */
    function IndexOf(x: T): int
      reads this, if proxy != null then {proxy.inner} else {}
      requires Valid()
    {
      proxy.IndexOf(x)
    }

    /** The indexer's setter, forwarded to Value. */
    method Set(index: int, x: T) returns (r: Outcome)
      requires Valid()
      modifies proxy.inner, this`log
      ensures Valid() && proxy == old(proxy)
      ensures r.Done? <==> 0 <= index < |old(Contents())|
      ensures r.Done? ==> Contents() == old(Contents())[index := x]
                          && log == old(log) + [Notice(Contents(), handlers)]
      ensures r.Failed? ==> r.error == ArgumentOutOfRange
                            && Contents() == old(Contents()) && log == old(log)
    {
      r := proxy.Set(index, x);
    }

    /** Add, forwarded to Value. */
    method Add(x: T)
      requires Valid()
      modifies proxy.inner, this`log
      ensures Valid() && proxy == old(proxy)
      ensures Contents() == old(Contents()) + [x]
      ensures log == old(log) + [Notice(Contents(), handlers)]
    {
      proxy.Add(x);
    }

    /** Clear, forwarded to Value. */
    method Clear()
      requires Valid()
      modifies proxy.inner, this`log
      ensures Valid() && proxy == old(proxy)
      ensures Contents() == []
      ensures log == old(log) + [Notice([], handlers)]
    {
      proxy.Clear();
    }

    /** Insert, forwarded to Value. */
    method Insert(index: int, x: T) returns (r: Outcome)
      requires Valid()
      modifies proxy.inner, this`log
      ensures Valid() && proxy == old(proxy)
      ensures r.Done? <==> 0 <= index <= |old(Contents())|
      ensures r.Done? ==> Contents() == InsertAt(old(Contents()), index, x)
                          && log == old(log) + [Notice(Contents(), handlers)]
      ensures r.Failed? ==> r.error == ArgumentOutOfRange
                            && Contents() == old(Contents()) && log == old(log)
    {
      r := proxy.Insert(index, x);
    }

    /** Remove, forwarded to Value. */
    method Remove(x: T) returns (removed: bool)
      requires Valid()
      modifies proxy.inner, this`log
      ensures Valid() && proxy == old(proxy)
      ensures removed <==> x in old(Contents())
      ensures Contents() == RemoveFirst(old(Contents()), x)
      ensures removed ==> log == old(log) + [Notice(Contents(), handlers)]
      ensures !removed ==> log == old(log)
    {
      removed := proxy.Remove(x);
    }

    /** RemoveAt, forwarded to Value. */
    method RemoveAt(index: int) returns (r: Outcome)
      requires Valid()
      modifies proxy.inner, this`log
      ensures Valid() && proxy == old(proxy)
      ensures r.Done? <==> 0 <= index < |old(Contents())|
      ensures r.Done? ==> Contents() == DeleteAt(old(Contents()), index)
                          && log == old(log) + [Notice(Contents(), handlers)]
      ensures r.Failed? ==> r.error == ArgumentOutOfRange
                            && Contents() == old(Contents()) && log == old(log)
    {
      r := proxy.RemoveAt(index);
    }

    /** Equals(ObservableListModel<T>): true when every element of this list
        occurs somewhere in the other one. */
    method Equals(other: ListModel<T>) returns (r: bool)
      requires Valid() && other.Valid()
      ensures r <==> Contained(Contents(), other.Contents())
    {
      var items := proxy.inner.items;
      for i := 0 to |items|
        invariant forall j :: 0 <= j < i ==> items[j] in other.Contents()
      {
        if !other.proxy.Contains(items[i]) {
          return false;
        }
      }
      return true;
    }
  }

  /** Every element of xs occurs in ys. */
  predicate Contained<T(==)>(xs: seq<T>, ys: seq<T>) {
    forall i :: 0 <= i < |xs| ==> xs[i] in ys
  }

  /** Containment is inclusion of the element sets: order, multiplicity
      and extra elements of ys do not matter. */
  lemma ContainedIsSubset<T>(xs: seq<T>, ys: seq<T>)
    ensures Contained(xs, ys) <==> (set x | x in xs) <= (set y | y in ys)
  {
    var sx, sy := set x | x in xs, set y | y in ys;
    if sx <= sy {
      forall i | 0 <= i < |xs| ensures xs[i] in ys {
        assert xs[i] in sx;
      }
    }
  }

  /** The list Equals is not sequence equality: it holds between lists of
      different length and in one direction only. */
  lemma ContainedIsNotEquality()
    ensures Contained([1], [1, 2]) && !Contained([1, 2], [1])
    ensures Contained([1, 1], [1]) && Contained([1], [1, 1])
    ensures Contained([2, 1], [1, 2]) && [2, 1] != [1, 2]
  {
    assert [1, 2][1] == 2;
  }
}
