/** ObservableModel<T>: a box holding a current and an initial value that
    raises OnValueChanged on every assignment. */
module Observable {
  import opened Wrappers
  import Sequences

  /** A subscribed handler, by identity. */
  type HandlerId = nat

  /** One raising of OnValueChanged: the value passed to the handlers and
      the handlers invoked, in invocation order. With no receivers the
      `?.Invoke` calls nobody. */
  datatype Notice<T> = Notice(value: T, receivers: seq<HandlerId>)

  /** `event -= handler` on a multicast delegate: the LAST occurrence of the
      handler in the invocation list goes; a handler that is not subscribed
      leaves the list as it is. */
  function RemoveLast(hs: seq<HandlerId>, h: HandlerId): (r: seq<HandlerId>)
    ensures h !in hs ==> r == hs
    ensures h in hs ==> |r| == |hs| - 1
  {
    if hs == [] then []
    else
      assert hs == hs[..|hs| - 1] + [hs[|hs| - 1]];
      if hs[|hs| - 1] == h then hs[..|hs| - 1]
      else RemoveLast(hs[..|hs| - 1], h) + [hs[|hs| - 1]]
  }

  /** `-=` drops exactly the last occurrence of the handler: the handlers
      before it and after it stay, in their order. */
  lemma {:induction false} RemoveLastDropsLastOccurrence(hs: seq<HandlerId>, h: HandlerId) returns (k: nat)
    requires h in hs
    ensures k < |hs| && hs[k] == h && h !in hs[k + 1..]
    ensures RemoveLast(hs, h) == hs[..k] + hs[k + 1..]
  {
    var n := |hs| - 1;
    RemoveLastUnfold(hs, h);
    if hs[n] == h {
      k := n;
      assert hs[k + 1..] == [];
    } else {
      var init := hs[..n];
      assert h in init by {
        var i :| 0 <= i < |hs| && hs[i] == h;
        assert init[i] == h;
      }
      k := RemoveLastDropsLastOccurrence(init, h);
      Sequences.CutBeforeLast(hs, k);
    }
  }

  /** `-=` takes exactly one copy of the handler out of the invocation list
      and leaves the count of every other handler as it was. */
  lemma RemoveLastMultiset(hs: seq<HandlerId>, h: HandlerId)
    requires h in hs
    ensures multiset(RemoveLast(hs, h)) == multiset(hs) - multiset{h}
  {
    var k := RemoveLastDropsLastOccurrence(hs, h);
    Sequences.MultisetAround(hs, k);
  }

  /** RemoveLast looks at the last handler first. */
  lemma RemoveLastUnfold(hs: seq<HandlerId>, h: HandlerId)
    requires hs != []
    ensures var n := |hs| - 1;
            RemoveLast(hs, h) == if hs[n] == h then hs[..n] else RemoveLast(hs[..n], h) + [hs[n]]
  {
  }

  /** A handler subscribed once and then unsubscribed receives nothing more. */
  lemma UnsubscribedOnceIsGone(hs: seq<HandlerId>, h: HandlerId)
    requires multiset(hs)[h] == 1
    ensures h !in RemoveLast(hs, h)
  {
    assert h in multiset(hs);
    RemoveLastMultiset(hs, h);
    var r: seq<HandlerId> := RemoveLast(hs, h);
    var ms: multiset<HandlerId> := multiset(r);
    assert ms[h] == 0;
  }

  /** Subscribing then unsubscribing the same handler restores the list. */
  lemma {:induction false} SubscribeUnsubscribe(hs: seq<HandlerId>, h: HandlerId)
    ensures RemoveLast(hs + [h], h) == hs
  {
    assert (hs + [h])[..|hs + [h]| - 1] == hs;
  }

  /** An object reference the untyped Equals overloads receive. */
  datatype Ref<T> =
    | ModelOfT(model: ValueModel<T>)   // an ObservableModel<T>
    | ModelOfOtherType                 // an ObservableModel of another element type
    | NotAModel                        // anything else, null included
  {
    function Objects(): set<object> {
      if ModelOfT? then {model} else {}
    }
  }

  /** A value boxed as `object`, as ObjectValue receives it. */
  datatype Boxed<T> = OfType(v: T) | OfOtherType | Null

  class ValueModel<T(==)> {
    /** default(T): what CreateInstance leaves in both value fields. */
    const Default: T
    /** _value, the current value. */
    var value: T
    /** _initialValue, the value ResetValue restores. */
    var initial: T
    /** The invocation list of OnValueChanged. */
    var handlers: seq<HandlerId>
    /** Every raising of OnValueChanged, oldest first. */
    ghost var log: seq<Notice<T>>

    /** The fields as the engine allocates them, before any engine callback. */
    constructor (dflt: T)
      ensures Default == dflt && value == dflt && initial == dflt
      ensures handlers == [] && log == []
    {
      Default := dflt;
      value, initial := dflt, dflt;
      handlers, log := [], [];
    }

    /** CreateInstance: allocate, then the engine's OnEnable callback (Awake
        is not overridden by ObservableModel<T>). */
    static method CreateInstance(dflt: T) returns (m: ValueModel<T>)
      ensures fresh(m)
      ensures m.Default == dflt && m.value == dflt && m.initial == dflt
      ensures m.handlers == [] && m.log == []
    {
      m := new ValueModel(dflt);
      m.OnEnable();
    }

    /** `OnValueChanged += h`. */
    method Subscribe(h: HandlerId)
      modifies this`handlers
      ensures handlers == old(handlers) + [h]
    {
      handlers := handlers + [h];
    }

    /** `OnValueChanged -= h`. */
    method Unsubscribe(h: HandlerId)
      modifies this`handlers
      ensures handlers == RemoveLast(old(handlers), h)
    {
      handlers := RemoveLast(handlers, h);
    }

    /** The Value setter: stores v and raises the event with v, whether or
        not v differs from the old value. */
    method SetValue(v: T)
      modifies this`value, this`log
      ensures value == v
      ensures log == old(log) + [Notice(v, handlers)]
    {
      value := v;
      log := log + [Notice(v, handlers)];
    }

    /** Assigns the initial value through the setter. */
    method ResetValue()
      modifies this`value, this`log
      ensures value == initial
      ensures log == old(log) + [Notice(initial, handlers)]
    {
      SetValue(initial);
    }

    /** The repair step the engine runs on enable: reset when the initial
        value is not the default and the current value is. */
    method OnEnable()
      modifies this`value, this`log
      ensures initial != Default && old(value) == Default ==>
                value == initial && log == old(log) + [Notice(initial, handlers)]
      ensures !(initial != Default && old(value) == Default) ==>
                value == old(value) && log == old(log)
    {
      if initial != Default && value == Default {
        ResetValue();
      }
    }

    /** ObjectValue's getter: the value, boxed. */
    function ObjectValue(): (r: Boxed<T>)
      reads this
      ensures r.OfType? && r.v == value
    {
      OfType(value)
    }

    /** ObjectValue's setter: `Value = (T)o`. The cast fails on an object
        of another type and on null (every T modelled here is a value
        type), and then nothing is assigned. */
    method SetObjectValue(o: Boxed<T>) returns (r: Outcome)
      modifies this`value, this`log
      ensures o.OfType? ==> r == Done && value == o.v && ObjectValue() == o
                            && log == old(log) + [Notice(o.v, handlers)]
      ensures o.OfOtherType? ==> r == Failed(InvalidCast) && value == old(value) && log == old(log)
      ensures o.Null? ==> r == Failed(NullReference) && value == old(value) && log == old(log)
    {
      match o
      case OfType(v) =>
        SetValue(v);
        r := Done;
      case OfOtherType =>
        r := Failed(InvalidCast);
      case Null =>
        r := Failed(NullReference);
    }

    /** Equals(ObservableModel<T>): default equality of the current values. */
    predicate Equals(other: ValueModel<T>)
      reads this, other
      ensures Equals(other) <==> other.EqualsValue(value)
    {
      value == other.value
    }

    /** Equals(T): the current value against a bare value. */
    predicate EqualsValue(v: T)
      reads this
      ensures EqualsValue(v) <==> ObjectValue() == OfType(v)
    {
      value == v
    }

    /** Equals(ObservableModel): only a model of the same element type can
        be equal. */
    predicate EqualsModel(other: Ref<T>)
      reads this, other.Objects()
      ensures EqualsModel(other) <==> other.ModelOfT? && other.model.EqualsValue(value)
    {
      match other
      case ModelOfT(m) => Equals(m)
      case ModelOfOtherType => false
      case NotAModel => false
    }

    /** Equals(object): base.Equals(other), which dispatches to
        EqualsModel when other is a model, and a type test. */
    predicate EqualsObject(other: Ref<T>)
      reads this, other.Objects()
      ensures EqualsObject(other) <==> EqualsModel(other)
    {
      (other.ModelOfT? || other.ModelOfOtherType?) && EqualsModel(other)
        && other.ModelOfT? && Equals(other.model)
    }
  }

  /** `a == b` on two models. */
  predicate OpEq<T(==)>(a: ValueModel<T>, b: ValueModel<T>)
    reads a, b
    ensures OpEq(a, b) <==> b.Equals(a)
  {
    a.Equals(b)
  }

  /** `a != b` on two models. */
  predicate OpNeq<T(==)>(a: ValueModel<T>, b: ValueModel<T>)
    reads a, b
    ensures OpNeq(a, b) <==> !OpEq(a, b)
  {
    !a.Equals(b)
  }

  /** `a == b` with a bare value on the right. */
  predicate OpEqValue<T(==)>(a: ValueModel<T>, b: T)
    reads a
    ensures OpEqValue(a, b) <==> OpValueEq(b, a)
  {
    a.EqualsValue(b)
  }

  /** `a != b` with a bare value on the right. */
  predicate OpNeqValue<T(==)>(a: ValueModel<T>, b: T)
    reads a
    ensures OpNeqValue(a, b) <==> !OpEqValue(a, b)
  {
    !a.EqualsValue(b)
  }

  /** `a == b` with a bare value on the left. */
  predicate OpValueEq<T(==)>(a: T, b: ValueModel<T>)
    reads b
    ensures OpValueEq(a, b) <==> b.ObjectValue() == OfType(a)
  {
    b.EqualsValue(a)
  }

  /** `a != b` with a bare value on the left. */
  predicate OpValueNeq<T(==)>(a: T, b: ValueModel<T>)
    reads b
    ensures OpValueNeq(a, b) <==> !OpValueEq(a, b)
  {
    !b.EqualsValue(a)
  }

  /** Model equality is value equality, `==` agrees with it and `!=` is its
      negation; comparing with a model is comparing with its value. */
  lemma ModelEqualityIsValueEquality<T>(a: ValueModel<T>, b: ValueModel<T>)
    ensures a.Equals(b) <==> a.value == b.value
    ensures OpEq(a, b) <==> a.Equals(b)
    ensures OpNeq(a, b) <==> !OpEq(a, b)
    ensures a.Equals(b) <==> a.EqualsValue(b.value)
  {
  }

  /** The mixed operators agree with Equals(T) in both argument orders. */
  lemma MixedOperatorsAgree<T>(a: ValueModel<T>, v: T)
    ensures OpEqValue(a, v) <==> a.value == v
    ensures OpValueEq(v, a) <==> OpEqValue(a, v)
    ensures OpNeqValue(a, v) <==> !OpEqValue(a, v)
    ensures OpValueNeq(v, a) <==> !OpValueEq(v, a)
  {
  }

  /** Model equality is an equivalence: reflexive, symmetric, transitive. */
  lemma ModelEqualityIsEquivalence<T>(a: ValueModel<T>, b: ValueModel<T>, c: ValueModel<T>)
    ensures a.Equals(a)
    ensures a.Equals(b) ==> b.Equals(a)
    ensures a.Equals(b) && b.Equals(c) ==> a.Equals(c)
  {
  }

  /** The untyped overloads: a model of another element type, or any other
      object, is never equal; a model of the same type is equal exactly when
      Equals(ObservableModel<T>) says so. Equals(object) and
      Equals(ObservableModel) agree on every argument. */
  lemma UntypedEqualsAgree<T>(a: ValueModel<T>, other: Ref<T>)
    ensures !other.ModelOfT? ==> !a.EqualsModel(other) && !a.EqualsObject(other)
    ensures other.ModelOfT? ==> (a.EqualsModel(other) <==> a.value == other.model.value)
    ensures a.EqualsObject(other) <==> a.EqualsModel(other)
  {
  }
}
