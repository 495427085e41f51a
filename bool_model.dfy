/** BoolObservableModel: a value model holding a bool. */
module BoolModels {
  import opened Observable

  /** Create: a fresh model whose initial and current value are both
      initialValue (false when omitted); the assignment raises the event
      once, with no subscriber yet. */
  method Create(initialValue: bool := false) returns (m: ValueModel<bool>)
    ensures fresh(m) && m.Default == false
    ensures m.initial == initialValue && m.value == initialValue
    ensures m.handlers == [] && m.log == [Notice(initialValue, [])]
  {
    m := ValueModel.CreateInstance(false);
    m.initial := initialValue;
    m.SetValue(initialValue);
  }

  /** Whatever is assigned after Create(v), ResetValue brings back v. */
  method ResetRestoresCreatedValue(v: bool, w: bool) returns (m: ValueModel<bool>)
    ensures m.value == v && m.initial == v
  {
    m := Create(v);
    m.SetValue(w);
    m.ResetValue();
  }

  /** Two fresh models are equal; after one is set to true they are not,
      and the operators say the same. */
  method EqualityOfFreshModels() returns (m1: ValueModel<bool>, m2: ValueModel<bool>)
    ensures m1 != m2 && m1.value && !m2.value
    ensures !m1.Equals(m2) && !OpEq(m1, m2) && OpNeq(m1, m2)
  {
    m1 := Create();
    m2 := Create();
    assert m1.Equals(m2) && OpEq(m1, m2) && !OpNeq(m1, m2);
    m1.SetValue(true);
  }

  /** A subscriber receives the assigned value; after unsubscribing it is
      no longer among the receivers. */
  method SubscribeThenUnsubscribe(h: HandlerId) returns (m: ValueModel<bool>)
    ensures |m.log| == 3
    ensures m.log[1] == Notice(true, [h])
    ensures m.log[2] == Notice(true, [])
  {
    m := Create();
    m.Subscribe(h);
    m.SetValue(true);
    m.Unsubscribe(h);
    SubscribeUnsubscribe([], h);
    m.SetValue(true);
  }

  /** Setting ObjectValue assigns Value; reading it returns Value boxed. */
  method ObjectValueBridge() returns (m: ValueModel<bool>)
    ensures m.value && m.ObjectValue() == OfType(true)
  {
    m := Create();
    var r := m.SetObjectValue(OfType(true));
  }
}
