/** FloatObservableModel: a value model holding a float, with a string
    bridge that accepts ',' as well as '.' for the decimal separator. The
    parser (float.Parse with the invariant culture) is a library call and
    is passed in as a function. */
module FloatModels {
  import opened Wrappers
  import opened Numerics
  import opened Observable
  import Text

  /** Create: a fresh model whose initial and current value are both
      initialValue (0f when omitted). */
  method Create(initialValue: Float32 := Zero) returns (m: ValueModel<Float32>)
    ensures fresh(m) && m.Default == Zero
    ensures m.initial == initialValue && m.value == initialValue
    ensures m.handlers == [] && m.log == [Notice(initialValue, [])]
  {
    m := ValueModel.CreateInstance(Zero);
    m.initial := initialValue;
    m.SetValue(initialValue);
  }

  /** The text the setter hands to the parser: every ',' becomes '.'. */
  function NormalizeDecimal(text: string): (r: string)
    ensures |r| == |text| && ',' !in r
    ensures forall i :: 0 <= i < |text| && text[i] != ',' ==> r[i] == text[i]
    ensures forall i :: 0 <= i < |text| && text[i] == ',' ==> r[i] == '.'
  {
    Text.ReplaceChar(text, ',', '.')
  }

  /** Texts that differ only in using ',' or '.' at some positions are
      handed to the parser as the same text: "42,5" parses as "42.5". */
  lemma {:induction false} CommaOrPointSame(a: string, b: string)
    requires |a| == |b|
    requires forall i :: 0 <= i < |a| ==> a[i] == b[i] || (a[i] in ",." && b[i] in ",.")
    ensures NormalizeDecimal(a) == NormalizeDecimal(b)
  {
    var ra, rb := NormalizeDecimal(a), NormalizeDecimal(b);
    forall i | 0 <= i < |a| ensures ra[i] == rb[i] {
      if a[i] != b[i] {
        assert a[i] in ",." && b[i] in ",.";
      }
    }
  }

  /** The StringValue setter: `Value = float.Parse(text.Replace(",", "."))`.
      A parse failure propagates before anything is assigned. */
  method SetStringValue(m: ValueModel<Float32>, text: string, parse: string -> Option<Float32>)
    returns (r: Outcome)
    modifies m`value, m`log
    ensures parse(NormalizeDecimal(text)).Some? ==>
              r == Done && m.value == parse(NormalizeDecimal(text)).value
              && m.log == old(m.log) + [Notice(m.value, m.handlers)]
    ensures parse(NormalizeDecimal(text)).None? ==>
              r == Failed(Format) && m.value == old(m.value) && m.log == old(m.log)
  {
    match parse(NormalizeDecimal(text))
    case Some(f) =>
      m.SetValue(f);
      r := Done;
    case None =>
      r := Failed(Format);
  }

  /** After Create(v), whatever is assigned, ResetValue restores v. */
  method ResetRestoresCreatedValue(v: Float32, w: Float32) returns (m: ValueModel<Float32>)
    ensures m.value == v && m.initial == v
  {
    m := Create(v);
    m.SetValue(w);
    m.ResetValue();
  }
}
