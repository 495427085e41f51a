/** Vector2ObservableModel: a value model holding a Vector2, with a string
    bridge that tokenizes the text and parses the first two tokens. The
    float parser is a library call and is passed in as a function. */
module Vector2Models {
  import opened Wrappers
  import opened Numerics
  import opened Observable
  import opened Text

  /** Create: a fresh model whose initial and current value are both
      initialValue (Vector2.zero when omitted). */
  method Create(initialValue: Vector2 := Vector2Zero) returns (m: ValueModel<Vector2>)
    ensures fresh(m) && m.Default == Vector2Zero
    ensures m.initial == initialValue && m.value == initialValue
    ensures m.handlers == [] && m.log == [Notice(initialValue, [])]
  {
    m := ValueModel.CreateInstance(Vector2Zero);
    m.initial := initialValue;
    m.SetValue(initialValue);
  }

  /** The parse in the StringValue setter: x from token 0, then y from
      token 1, in that order; extra tokens are ignored. A token the parser
      rejects fails with Format, a missing token 1 with IndexOutOfRange. */
  function Parse(text: string, parse: string -> Option<Float32>): (r: Result<Vector2>)
    ensures var t := VectorTokens(text);
            r.Ok? <==> |t| >= 2 && parse(t[0]).Some? && parse(t[1]).Some?
    ensures var t := VectorTokens(text);
            r.Ok? ==> r.value == Vector2(parse(t[0]).value, parse(t[1]).value)
    ensures var t := VectorTokens(text);
            r.Err? ==> r.error == (if parse(t[0]).Some? && |t| < 2 then IndexOutOfRange else Format)
  {
    var t := VectorTokens(text);
    match parse(t[0])
    case None => Err(Format)
    case Some(x) =>
      if |t| < 2 then Err(IndexOutOfRange)
      else
        match parse(t[1])
        case None => Err(Format)
        case Some(y) => Ok(Vector2(x, y))
  }

  /** The StringValue setter: on a successful parse, one assignment and so
      one notification; on a failure, no change and no notification. */
  method SetStringValue(m: ValueModel<Vector2>, text: string, parse: string -> Option<Float32>)
    returns (r: Outcome)
    modifies m`value, m`log
    ensures Parse(text, parse).Ok? ==>
              r == Done && m.value == Parse(text, parse).value
              && m.log == old(m.log) + [Notice(m.value, m.handlers)]
    ensures Parse(text, parse).Err? ==>
              r == Failed(Parse(text, parse).error) && m.value == old(m.value) && m.log == old(m.log)
  {
    match Parse(text, parse)
    case Ok(v) =>
      m.SetValue(v);
      r := Done;
    case Err(e) =>
      r := Failed(e);
  }

  /** Text with neither ',' nor ' ' left after stripping is one token,
      and a single token never parses. */
  lemma OneTokenFails(text: string, parse: string -> Option<Float32>)
    requires ',' !in StripParentheses(text) && ' ' !in StripParentheses(text)
    ensures Parse(text, parse).Err?
  {
    VectorTokensCount(text);
    var t := StripParentheses(text);
    assert multiset(t)[','] == 0 && multiset(t)[' '] == 0;
  }

  /** Text written as "a,b", with or without surrounding parentheses, is
      read back as the tokens a and b, whatever the parser does with them. */
  lemma CommaPairTokens(a: string, b: string)
    requires ',' !in a && '(' !in a && ')' !in a
    requires ',' !in b && '(' !in b && ')' !in b
    ensures VectorTokens(a + [','] + b) == [a, b]
    ensures VectorTokens("(" + (a + [','] + b) + ")") == [a, b]
  {
    assert Join([a, b], ',') == a + [','] + b by {
      assert [a, b][1..] == [b];
    }
    CommaJoinTokens([a, b]);
  }

  /** A pair written as "a,b" parses to the vector of the two parses. */
  lemma CommaPairParses(a: string, b: string, parse: string -> Option<Float32>)
    requires ',' !in a && '(' !in a && ')' !in a
    requires ',' !in b && '(' !in b && ')' !in b
    requires parse(a).Some? && parse(b).Some?
    ensures Parse(a + [','] + b, parse) == Ok(Vector2(parse(a).value, parse(b).value))
  {
    CommaPairTokens(a, b);
  }
}
