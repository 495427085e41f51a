/** Vector3ObservableModel: a value model holding a Vector3, with a string
    bridge that tokenizes the text and parses the first three tokens. The
    float parser is a library call and is passed in as a function. */
module Vector3Models {
  import opened Wrappers
  import opened Numerics
  import opened Observable
  import opened Text

  /** Create: a fresh model whose initial and current value are both
      initialValue (Vector3.zero when omitted). */
  method Create(initialValue: Vector3 := Vector3Zero) returns (m: ValueModel<Vector3>)
    ensures fresh(m) && m.Default == Vector3Zero
    ensures m.initial == initialValue && m.value == initialValue
    ensures m.handlers == [] && m.log == [Notice(initialValue, [])]
  {
    m := ValueModel.CreateInstance(Vector3Zero);
    m.initial := initialValue;
    m.SetValue(initialValue);
  }

  /** The parse in the StringValue setter: x from token 0, y from token 1,
      z from token 2, each token read just before it is parsed; extra tokens
      are ignored. A token the parser rejects fails with Format, a missing
      token with IndexOutOfRange, whichever comes first. */
  function Parse(text: string, parse: string -> Option<Float32>): (r: Result<Vector3>)
    ensures var t := VectorTokens(text);
            r.Ok? <==> |t| >= 3 && parse(t[0]).Some? && parse(t[1]).Some? && parse(t[2]).Some?
    ensures var t := VectorTokens(text);
            r.Ok? ==> r.value == Vector3(parse(t[0]).value, parse(t[1]).value, parse(t[2]).value)
    ensures var t := VectorTokens(text);
            r == Err(IndexOutOfRange) <==>
              parse(t[0]).Some? && (|t| < 2 || (parse(t[1]).Some? && |t| < 3))
    ensures var t := VectorTokens(text);
            r == Err(Format) <==>
              parse(t[0]).None? || (|t| >= 2 && (parse(t[1]).None? || (|t| >= 3 && parse(t[2]).None?)))
  {
    var t := VectorTokens(text);
    match parse(t[0])
    case None => Err(Format)
    case Some(x) =>
      if |t| < 2 then Err(IndexOutOfRange)
      else
        match parse(t[1])
        case None => Err(Format)
        case Some(y) =>
          if |t| < 3 then Err(IndexOutOfRange)
          else
            match parse(t[2])
            case None => Err(Format)
            case Some(z) => Ok(Vector3(x, y, z))
  }

  /** The StringValue setter: on a successful parse, one assignment and so
      one notification; on a failure, no change and no notification. */
  method SetStringValue(m: ValueModel<Vector3>, text: string, parse: string -> Option<Float32>)
    returns (r: Outcome)
    modifies m`value, m`log
    ensures Parse(text, parse).Ok? ==>
              r == Done && m.value == Parse(text, parse).value
              && m.log == old(m.log) + [Notice(m.value, m.handlers)]
    ensures Parse(text, parse).Err? ==>
              r == Failed(Parse(text, parse).error) && m.value == old(m.value) && m.log == old(m.log)
  {
    match Parse(text, parse)
    case Ok(v) =>
      m.SetValue(v);
      r := Done;
    case Err(e) =>
      r := Failed(e);
  }

  /** Text written as "a,b,c", with or without surrounding parentheses,
      parses to the vector of the three parses. */
  lemma CommaTripleParses(a: string, b: string, c: string, parse: string -> Option<Float32>)
    requires ',' !in a && '(' !in a && ')' !in a
    requires ',' !in b && '(' !in b && ')' !in b
    requires ',' !in c && '(' !in c && ')' !in c
    requires parse(a).Some? && parse(b).Some? && parse(c).Some?
    ensures var s := a + [','] + b + [','] + c;
            Parse(s, parse) == Ok(Vector3(parse(a).value, parse(b).value, parse(c).value))
            && Parse("(" + s + ")", parse) == Parse(s, parse)
  {
    assert Join([a, b, c], ',') == a + [','] + b + [','] + c by {
      assert [a, b, c][1..] == [b, c];
      assert [b, c][1..] == [c];
      assert Join([b, c], ',') == b + [','] + c;
      assert Join([a, b, c], ',') == a + [','] + (b + [','] + c);
    }
    CommaJoinTokens([a, b, c]);
  }

  /** Text written as "a,b" has only two tokens, so it never parses: either
      a token is rejected or token 2 is missing. */
  lemma PairIsNotAVector3(a: string, b: string, parse: string -> Option<Float32>)
    requires ',' !in a && '(' !in a && ')' !in a
    requires ',' !in b && '(' !in b && ')' !in b
    ensures Parse(a + [','] + b, parse).Err?
  {
    assert Join([a, b], ',') == a + [','] + b by {
      assert [a, b][1..] == [b];
    }
    CommaJoinTokens([a, b]);
  }
}
