/** The System.String operations the string bridges use, with `char`
    arguments: Replace of one character by another, Replace of a character by
    the empty string, Contains and Split. */
module Text {
  import Sequences

  /** s.Replace(from, to) for one-character strings: every `from` becomes `to`. */
  function ReplaceChar(s: string, from: char, to: char): (r: string)
    ensures |r| == |s|
    ensures forall i :: 0 <= i < |s| ==> r[i] == if s[i] == from then to else s[i]
  {
    if s == [] then []
    else [if s[0] == from then to else s[0]] + ReplaceChar(s[1..], from, to)
  }

  /** After the replacement no `from` is left, unless it is also `to`. */
  lemma ReplaceCharRemovesAll(s: string, from: char, to: char)
    requires from != to
    ensures from !in ReplaceChar(s, from, to)
  {
  }

  /** s.Replace(c, ""): every occurrence of c is dropped, the other
      characters keep their order. */
  function RemoveChar(s: string, c: char): (r: string)
    ensures c !in r
    ensures forall d :: d in r ==> d in s
  {
    if s == [] then []
    else (if s[0] == c then [] else [s[0]]) + RemoveChar(s[1..], c)
  }

  /** Exactly the occurrences of c go: every other character is kept as
      often as it occurs. */
  lemma {:induction false} RemoveCharCounts(s: string, c: char)
    ensures |RemoveChar(s, c)| == |s| - multiset(s)[c]
    ensures forall d :: d != c ==> multiset(RemoveChar(s, c))[d] == multiset(s)[d]
  {
    if s != [] {
      RemoveCharCounts(s[1..], c);
      assert s == [s[0]] + s[1..];
    }
  }

  /** Removal distributes over concatenation, so the characters other than
      c keep their relative order. */
  lemma {:induction false} RemoveCharAppend(a: string, b: string, c: char)
    ensures RemoveChar(a + b, c) == RemoveChar(a, c) + RemoveChar(b, c)
  {
    if a == [] {
      assert a + b == b;
    } else {
      var ab := a + b;
      assert ab[0] == a[0];
      assert ab[1..] == a[1..] + b;
      RemoveCharAppend(a[1..], b, c);
      var h: string := if a[0] == c then [] else [a[0]];
      calc {
        RemoveChar(ab, c);
        h + RemoveChar(ab[1..], c);
        h + (RemoveChar(a[1..], c) + RemoveChar(b, c));
        (h + RemoveChar(a[1..], c)) + RemoveChar(b, c);
      }
    }
  }

  /** Text without c is left as it is. */
  lemma {:induction false} RemoveCharAbsent(s: string, c: char)
    requires c !in s
    ensures RemoveChar(s, c) == s
  {
    if s != [] {
      RemoveCharAbsent(s[1..], c);
    }
  }

  /** value.Replace("(", "").Replace(")", ""): parentheses are dropped
      wherever they occur, not only at the ends. */
  function StripParentheses(s: string): (r: string)
    ensures '(' !in r && ')' !in r
  {
    RemoveChar(RemoveChar(s, '('), ')')
  }

  /** Stripping twice is stripping once. */
  lemma StripParenthesesIdempotent(s: string)
    ensures StripParentheses(StripParentheses(s)) == StripParentheses(s)
  {
    var t := StripParentheses(s);
    RemoveCharAbsent(t, '(');
    RemoveCharAbsent(t, ')');
  }

  /** s.Split(sep): the pieces between separators, empty pieces included;
      text without the separator is one piece. */
  function Split(s: string, sep: char): (r: seq<string>)
    ensures |r| >= 1
    decreases |s|
  {
    var k := Sequences.FirstIndex(s, sep);
    if k == -1 then [s] else [s[..k]] + Split(s[k + 1..], sep)
  }

  /** string.Join(sep, parts): the inverse of Split. */
  function Join(parts: seq<string>, sep: char): string
    requires |parts| >= 1
  {
    if |parts| == 1 then parts[0] else parts[0] + [sep] + Join(parts[1..], sep)
  }

  /** One step of Split on text that holds the separator: the piece before
      its first occurrence, then the split of the rest. */
  lemma SplitStep(s: string, sep: char)
    requires sep in s
    ensures var k := Sequences.FirstIndex(s, sep);
            0 <= k < |s| && s == s[..k] + [sep] + s[k + 1..]
            && Split(s, sep) == [s[..k]] + Split(s[k + 1..], sep)
  {
    var k := Sequences.FirstIndex(s, sep);
    Sequences.Around(s, k);
    SplitUnfold(s, sep);
  }

  /** Text without the separator is one piece. */
  lemma SplitWhole(s: string, sep: char)
    requires sep !in s
    ensures Split(s, sep) == [s]
  {
  }

  /** Split unfolded once at the first separator. */
  lemma SplitUnfold(s: string, sep: char)
    requires sep in s
    ensures var k := Sequences.FirstIndex(s, sep);
            0 <= k && Split(s, sep) == [s[..k]] + Split(s[k + 1..], sep)
  {
  }

  /** Joining the pieces of a split gives the text back. */
  lemma {:induction false} JoinSplit(s: string, sep: char)
    ensures Join(Split(s, sep), sep) == s
    decreases |s|
  {
    if sep in s {
      var k := Sequences.FirstIndex(s, sep);
      SplitStep(s, sep);
      JoinSplit(s[k + 1..], sep);
      JoinCons(s[..k], Split(s[k + 1..], sep), sep);
    }
  }

  /** Join of a piece followed by at least one more piece. */
  lemma JoinCons(a: string, rest: seq<string>, sep: char)
    requires |rest| >= 1
    ensures Join([a] + rest, sep) == a + [sep] + Join(rest, sep)
  {
    assert ([a] + rest)[1..] == rest;
  }

  /** A separator-free piece followed by the separator splits off first. */
  lemma SplitCons(a: string, sep: char, rest: string)
    requires sep !in a
    ensures Split(a + [sep] + rest, sep) == [a] + Split(rest, sep)
  {
    var s := a + [sep] + rest;
    assert s[|a|] == sep && s[..|a|] == a && s[|a| + 1..] == rest;
    assert Sequences.FirstIndex(s, sep) == |a|;
  }

  /** Splitting a join of separator-free pieces gives the pieces back. */
  lemma {:induction false} SplitJoin(parts: seq<string>, sep: char)
    requires |parts| >= 1
    requires forall i :: 0 <= i < |parts| ==> sep !in parts[i]
    ensures Split(Join(parts, sep), sep) == parts
  {
    if |parts| > 1 {
      SplitJoin(parts[1..], sep);
      SplitCons(parts[0], sep, Join(parts[1..], sep));
      assert parts == [parts[0]] + parts[1..];
    }
  }

  /** Split yields one piece more than there are separators. */
  lemma {:induction false} SplitCount(s: string, sep: char)
    ensures |Split(s, sep)| == multiset(s)[sep] + 1
    decreases |s|
  {
    if sep in s {
      var k := Sequences.FirstIndex(s, sep);
      SplitStep(s, sep);
      SplitCount(s[k + 1..], sep);
      var a, b := s[..k], s[k + 1..];
      assert sep !in a;
      assert multiset(s) == multiset(a) + multiset{sep} + multiset(b) by {
        assert s == a + [sep] + b;
      }
    } else {
      assert multiset(s)[sep] == 0;
    }
  }

  /** The tokens the vector StringValue setters read: parentheses stripped,
      then split on ',' when there is one, on single ' ' otherwise. */
  function VectorTokens(text: string): (r: seq<string>)
    ensures |r| >= 1
    ensures forall i :: 0 <= i < |r| ==> '(' !in r[i] && ')' !in r[i]
  {
    var t := StripParentheses(text);
    var r := SplitTokens(t);
    forall i | 0 <= i < |r| ensures '(' !in r[i] && ')' !in r[i] {
      assert multiset(t)['('] == 0 && multiset(t)[')'] == 0;
    }
    r
  }

  /** The split of already stripped text: on ',' if it has one, else on ' '. */
  function SplitTokens(t: string): (r: seq<string>)
    ensures |r| >= 1
    ensures forall i :: 0 <= i < |r| ==> multiset(r[i]) <= multiset(t)
  {
    var sep := if ',' in t then ',' else ' ';
    var r := Split(t, sep);
    forall i | 0 <= i < |r| ensures multiset(r[i]) <= multiset(t) {
      SplitPieceWithin(t, sep, i);
    }
    r
  }

  /** Parentheses around the text are stripped like any others. */
  lemma StripParenthesesAround(s: string)
    ensures StripParentheses("(" + s + ")") == StripParentheses(s)
  {
    var open, close: string := "(", ")";
    assert open + s + close == open + (s + close);
    RemoveCharAppend(open, s + close, '(');
    RemoveCharAppend(s, close, '(');
    assert RemoveChar(open, '(') == [];
    assert RemoveChar(close, '(') == close;
    var t := RemoveChar(s, '(');
    assert RemoveChar(open + s + close, '(') == t + close;
    RemoveCharAppend(t, close, ')');
    assert RemoveChar(close, ')') == [];
    assert t + [] == t;
  }

  /** Parentheses around the text do not change its tokens. */
  lemma ParenthesesIgnored(s: string)
    ensures VectorTokens("(" + s + ")") == VectorTokens(s)
  {
    StripParenthesesAround(s);
  }

  /** Text without parentheses that contains a ',' is split on ','. */
  lemma TokensOfPlainCommaText(s: string)
    requires '(' !in s && ')' !in s && ',' in s
    ensures VectorTokens(s) == Split(s, ',')
  {
    RemoveCharAbsent(s, '(');
    RemoveCharAbsent(s, ')');
  }

  /** A character that is neither the separator nor in any piece is not in
      their join. */
  lemma {:induction false} JoinAvoids(parts: seq<string>, sep: char, c: char)
    requires |parts| >= 1 && c != sep
    requires forall i :: 0 <= i < |parts| ==> c !in parts[i]
    ensures c !in Join(parts, sep)
  {
    if |parts| > 1 {
      JoinAvoids(parts[1..], sep, c);
    }
  }

  /** Two or more pieces free of ',' and parentheses, written joined by ','
      (with or without surrounding parentheses), are read back as those
      pieces. */
  lemma CommaJoinTokens(parts: seq<string>)
    requires |parts| >= 2
    requires forall i :: 0 <= i < |parts| ==> ',' !in parts[i] && '(' !in parts[i] && ')' !in parts[i]
    ensures VectorTokens(Join(parts, ',')) == parts
    ensures VectorTokens("(" + Join(parts, ',') + ")") == parts
  {
    var s := Join(parts, ',');
    JoinAvoids(parts, ',', '(');
    JoinAvoids(parts, ',', ')');
    assert s[|parts[0]|] == ',';
    TokensOfPlainCommaText(s);
    SplitJoin(parts, ',');
    ParenthesesIgnored(s);
  }

  /** No piece of a split holds the separator. */
  lemma {:induction false} SplitPieceAvoids(s: string, sep: char, i: nat)
    requires i < |Split(s, sep)|
    ensures sep !in Split(s, sep)[i]
    decreases |s|
  {
    if sep in s {
      var k := Sequences.FirstIndex(s, sep);
      SplitUnfold(s, sep);
      if i == 0 {
        Sequences.BeforeFirst(s, sep);
        assert Split(s, sep)[i] == s[..k];
      } else {
        SplitPieceAvoids(s[k + 1..], sep, i - 1);
        assert Split(s, sep)[i] == Split(s[k + 1..], sep)[i - 1];
      }
    } else {
      SplitWhole(s, sep);
    }
  }

  /** Every piece of a split is made of characters of the text, each at
      most as often as in the text. */
  lemma {:induction false} SplitPieceWithin(s: string, sep: char, i: nat)
    requires i < |Split(s, sep)|
    ensures multiset(Split(s, sep)[i]) <= multiset(s)
    decreases |s|
  {
    if sep in s {
      var k := Sequences.FirstIndex(s, sep);
      var rest := s[k + 1..];
      SplitUnfold(s, sep);
      Sequences.MultisetAround(s, k);
      if i == 0 {
        assert Split(s, sep)[i] == s[..k];
      } else {
        SplitPieceWithin(rest, sep, i - 1);
        assert Split(s, sep)[i] == Split(rest, sep)[i - 1];
      }
    } else {
      SplitWhole(s, sep);
    }
  }

  /** The number of tokens: one more than the number of separators left
      after stripping, where the separator is ',' if any is left and ' '
      otherwise. */
  lemma VectorTokensCount(text: string)
    ensures var t := StripParentheses(text);
            |VectorTokens(text)| == 1 + (if ',' in t then multiset(t)[','] else multiset(t)[' '])
  {
    var t := StripParentheses(text);
    SplitCount(t, ',');
    SplitCount(t, ' ');
  }
}
