/** Counting the parentheses of a statement that stand outside its quoted parts. */
module ParenScan {
  import opened Prelude
  import opened SqlText

  /** Inside which quote, at which depth, and the lowest depth met so far. */
  datatype Scan = Scan(quote: Option<char>, depth: int, low: int)

  function Advance(st: Scan, c: char): Scan {
    if st.quote.Some? then if c == st.quote.value then st.(quote := None) else st
    else if c == '\'' || c == '"' then st.(quote := Some(c))
    else if c == '(' then st.(depth := st.depth + 1)
    else if c == ')' then st.(depth := st.depth - 1, low := if st.depth - 1 < st.low then st.depth - 1 else st.low)
    else st
  }

  function ScanText(st: Scan, s: string): Scan {
    if s == "" then st else Advance(ScanText(st, s[..|s| - 1]), s[|s| - 1])
  }

  lemma {:induction false} ScanConcat(st: Scan, a: string, b: string)
    ensures ScanText(st, a + b) == ScanText(ScanText(st, a), b)
  {
    if b == "" {
      assert a + b == a;
    } else {
      ScanConcat(st, a, b[..|b| - 1]);
      assert (a + b)[..|a + b| - 1] == a + b[..|b| - 1];
    }
  }

  lemma ScanAppend(st: Scan, s: string, c: char)
    ensures ScanText(st, s + [c]) == Advance(ScanText(st, s), c)
  {
    assert (s + [c])[..|s|] == s;
  }

  lemma ScanChar(st: Scan, c: char)
    ensures ScanText(st, [c]) == Advance(st, c)
  {
    assert [c][..0] == "";
  }

  /** `s` closes every parenthesis and quote it opens, and opens before it closes. */
  ghost predicate Neutral(s: string) {
    forall d: int, low: int :: low <= d ==> ScanText(Scan(None, d, low), s) == Scan(None, d, low)
  }

  predicate IsPlain(c: char) {
    c != '(' && c != ')' && c != '\'' && c != '"'
  }

  lemma {:induction false} ScanPlain(st: Scan, s: string)
    requires st.quote.None? && AllChars(IsPlain, s)
    ensures ScanText(st, s) == st
  {
    if s != "" {
      ScanPlain(st, s[..|s| - 1]);
      assert IsPlain(s[|s| - 1]);
    }
  }

  lemma PlainNeutral(s: string)
    requires AllChars(IsPlain, s)
    ensures Neutral(s)
  {
    forall d: int, low: int | low <= d
      ensures ScanText(Scan(None, d, low), s) == Scan(None, d, low)
    {
      ScanPlain(Scan(None, d, low), s);
    }
  }

  lemma NeutralConcat(a: string, b: string)
    requires Neutral(a) && Neutral(b)
    ensures Neutral(a + b)
  {
    forall d: int, low: int | low <= d
      ensures ScanText(Scan(None, d, low), a + b) == Scan(None, d, low)
    {
      ScanConcat(Scan(None, d, low), a, b);
    }
  }

  lemma NeutralParens(a: string)
    requires Neutral(a)
    ensures Neutral("(" + a + ")")
  {
    forall d: int, low: int | low <= d
      ensures ScanText(Scan(None, d, low), "(" + a + ")") == Scan(None, d, low)
    {
      ScanConcat(Scan(None, d, low), "(" + a, ")");
      ScanConcat(Scan(None, d, low), "(", a);
      ScanChar(Scan(None, d, low), '(');
      ScanChar(Scan(None, d + 1, low), ')');
    }
  }

  /** Doubled quotes leave and re-enter the quotation. */
  lemma {:induction false} ScanDoubled(q: char, s: string, d: int, low: int)
    requires q == '\'' || q == '"'
    ensures ScanText(Scan(Some(q), d, low), Doubled(q, s)) == Scan(Some(q), d, low)
  {
    if s != "" {
      var st := Scan(Some(q), d, low);
      var first := if s[0] == q then [q, q] else [s[0]];
      ScanConcat(st, first, Doubled(q, s[1..]));
      ScanDoubled(q, s[1..], d, low);
      ScanChar(st, s[0]);
      if s[0] == q {
        assert [q, q] == [q] + [q];
        ScanConcat(st, [q], [q]);
        ScanChar(Scan(None, d, low), q);
      }
    }
  }

  lemma QuotedNeutral(q: char, s: string)
    requires q == '\'' || q == '"'
    ensures Neutral([q] + Doubled(q, s) + [q])
  {
    forall d: int, low: int | low <= d
      ensures ScanText(Scan(None, d, low), [q] + Doubled(q, s) + [q]) == Scan(None, d, low)
    {
      var st := Scan(None, d, low);
      ScanConcat(st, [q] + Doubled(q, s), [q]);
      ScanConcat(st, [q], Doubled(q, s));
      ScanChar(st, q);
      ScanDoubled(q, s, d, low);
      ScanChar(Scan(Some(q), d, low), q);
    }
  }
}
