/** The lexical level of the remote SQL: how a server splits a statement into tokens. */
module SqlText {
  import opened Prelude

  predicate IsDigit(c: char) { '0' <= c <= '9' }

  predicate IsLower(c: char) { 'a' <= c <= 'z' }

  predicate IsLetter(c: char) { IsLower(c) || 'A' <= c <= 'Z' || c == '_' }

  predicate IsWordChar(c: char) { IsLetter(c) || IsDigit(c) }

  predicate IsNumeralChar(c: char) { IsDigit(c) || c == '+' || c == '-' || c == '.' || c == 'e' }

  predicate IsOperatorChar(c: char) {
    || c == '+' || c == '-' || c == '*' || c == '/' || c == '<' || c == '>' || c == '=' || c == '~' || c == '!'
    || c == '@' || c == '#' || c == '%' || c == '^' || c == '&' || c == '|' || c == '`' || c == '?'
  }

  predicate AllChars(p: char -> bool, s: string) {
    forall i :: 0 <= i < |s| ==> p(s[i])
  }

  /** The length of the longest prefix of `s` whose characters satisfy `p`. */
  function Run(p: char -> bool, s: string): (n: nat)
    ensures n <= |s| && AllChars(p, s[..n])
    ensures n < |s| ==> !p(s[n])
  {
    if s == "" || !p(s[0]) then 0
    else
      var n := Run(p, s[1..]);
      assert s[..n + 1] == [s[0]] + s[1..][..n];
      n + 1
  }

  /** Nothing of `rest` can be drawn into a run of `p` characters before it. */
  predicate Stops(p: char -> bool, rest: string) {
    rest == "" || !p(rest[0])
  }

  lemma {:induction false} RunExact(p: char -> bool, t: string, rest: string)
    requires AllChars(p, t) && Stops(p, rest)
    ensures Run(p, t + rest) == |t|
  {
    if t == "" {
      assert t + rest == rest;
    } else {
      assert (t + rest)[1..] == t[1..] + rest;
      RunExact(p, t[1..], rest);
    }
  }

  predicate ExponentOk(r: string) {
    r == "" || (|r| >= 3 && r[0] == 'e' && r[1] in "+-" && AllChars(IsDigit, r[2..]))
  }

  predicate FractionOk(r: string) {
    if r != "" && r[0] == '.' then
      var m := Run(IsDigit, r[1..]);
      m > 0 && ExponentOk(r[1 + m..])
    else ExponentOk(r)
  }

  function Unsigned(t: string): string {
    if t != "" && t[0] == '-' then t[1..] else t
  }

  /** A finite decimal numeral: sign, digits, fraction, exponent. */
  predicate FiniteNumeral(t: string) {
    var n := Run(IsDigit, Unsigned(t));
    n > 0 && FractionOk(Unsigned(t)[n..])
  }

  lemma AllCharsConcat(p: char -> bool, a: string, b: string)
    requires AllChars(p, a) && AllChars(p, b)
    ensures AllChars(p, a + b)
  {
  }

  lemma DigitsAreNumeral(s: string)
    requires AllChars(IsDigit, s)
    ensures AllChars(IsNumeralChar, s)
  {
  }

  lemma ExponentChars(r: string)
    requires ExponentOk(r)
    ensures AllChars(IsNumeralChar, r)
  {
    if r != "" {
      DigitsAreNumeral(r[2..]);
      AllCharsConcat(IsNumeralChar, r[..2], r[2..]);
      assert r == r[..2] + r[2..];
    }
  }

  lemma FractionChars(r: string)
    requires FractionOk(r)
    ensures AllChars(IsNumeralChar, r)
  {
    if r != "" && r[0] == '.' {
      var m := Run(IsDigit, r[1..]);
      DigitsAreNumeral(r[1..][..m]);
      ExponentChars(r[1 + m..]);
      AllCharsConcat(IsNumeralChar, r[1..][..m], r[1 + m..]);
      AllCharsConcat(IsNumeralChar, ".", r[1..][..m] + r[1 + m..]);
      assert r == "." + (r[1..][..m] + r[1 + m..]);
    } else {
      ExponentChars(r);
    }
  }

  lemma NumeralChars(t: string)
    requires FiniteNumeral(t)
    ensures t != "" && AllChars(IsNumeralChar, t)
    ensures IsDigit(t[0]) || (t[0] == '-' && |t| > 1 && IsDigit(t[1]))
  {
    var u := Unsigned(t);
    var n := Run(IsDigit, u);
    assert u[..n][0] == u[0];
    DigitsAreNumeral(u[..n]);
    FractionChars(u[n..]);
    AllCharsConcat(IsNumeralChar, u[..n], u[n..]);
    assert u == u[..n] + u[n..];
    if t[0] == '-' {
      AllCharsConcat(IsNumeralChar, "-", u);
      assert t == "-" + u;
    }
  }

  /** Does a run of operator characters open a comment? */
  predicate HasComment(s: string) {
    exists i :: 0 <= i < |s| - 1 && ((s[i] == '-' && s[i + 1] == '-') || (s[i] == '/' && s[i + 1] == '*'))
  }

  predicate OperatorSymbol(s: string) {
    s != "" && AllChars(IsOperatorChar, s) && !HasComment(s)
  }

  datatype Token =
    | LParen
    | RParen
    | Comma
    | Dot
    | Word(text: string)
    | Quoted(name: string)
    | Str(content: string)
    | Number(numeral: string)
    | Symbol(name: string)

  /** `s` with every `q` written twice, as inside a literal or identifier delimited by `q`
      (section 5.3 of ISO/IEC 9075-2). */
  function Doubled(q: char, s: string): string {
    if s == "" then ""
    else (if s[0] == q then [q, q] else [s[0]]) + Doubled(q, s[1..])
  }

  /** Reads up to the closing `q`: the content meant, and the number of characters read. */
  function ReadQuoted(q: char, s: string): (r: Option<(string, nat)>)
    ensures r.Some? ==> 0 < r.value.1 <= |s|
  {
    if s == "" then None
    else if s[0] != q then
      match ReadQuoted(q, s[1..])
      case None => None
      case Some((content, n)) => Some(([s[0]] + content, n + 1))
    else if |s| > 1 && s[1] == q then
      match ReadQuoted(q, s[2..])
      case None => None
      case Some((content, n)) => Some(([q] + content, n + 2))
    else Some(("", 1))
  }

  /** Doubling is undone by reading, whatever quotes the content holds. */
  lemma {:induction false} ReadDoubled(q: char, s: string, rest: string)
    requires rest == "" || rest[0] != q
    ensures ReadQuoted(q, Doubled(q, s) + ([q] + rest)) == Some((s, |Doubled(q, s)| + 1))
  {
    if s == "" {
      assert Doubled(q, s) + ([q] + rest) == [q] + rest;
    } else {
      var tail := Doubled(q, s[1..]) + ([q] + rest);
      ReadDoubled(q, s[1..], rest);
      assert s == [s[0]] + s[1..];
      if s[0] == q {
        assert Doubled(q, s) + ([q] + rest) == [q, q] + tail;
        assert ([q, q] + tail)[2..] == tail;
      } else {
        assert Doubled(q, s) + ([q] + rest) == [s[0]] + tail;
        assert ([s[0]] + tail)[1..] == tail;
      }
    }
  }

  /** The first token of `s` and its length. */
  function NextToken(s: string): (r: Option<(Token, nat)>)
    requires s != ""
    ensures r.Some? ==> 0 < r.value.1 <= |s|
  {
    var c := s[0];
    if c == '(' then Some((LParen, 1))
    else if c == ')' then Some((RParen, 1))
    else if c == ',' then Some((Comma, 1))
    else if c == '.' then Some((Dot, 1))
    else if c == '\'' then
      match ReadQuoted(c, s[1..]) case None => None case Some((t, n)) => Some((Str(t), n + 1))
    else if c == '"' then
      match ReadQuoted(c, s[1..]) case None => None case Some((t, n)) => Some((Quoted(t), n + 1))
    else if IsDigit(c) || (c == '-' && |s| > 1 && IsDigit(s[1])) then
      var n := Run(IsNumeralChar, s);
      assert IsNumeralChar(c);
      if FiniteNumeral(s[..n]) then Some((Number(s[..n]), n)) else None
    else if IsLetter(c) then
      var n := Run(IsWordChar, s);
      Some((Word(s[..n]), n))
    else if IsOperatorChar(c) then
      var n := Run(IsOperatorChar, s);
      if HasComment(s[..n]) then None else Some((Symbol(s[..n]), n))
    else None
  }

  /** All tokens of `s`; nothing if some part of it is no token or opens a comment. */
  function Lex(s: string): Option<seq<Token>>
  {
    if s == "" then Some([])
    else if s[0] == ' ' then Lex(s[1..])
    else
      match NextToken(s)
      case None => None
      case Some((t, n)) => Prepend([t], Lex(s[n..]))
  }

  function Prepend(ts: seq<Token>, more: Option<seq<Token>>): Option<seq<Token>> {
    match more case None => None case Some(us) => Some(ts + us)
  }

  lemma PrependTwice(ts: seq<Token>, us: seq<Token>, more: Option<seq<Token>>)
    ensures Prepend(ts, Prepend(us, more)) == Prepend(ts + us, more)
  {
    if more.Some? {
      assert ts + (us + more.value) == ts + us + more.value;
    }
  }

  /** `text` is read as exactly the tokens `ts`, whatever of `rest` follows. */
  ghost predicate Reads(text: string, ts: seq<Token>, rest: string) {
    Lex(text + rest) == Prepend(ts, Lex(rest))
  }

  lemma ReadsNext(text: string, t: Token, rest: string)
    requires text != "" && text[0] != ' '
    requires NextToken(text + rest) == Some((t, |text|))
    ensures Reads(text, [t], rest)
  {
    assert (text + rest)[|text|..] == rest;
  }

  lemma ReadsSpace(rest: string)
    ensures Reads(" ", [], rest)
  {
    assert (" " + rest)[1..] == rest;
    assert Lex(rest).Some? ==> [] + Lex(rest).value == Lex(rest).value;
  }

  /** Reading is compositional. */
  lemma ReadsThen(a: string, ts: seq<Token>, b: string, us: seq<Token>, rest: string)
    requires Reads(a, ts, b + rest) && Reads(b, us, rest)
    ensures Reads(a + b, ts + us, rest)
  {
    assert (a + b) + rest == a + (b + rest);
    PrependTwice(ts, us, Lex(rest));
  }

  function Punctuation(c: char): Token
    requires c in "(),."
  {
    if c == '(' then LParen else if c == ')' then RParen else if c == ',' then Comma else Dot
  }

  lemma ReadsPunctuation(c: char, rest: string)
    requires c in "(),."
    ensures Reads([c], [Punctuation(c)], rest)
  {
    ReadsNext([c], Punctuation(c), rest);
  }

  lemma ReadsWord(w: string, rest: string)
    requires w != "" && IsLetter(w[0]) && AllChars(IsWordChar, w) && Stops(IsWordChar, rest)
    ensures Reads(w, [Word(w)], rest)
  {
    RunExact(IsWordChar, w, rest);
    assert (w + rest)[..|w|] == w;
    ReadsNext(w, Word(w), rest);
  }

  lemma ReadsNumber(t: string, rest: string)
    requires FiniteNumeral(t) && Stops(IsNumeralChar, rest)
    ensures Reads(t, [Number(t)], rest)
  {
    NumeralChars(t);
    RunExact(IsNumeralChar, t, rest);
    assert (t + rest)[..|t|] == t;
    ReadsNext(t, Number(t), rest);
  }

  /** An operator survives as a token because a space follows it: `- -5` is no comment. */
  lemma ReadsSymbol(op: string, rest: string)
    requires OperatorSymbol(op) && (rest == "" || rest[0] == ' ')
    ensures Reads(op, [Symbol(op)], rest)
  {
    var s := op + rest;
    RunExact(IsOperatorChar, op, rest);
    assert s[..|op|] == op;
    assert |op| == 1 && |s| > 1 ==> s[1] == ' ';
    assert IsOperatorChar(op[0]) && (|op| > 1 ==> IsOperatorChar(op[1]));
    assert NextToken(s) == Some((Symbol(op), |op|));
    ReadsNext(op, Symbol(op), rest);
  }

  lemma ReadsString(s: string, rest: string)
    requires rest == "" || rest[0] != '\''
    ensures Reads("'" + Doubled('\'', s) + "'", [Str(s)], rest)
  {
    var text := "'" + Doubled('\'', s) + "'";
    ReadDoubled('\'', s, rest);
    assert (text + rest)[1..] == Doubled('\'', s) + ("'" + rest);
    ReadsNext(text, Str(s), rest);
  }

  lemma ReadsQuoted(s: string, rest: string)
    requires rest == "" || rest[0] != '"'
    ensures Reads("\"" + Doubled('"', s) + "\"", [Quoted(s)], rest)
  {
    var text := "\"" + Doubled('"', s) + "\"";
    ReadDoubled('"', s, rest);
    assert (text + rest)[1..] == Doubled('"', s) + ("\"" + rest);
    ReadsNext(text, Quoted(s), rest);
  }

  /** Without the space the same two minus signs would start a comment, and nothing would be read. */
  lemma GluedMinusIsComment(t: string, rest: string)
    ensures Lex("--" + t + rest) == None
  {
    var s := "--" + t + rest;
    var n := Run(IsOperatorChar, s);
    assert n >= 2 by {
      assert s[0] == '-' && s[1] == '-';
    }
    assert s[..n][0] == '-' && s[..n][1] == '-';
  }
}
