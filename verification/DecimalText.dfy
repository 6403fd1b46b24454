/** The decimal text normaliser, over ASCII text, with the exact matching rules of its regular expressions. */
module DecimalText {
  import opened Common

  datatype FailureCode = CurrencyAuthorityMissing | CurrencyConflict | AmbiguousLocale | MalformedGrouping

  /** The source's three answers: a decimal text, a failure code, or no opinion. */
  datatype Parsed = Accepted(text: string) | Failed(code: FailureCode) | Unparsed

  // ---- Characters ----

  predicate IsDigit(ch: char) { '0' <= ch <= '9' }
  predicate IsUpper(ch: char) { 'A' <= ch <= 'Z' }
  predicate IsSpace(ch: char) { ch == ' ' || '\t' <= ch <= '\r' || '\U{1C}' <= ch <= '\U{1F}' }
  predicate IsNumeric(ch: char) { IsDigit(ch) || ch == '.' }
  predicate NotComma(ch: char) { ch != ',' }

  predicate AllDigits(s: string) { forall ch :: ch in s ==> IsDigit(ch) }

  predicate StartsWith(s: string, ch: char) { s != "" && s[0] == ch }
  predicate EndsWith(s: string, ch: char) { s != "" && s[|s| - 1] == ch }

  /** The characters that satisfy a test, in order. */
  function Keep(s: string, test: char -> bool): string {
    if s == "" then "" else (if test(s[0]) then [s[0]] else []) + Keep(s[1..], test)
  }

  /** Digits and points. */
  function Numeric(s: string): string { Keep(s, IsNumeric) }

  /** The text without its commas. */
  function WithoutCommas(s: string): string { Keep(s, NotComma) }

  /** Where the character occurs last, or -1. */
  function LastIndex(s: string, ch: char): int {
    if s == "" then -1
    else if s[|s| - 1] == ch then |s| - 1
    else LastIndex(s[..|s| - 1], ch)
  }

  function Run(s: string, test: char -> bool): (n: nat)
    ensures n <= |s| && forall i :: 0 <= i < n ==> test(s[i])
    ensures n < |s| ==> !test(s[n])
  {
    if s == "" || !test(s[0]) then 0 else 1 + Run(s[1..], test)
  }

  // ---- The regular expressions ----

  /** What '$' leaves aside: one final newline. */
  function Chop(s: string): string {
    if EndsWith(s, '\n') then s[..|s| - 1] else s
  }

  predicate Fraction(s: string) {
    s == "" || (s[0] == '.' && |s| > 1 && AllDigits(s[1..]))
  }

  /** Digits, and perhaps a point with more digits. */
  predicate Plain(s: string) {
    var n := Run(s, IsDigit);
    n > 0 && Fraction(s[n..])
  }

  /** One or more commas with three digits each, and perhaps a fraction. */
  predicate Groups(s: string) {
    |s| >= 4 && s[0] == ',' && AllDigits(s[1..4]) && (Fraction(s[4..]) || Groups(s[4..]))
  }

  /** One to three digits and then comma groups. */
  predicate Grouped(s: string) {
    var n := Run(s, IsDigit);
    1 <= n <= 3 && Groups(s[n..])
  }

  /** One or more points with three digits each, then a comma and digits. */
  predicate ContinentalGroups(s: string) {
    && |s| >= 4 && s[0] == '.' && AllDigits(s[1..4])
    && ((|s| > 5 && s[4] == ',' && AllDigits(s[5..])) || ContinentalGroups(s[4..]))
  }

  predicate Continental(s: string) {
    var n := Run(s, IsDigit);
    1 <= n <= 3 && ContinentalGroups(s[n..])
  }

  datatype Money = Money(code: string, amount: string)

  /** Where the amount begins: after the spaces, or one earlier when nothing would be left. */
  function AmountStart(s: string): int {
    var spaces, stop := Run(s, IsSpace), |Chop(s)|;
    if spaces < stop then spaces else stop - 1
  }

  /**
   * Three capitals, spaces and an amount: the spaces are greedy but give one back when nothing else is left for the
   * amount.
   */
  function MatchCurrency(t: string): Option<Money> {
    if !CodeFirst(t) then None
    else
      var s := t[3..];
      var from, stop := AmountStart(s), |Chop(s)|;
      if from < 1 || '\n' in s[from..stop] then None else Some(Money(t[..3], s[from..stop]))
  }

  /** One way the expression can match: amount s[from..stop] after spaces s[..from], stopping where '$' holds. */
  ghost predicate CurrencySplit(s: string, from: int, stop: int) {
    && 1 <= from < stop <= |s|
    && (forall i :: 0 <= i < from ==> 9 <= s[i] as int <= 13 || 28 <= s[i] as int <= 32)
    && '\n' !in s[from..stop]
    && (stop == |s| || (stop == |s| - 1 && s[stop] == '\n'))
  }

  predicate CodeFirst(t: string) {
    |t| >= 3 && IsUpper(t[0]) && IsUpper(t[1]) && IsUpper(t[2])
  }

  /** The match found takes the most spaces of all the ways to match. */
  lemma SplitIsBounded(t: string, f: int, e: int)
    requires CodeFirst(t) && CurrencySplit(t[3..], f, e)
    ensures MatchCurrency(t).Some? && e == |Chop(t[3..])| && f <= AmountStart(t[3..])
  {
    var s := t[3..];
    assert e == |Chop(s)| by { assert e == |s| ==> s[|s| - 1] in s[f..e]; }
    assert f <= Run(s, IsSpace);
    Suffix(s, f, AmountStart(s), e);
  }

  lemma Suffix(s: string, f: nat, from: nat, e: nat)
    requires f <= from <= e <= |s| && '\n' !in s[f..e]
    ensures '\n' !in s[from..e]
  {
    assert s[from..e] == s[f..e][from - f..];
  }

  /** A match exists exactly when some way to match does. */
  lemma CurrencyGreedy(t: string)
    requires CodeFirst(t)
    ensures MatchCurrency(t).Some? <==> exists f, e :: CurrencySplit(t[3..], f, e)
    ensures MatchCurrency(t).Some? ==>
      var s := t[3..];
      var from, stop := AmountStart(s), |Chop(s)|;
      && CurrencySplit(s, from, stop)
      && MatchCurrency(t) == Some(Money(t[..3], s[from..stop]))
      && forall f, e :: CurrencySplit(s, f, e) ==> f <= from && e == stop
  {
    forall f, e | CurrencySplit(t[3..], f, e)
      ensures MatchCurrency(t).Some? && e == |Chop(t[3..])| && f <= AmountStart(t[3..])
    {
      SplitIsBounded(t, f, e);
    }
    if MatchCurrency(t).Some? { assert CurrencySplit(t[3..], AmountStart(t[3..]), |Chop(t[3..])|); }
  }

  // ---- The normaliser as a composition ----

  /** Parentheses and signs. */
  function Unwrap(text: string): Option<(string, bool)> {
    if text == "" || (StartsWith(text, '(') != EndsWith(text, ')')) then None
    else
      var wrapped := StartsWith(text, '(');
      if wrapped && |text| < 2 then None
      else
        var inner := if wrapped then text[1..|text| - 1] else text;
        var minus := StartsWith(inner, '-');
        var unsigned := if minus then inner[1..] else inner;
        Some((if StartsWith(unsigned, '+') then unsigned[1..] else unsigned, wrapped || minus))
  }

  /** Currency code and sign. */
  function Amount(t: string, authority: Option<string>): Result<string, FailureCode> {
    var money := MatchCurrency(t);
    if money.Some? && authority.None? then Err(CurrencyAuthorityMissing)
    else if money.Some? && Some(money.value.code) != authority then Err(CurrencyConflict)
    else
      var u := if money.Some? then money.value.amount else t;
      if !StartsWith(u, '$') then Ok(u)
      else if authority.None? then Err(CurrencyAuthorityMissing)
      else Ok(u[1..])
  }

  /** The number itself. */
  function Body(u: string): Parsed {
    if StartsWith(u, '-') || StartsWith(u, '+') || EndsWith(u, ')') || StartsWith(u, '(') then Unparsed
    else if ',' in u && '.' in u && LastIndex(u, '.') < LastIndex(u, ',') then Failed(AmbiguousLocale)
    else if ',' in u then
      if Grouped(Chop(u)) then Accepted(WithoutCommas(u)) else Failed(MalformedGrouping)
    else if Plain(Chop(u)) then Accepted(u)
    else Unparsed
  }

  function Parse(text: string, authority: Option<string>): Parsed {
    match Unwrap(text)
    case None => Unparsed
    case Some((t, negative)) =>
      match Amount(t, authority)
      case Err(code) => Failed(code)
      case Ok(u) => Signed(Body(u), negative)
  }

  function Signed(p: Parsed, negative: bool): Parsed {
    if p.Accepted? && negative then Accepted("-" + p.text) else p
  }

  /** A continental number has a comma, so the last ambiguity test of the source never succeeds. */
  lemma {:induction false} ContinentalHasComma(s: string)
    requires Continental(s)
    ensures ',' in s
  {
    ContinentalGroupsHaveComma(s[Run(s, IsDigit)..]);
  }

  lemma {:induction false} ContinentalGroupsHaveComma(s: string)
    requires ContinentalGroups(s)
    ensures ',' in s
  {
    if !(|s| > 5 && s[4] == ',' && AllDigits(s[5..])) { ContinentalGroupsHaveComma(s[4..]); }
  }

  /** _parse_decimal_text: rewrites the text and its sign step by step. */
  method ParseDecimalText(value: string, authority: Option<string>) returns (r: Parsed)
    ensures r == Parse(value, authority)
  {
    hide LastIndex, Grouped, Plain, MatchCurrency, WithoutCommas, Continental, Chop, Amount, Body;
    var text := value;
    if text == "" { return Unparsed; }
    var negative := false;
    if StartsWith(text, '(') || EndsWith(text, ')') {
      if !(StartsWith(text, '(') && EndsWith(text, ')')) { return Unparsed; }
      negative := true;
      text := text[1..|text| - 1];
    }
    if StartsWith(text, '-') {
      negative := true;
      text := text[1..];
    }
    if StartsWith(text, '+') {
      text := text[1..];
    }
    assert Unwrap(value) == Some((text, negative));
    r := ParseUnsigned(text, negative, authority);
  }

  /** The rest of the same steps, once parentheses and signs are gone. */
  method ParseUnsigned(value: string, negative: bool, authority: Option<string>) returns (r: Parsed)
    ensures r == match Amount(value, authority)
                 case Err(code) => Failed(code)
                 case Ok(u) => Signed(Body(u), negative)
  {
    hide LastIndex, Grouped, Plain, MatchCurrency, WithoutCommas, Continental, Chop;
    var text := value;
    var money := MatchCurrency(text);
    if money.Some? {
      if authority.None? { return Failed(CurrencyAuthorityMissing); }
      if money.value.code != authority.value { return Failed(CurrencyConflict); }
      text := money.value.amount;
    }
    if StartsWith(text, '$') {
      if authority.None? { return Failed(CurrencyAuthorityMissing); }
      text := text[1..];
    }
    assert Amount(value, authority) == Ok(text);
    if StartsWith(text, '-') || StartsWith(text, '+') || EndsWith(text, ')') || StartsWith(text, '(') {
      return Unparsed;
    }
    if ',' in text && '.' in text && LastIndex(text, '.') < LastIndex(text, ',') { return Failed(AmbiguousLocale); }
    if ',' in text {
      if !Grouped(Chop(text)) { return Failed(MalformedGrouping); }
      text := WithoutCommas(text);
    } else if !Plain(Chop(text)) {
      if Continental(Chop(text)) {
        ContinentalHasComma(Chop(text));
        ChopMembers(text);
        return Failed(AmbiguousLocale);
      }
      return Unparsed;
    }
    if negative { text := "-" + text; }
    return Accepted(text);
  }

  lemma ChopMembers(s: string)
    ensures forall ch :: ch in Chop(s) ==> ch in s
  {}

  // ---- Keeping characters ----

  lemma KeepStep(s: string, test: char -> bool)
    requires s != ""
    ensures Keep(s, test) == (if test(s[0]) then [s[0]] else []) + Keep(s[1..], test)
  {}

  lemma Reassociate(a: string, b: string, c: string)
    ensures (a + b) + c == a + (b + c)
  {}

  lemma {:induction false} KeepConcat(a: string, b: string, test: char -> bool)
    ensures Keep(a + b, test) == Keep(a, test) + Keep(b, test)
  {
    if a == "" {
      assert a + b == b;
      assert Keep(a, test) == "";
    } else {
      hide Keep;
      KeepConcat(a[1..], b, test);
      assert (a + b)[1..] == a[1..] + b && (a + b)[0] == a[0];
      KeepStep(a, test);
      KeepStep(a + b, test);
      Reassociate(if test(a[0]) then [a[0]] else [], Keep(a[1..], test), Keep(b, test));
    }
  }

  lemma {:induction false} KeepAll(s: string, test: char -> bool)
    requires forall ch :: ch in s ==> test(ch)
    ensures Keep(s, test) == s
  {
    if s != "" { KeepAll(s[1..], test); }
  }

  lemma {:induction false} KeepNone(s: string, test: char -> bool)
    requires forall ch :: ch in s ==> !test(ch)
    ensures Keep(s, test) == ""
  {
    if s != "" { KeepNone(s[1..], test); }
  }

  /** Dropping characters that are not numeric from both ends keeps the numeric ones. */
  lemma NumericInside(s: string, from: nat, to: nat)
    requires from <= to <= |s|
    requires forall i :: 0 <= i < from || to <= i < |s| ==> !IsNumeric(s[i])
    ensures Numeric(s) == Numeric(s[from..to])
  {
    KeepConcat(s[..from], s[from..], IsNumeric);
    KeepConcat(s[from..to], s[to..], IsNumeric);
    assert s == s[..from] + s[from..] && s[from..] == s[from..to] + s[to..];
    KeepNone(s[..from], IsNumeric);
    KeepNone(s[to..], IsNumeric);
  }

  // ---- Accepted text, in closed form ----

  lemma {:induction false} FractionNumeric(s: string)
    requires Fraction(s)
    ensures forall ch :: ch in s ==> IsNumeric(ch)
  {
    if s != "" { assert s == [s[0]] + s[1..]; }
  }

  lemma PlainNumeric(s: string)
    requires Plain(s)
    ensures forall ch :: ch in s ==> IsNumeric(ch)
  {
    var n := Run(s, IsDigit);
    FractionNumeric(s[n..]);
    assert s == s[..n] + s[n..];
  }

  /** Removing commas from groups leaves digits, then the fraction. */
  lemma {:induction false} GroupsNumeric(s: string)
    requires Groups(s)
    ensures forall ch :: ch in s ==> IsNumeric(ch) || ch == ','
    ensures WithoutCommas(s) == Numeric(s) && Plain(WithoutCommas(s))
  {
    hide Keep, Plain, Fraction;
    var rest := s[4..];
    GroupHead(s, NotComma);
    GroupHead(s, IsNumeric);
    assert s == s[..1] + s[1..4] + rest;
    if Fraction(rest) {
      FractionNumeric(rest);
      KeepAll(rest, NotComma);
      KeepAll(rest, IsNumeric);
      DigitsThenFraction(s[1..4], rest);
    } else {
      GroupsNumeric(rest);
      DigitsThenPlain(s[1..4], WithoutCommas(rest));
    }
  }

  lemma GroupHead(s: string, test: char -> bool)
    requires |s| >= 4 && s[0] == ',' && AllDigits(s[1..4])
    requires !test(',') && forall ch :: IsDigit(ch) ==> test(ch)
    ensures Keep(s, test) == s[1..4] + Keep(s[4..], test)
  {
    hide Keep;
    assert s == s[..1] + (s[1..4] + s[4..]);
    KeepConcat(s[..1], s[1..4] + s[4..], test);
    KeepConcat(s[1..4], s[4..], test);
    KeepNone(s[..1], test);
    KeepAll(s[1..4], test);
  }

  lemma DigitsThenFraction(d: string, f: string)
    requires d != "" && AllDigits(d) && Fraction(f)
    ensures Run(d + f, IsDigit) == |d| && Plain(d + f)
  {
    RunIs(d, f);
    assert (d + f)[|d|..] == f;
  }

  lemma {:induction false} RunIs(d: string, f: string)
    requires AllDigits(d) && (f == "" || !IsDigit(f[0]))
    ensures Run(d + f, IsDigit) == |d|
  {
    assert forall i :: 0 <= i < |d| ==> (d + f)[i] == d[i] && d[i] in d;
    assert f != "" ==> (d + f)[|d|] == f[0];
  }

  lemma DigitsThenPlain(d: string, p: string)
    requires AllDigits(d) && Plain(p)
    ensures Plain(d + p)
  {
    var n := Run(p, IsDigit);
    assert forall ch :: ch in d + p[..n] ==> ch in d || ch in p[..n];
    DigitsThenFraction(d + p[..n], p[n..]);
    assert d + p == (d + p[..n]) + p[n..];
  }

  lemma GroupedNumeric(s: string)
    requires Grouped(s)
    ensures WithoutCommas(s) == Numeric(s) && Plain(Numeric(s))
    ensures forall ch :: ch in s ==> IsNumeric(ch) || ch == ','
  {
    hide Groups;
    var n := Run(s, IsDigit);
    GroupsNumeric(s[n..]);
    assert s == s[..n] + s[n..];
    KeepConcat(s[..n], s[n..], NotComma);
    KeepConcat(s[..n], s[n..], IsNumeric);
    KeepAll(s[..n], NotComma);
    KeepAll(s[..n], IsNumeric);
    DigitsThenPlain(s[..n], WithoutCommas(s[n..]));
  }

  /** A final newline that '$' let through. */
  function Ending(u: string): string {
    if EndsWith(u, '\n') then "\n" else ""
  }

  lemma NumericChop(u: string)
    ensures Numeric(u) == Numeric(Chop(u)) && u == Chop(u) + Ending(u)
    ensures WithoutCommas(u) == WithoutCommas(Chop(u)) + Ending(u)
  {
    NumericInside(u, 0, |Chop(u)|);
    assert u[0..|Chop(u)|] == Chop(u);
    KeepConcat(Chop(u), Ending(u), NotComma);
    KeepAll(Ending(u), NotComma);
  }

  /** The number accepted is the numeric characters of its text, plus a final newline if there is one. */
  lemma BodyIs(u: string)
    requires Body(u).Accepted?
    ensures Body(u).text == Numeric(u) + Ending(u) && Plain(Numeric(u))
  {
    hide Grouped, Plain, LastIndex, Keep;
    NumericChop(u);
    if ',' in u {
      GroupedNumeric(Chop(u));
    } else {
      PlainNumeric(Chop(u));
      KeepAll(Chop(u), IsNumeric);
    }
  }

  /** What Unwrap leaves, when it leaves anything. */
  function Inner(text: string): string {
    if Unwrap(text).Some? then Unwrap(text).value.0 else ""
  }

  predicate Negative(text: string) {
    StartsWith(text, '(') || StartsWith(text, '-')
  }

  lemma UnwrapKeeps(text: string)
    requires Unwrap(text).Some?
    ensures Numeric(Inner(text)) == Numeric(text)
    ensures Unwrap(text).value.1 == Negative(text)
  {
    var wrapped := StartsWith(text, '(');
    var from, to := if wrapped then 1 else 0, if wrapped then |text| - 1 else |text|;
    var inner := text[from..to];
    assert !wrapped ==> inner == text;
    var signs := (if StartsWith(inner, '-') then 1 else 0);
    var signed := inner[signs..];
    assert signs == 0 ==> signed == inner;
    var plus := if StartsWith(signed, '+') then 1 else 0;
    assert Inner(text) == text[from + signs + plus..to];
    NumericInside(text, from + signs + plus, to);
  }

  lemma MoneyKeeps(t: string)
    requires MatchCurrency(t).Some?
    ensures var u := MatchCurrency(t).value.amount;
      Numeric(u) == Numeric(t) && '\n' !in u
  {
    hide Keep;
    var s := t[3..];
    var from, stop := AmountStart(s), |Chop(s)|;
    assert t == t[..3] + s;
    KeepConcat(t[..3], s, IsNumeric);
    KeepNone(t[..3], IsNumeric);
    NumericInside(s, from, stop);
  }

  lemma AmountKeeps(t: string, authority: Option<string>)
    requires Amount(t, authority).Ok? && Amount(t, authority).value != ""
    ensures Numeric(Amount(t, authority).value) == Numeric(t)
    ensures Ending(Amount(t, authority).value) == if MatchCurrency(t).None? then Ending(t) else ""
  {
    hide Keep, MatchCurrency;
    var money := MatchCurrency(t);
    if money.Some? { MoneyKeeps(t); }
    var u := if money.Some? then money.value.amount else t;
    if StartsWith(u, '$') {
      NumericInside(u, 1, |u|);
      assert u[1..|u|] == u[1..];
    }
  }

  /** The condition, checkable before the call, under which a newline survives. */
  predicate NewlineSurvives(text: string) {
    EndsWith(Inner(text), '\n') && MatchCurrency(Inner(text)).None?
  }

  /** Every accepted text is its sign, its digits and point in order, and a newline exactly when one survives. */
  lemma AcceptedIs(text: string, authority: Option<string>)
    requires Parse(text, authority).Accepted?
    ensures Plain(Numeric(text))
    ensures Parse(text, authority).text ==
      (if Negative(text) then "-" else "") + Numeric(text) + (if NewlineSurvives(text) then "\n" else "")
  {
    hide Numeric, Plain, MatchCurrency, Body;
    var t := Inner(text);
    var u := Amount(t, authority).value;
    UnwrapKeeps(text);
    assert u != "" by { NothingIsNoNumber(); }
    AmountKeeps(t, authority);
    BodyIs(u);
    assert Ending(u) == (if NewlineSurvives(text) then "\n" else "");
    assert Numeric(u) == Numeric(text);
    assert "" + Numeric(u) + Ending(u) == Numeric(u) + Ending(u);
    assert "-" + (Numeric(u) + Ending(u)) == "-" + Numeric(u) + Ending(u);
  }

  lemma NothingIsNoNumber()
    ensures Body("") == Unparsed
  {}

  /** A decimal's text: perhaps a minus, then digits and perhaps a fraction. */
  predicate DecimalShape(s: string) {
    if StartsWith(s, '-') then Plain(s[1..]) else Plain(s)
  }

  /** The output has the shape of a decimal exactly when no newline survives. */
  lemma AcceptedShape(text: string, authority: Option<string>)
    requires Parse(text, authority).Accepted?
    ensures DecimalShape(Parse(text, authority).text) <==> !NewlineSurvives(text)
    ensures DecimalShape(Chop(Parse(text, authority).text))
  {
    hide Parse, Numeric, NewlineSurvives, Plain, DecimalShape, Negative, Chop;
    AcceptedIs(text, authority);
    NumberShape(Numeric(text), Negative(text));
  }

  lemma NumberShape(n: string, negative: bool)
    requires Plain(n)
    ensures var signed := (if negative then "-" else "") + n;
      DecimalShape(signed) && !DecimalShape(signed + "\n") && Chop(signed + "\n") == signed == Chop(signed)
        && signed + "" == signed
  {
    hide Plain;
    PlainStarts(n);
    PlainNumeric(n);
    PlainHasNoNewline(n + "\n");
    assert n[0] in n && n[|n| - 1] in n;
    var signed := (if negative then "-" else "") + n;
    assert signed[|signed| - 1] == n[|n| - 1];
    assert negative ==> signed[1..] == n && (signed + "\n")[1..] == n + "\n";
    assert !negative ==> signed == n;
  }

  lemma PlainHasNoNewline(u: string)
    requires EndsWith(u, '\n')
    ensures !Plain(u)
  {
    assert u[|u| - 1] in u;
    if Plain(u) { PlainNumeric(u); }
  }

  /** A parenthesised text with a newline inside is accepted, and its output is not a decimal's text. */
  lemma NewlineInside()
    ensures Parse("(12\n)", None) == Accepted("-12\n") && !DecimalShape("-12\n")
  {
    var u := "12\n";
    assert "(12\n)"[1..4] == u;
    assert Inner("(12\n)") == u && EndsWith(u, '\n');
    assert Chop(u) == "12";
    assert AllDigits("12") && "12"[2..] == "";
    RunIs("12", "");
    assert "12" + "" == "12";
    assert Body(u) == Accepted(u);
    assert "-" + u == "-12\n";
    AcceptedShape("(12\n)", None);
  }

  // ---- Parsing again ----

  /** A number with no mark around it, and perhaps a final newline, is its own normal form. */
  lemma PlainParses(n: string, negative: bool, newline: bool, authority: Option<string>)
    requires Plain(n)
    ensures var text := (if negative then "-" else "") + n + (if newline then "\n" else "");
      Parse(text, authority) == Accepted(text)
  {
    hide Parse, Plain, Body;
    var u := n + (if newline then "\n" else "");
    var text := (if negative then "-" else "") + u;
    assert text == (if negative then "-" else "") + n + (if newline then "\n" else "");
    PlainBody(n, newline);
    if negative {
      MinusIsBody(u, authority);
    } else {
      assert text == u;
      BareIsBody(u, authority);
    }
  }

  lemma PlainBody(n: string, newline: bool)
    requires Plain(n)
    ensures var u := n + (if newline then "\n" else "");
      Bare(u) && Body(u) == Accepted(u)
  {
    hide LastIndex, Plain;
    var u := n + (if newline then "\n" else "");
    PlainNumeric(n);
    PlainStarts(n);
    assert n[0] in n && u[0] == n[0] && n[|n| - 1] in n;
    assert Chop(u) == n;
    assert ',' !in u;
  }

  /** Text that no wrapping, sign or currency step changes. */
  predicate Bare(text: string) {
    text != "" && IsDigit(text[0]) && !EndsWith(text, ')')
  }

  lemma BareIsBody(text: string, authority: Option<string>)
    requires Bare(text)
    ensures Unwrap(text) == Some((text, false)) && Amount(text, authority) == Ok(text)
    ensures Parse(text, authority) == Body(text)
  {
    hide Body;
  }

  lemma MinusIsBody(u: string, authority: Option<string>)
    requires Bare(u)
    ensures Parse("-" + u, authority) == Signed(Body(u), true)
  {
    hide Body;
    var text := "-" + u;
    BareIsBody(u, authority);
    assert text[1..] == u && text[|text| - 1] == u[|u| - 1];
    assert Unwrap(text) == Some((u, true));
  }

  lemma PlainStarts(n: string)
    requires Plain(n)
    ensures n != "" && IsDigit(n[0])
  {}

  /** Accepted output is a fixed point of the parser under any currency authority. */
  lemma AcceptedIsFixed(text: string, authority: Option<string>, other: Option<string>)
    requires Parse(text, authority).Accepted?
    ensures Parse(Parse(text, authority).text, other) == Parse(text, authority)
  {
    hide Parse, Numeric, NewlineSurvives, Plain;
    AcceptedIs(text, authority);
    PlainParses(Numeric(text), Negative(text), NewlineSurvives(text), other);
  }

  // ---- Grouping in threes ----

  /** A comma before every three digits. */
  function Commas(d: string): string
    requires |d| % 3 == 0
  {
    if d == "" then "" else "," + d[..3] + Commas(d[3..])
  }

  /** Digits grouped in threes from the right. */
  function GroupInThrees(d: string): string {
    if d == "" then ""
    else
      var k := (|d| - 1) % 3 + 1;
      d[..k] + Commas(d[k..])
  }

  lemma {:induction false} CommasParse(d: string, f: string)
    requires d != "" && |d| % 3 == 0 && AllDigits(d) && Fraction(f)
    ensures Groups(Commas(d) + f)
  {
    hide Fraction, Groups, Commas;
    assert forall ch :: ch in d[..3] ==> ch in d;
    assert forall ch :: ch in d[3..] ==> ch in d;
    var rest := Commas(d[3..]);
    if d[3..] == "" {
      NoCommas();
      assert rest + f == f;
    } else {
      CommasParse(d[3..], f);
    }
    GroupsStep(d[..3], rest + f);
    CommasStep(d);
    Reassociate("," + d[..3], rest, f);
  }

  lemma CommasStep(d: string)
    requires d != "" && |d| % 3 == 0
    ensures Commas(d) == "," + d[..3] + Commas(d[3..])
  {}

  lemma GroupsStep(triple: string, rest: string)
    requires |triple| == 3 && AllDigits(triple) && (Fraction(rest) || Groups(rest))
    ensures Groups("," + triple + rest)
  {
    hide Fraction;
    var s := "," + triple + rest;
    assert s[1..4] == triple && s[4..] == rest;
  }

  lemma {:induction false} CommasKeep(d: string)
    requires |d| % 3 == 0 && AllDigits(d)
    ensures WithoutCommas(Commas(d)) == d
    ensures forall ch :: ch in Commas(d) ==> IsDigit(ch) || ch == ','
    ensures d != "" ==> Commas(d) != "" && Commas(d)[0] == ','
  {
    if d == "" {
      KeepAll(Commas(d), NotComma);
    } else {
      hide Keep;
      assert forall ch :: ch in d[..3] ==> ch in d;
      assert forall ch :: ch in d[3..] ==> ch in d;
      CommasKeep(d[3..]);
      KeepConcat("," + d[..3], Commas(d[3..]), NotComma);
      KeepConcat(",", d[..3], NotComma);
      KeepNone(",", NotComma);
      KeepAll(d[..3], NotComma);
      assert d == "" + d[..3] + d[3..];
    }
  }

  lemma {:induction false} LastIndexIs(s: string, ch: char)
    ensures -1 <= LastIndex(s, ch) < |s|
    ensures LastIndex(s, ch) >= 0 ==> s[LastIndex(s, ch)] == ch
    ensures forall k :: LastIndex(s, ch) < k < |s| ==> s[k] != ch
  {
    if s != "" && s[|s| - 1] != ch { LastIndexIs(s[..|s| - 1], ch); }
  }

  /** Every digit string grouped in threes, with any fraction, parses back to itself without commas. */
  lemma GroupedRoundTrip(d: string, f: string, authority: Option<string>)
    requires d != "" && AllDigits(d) && Fraction(f)
    ensures Parse(GroupInThrees(d) + f, authority) == Accepted(d + f)
  {
    hide Parse, Body, GroupInThrees;
    GroupedClean(d, f);
    GroupedBody(d, f);
    BareIsBody(GroupInThrees(d) + f, authority);
  }

  predicate GroupText(s: string) {
    forall ch :: ch in s ==> IsNumeric(ch) || ch == ','
  }

  lemma GroupTextConcat(a: string, b: string)
    requires GroupText(a) && GroupText(b)
    ensures GroupText(a + b)
  {}

  /** Grouped text holds digits, commas and points, and starts with a digit. */
  lemma GroupedClean(d: string, f: string)
    requires d != "" && AllDigits(d) && Fraction(f)
    ensures var g := GroupInThrees(d) + f;
      Bare(g) && GroupText(g)
  {
    hide Commas, Fraction, GroupText;
    var k := (|d| - 1) % 3 + 1;
    var g := GroupInThrees(d);
    assert d[0] in d && g[0] == d[0];
    assert GroupText(d[..k]) && AllDigits(d[k..]) by { PartsAreDigits(d, k); }
    assert GroupText(f) by { FractionIsGroupText(f); }
    assert GroupText(Commas(d[k..])) by { CommasAreGroupText(d[k..]); }
    GroupTextConcat(d[..k], Commas(d[k..]));
    GroupTextConcat(g, f);
    GroupTextEnds(g + f);
  }

  lemma PartsAreDigits(d: string, k: nat)
    requires AllDigits(d) && k <= |d|
    ensures GroupText(d[..k]) && AllDigits(d[k..]) && AllDigits(d[..k])
  {
    assert forall ch :: ch in d[..k] ==> ch in d;
    assert forall ch :: ch in d[k..] ==> ch in d;
  }

  lemma FractionIsGroupText(f: string)
    requires Fraction(f)
    ensures GroupText(f)
  {
    FractionNumeric(f);
  }

  lemma {:induction false} CommasAreGroupText(d: string)
    requires |d| % 3 == 0 && AllDigits(d)
    ensures GroupText(Commas(d))
  {
    CommasKeep(d);
  }

  lemma GroupTextEnds(s: string)
    requires GroupText(s)
    ensures !EndsWith(s, ')')
  {
    assert s != "" ==> s[|s| - 1] in s;
  }

  lemma GroupedBody(d: string, f: string)
    requires d != "" && AllDigits(d) && Fraction(f)
    ensures Body(GroupInThrees(d) + f) == Accepted(d + f)
  {
    hide Body, Commas, Plain, Fraction;
    var k := (|d| - 1) % 3 + 1;
    assert forall ch :: ch in d[..k] ==> ch in d;
    assert forall ch :: ch in d[k..] ==> ch in d;
    assert d == d[..k] + d[k..];
    if |d| <= 3 {
      NoCommas();
      assert GroupInThrees(d) == d;
      DigitsThenFraction(d, f);
      PlainBody(d + f, false);
      assert d + f + "" == d + f;
    } else {
      LongGroupBody(d[..k], d[k..], f);
    }
  }

  lemma LongGroupBody(head: string, d: string, f: string)
    requires AllDigits(head) && 1 <= |head| <= 3 && d != "" && |d| % 3 == 0 && AllDigits(d) && Fraction(f)
    ensures Body(head + Commas(d) + f) == Accepted(head + d + f)
  {
    hide Grouped, LastIndex, Keep, Commas, Fraction, Plain;
    var u := head + Commas(d) + f;
    GroupedShape(head, d, f);
    GroupedKeeps(head, d, f);
    GroupedEdges(head, d, f);
    CommasKeep(d);
    assert '.' !in head + Commas(d);
    PointAfterCommas(head + Commas(d), f);
  }

  lemma GroupedEdges(head: string, d: string, f: string)
    requires AllDigits(head) && head != "" && d != "" && |d| % 3 == 0 && AllDigits(d) && Fraction(f)
    ensures var u := head + Commas(d) + f;
      u != "" && IsDigit(u[0]) && ',' in u && Chop(u) == u && !EndsWith(u, ')')
  {
    hide Commas, Fraction;
    var u := head + Commas(d) + f;
    FractionNumeric(f);
    CommasKeep(d);
    assert u[|head|] == ',';
    assert u[0] == head[0] && head[0] in head;
    assert u[|u| - 1] in head + Commas(d) || u[|u| - 1] in f;
  }

  lemma NoCommas()
    ensures Commas("") == ""
  {}

  lemma GroupedShape(head: string, d: string, f: string)
    requires AllDigits(head) && 1 <= |head| <= 3 && d != "" && |d| % 3 == 0 && AllDigits(d) && Fraction(f)
    ensures Grouped(head + Commas(d) + f)
  {
    hide Groups, Commas;
    CommasKeep(d);
    CommasParse(d, f);
    var rest := Commas(d) + f;
    assert head + Commas(d) + f == head + rest;
    RunIs(head, rest);
    assert (head + rest)[|head|..] == rest;
  }

  lemma GroupedKeeps(head: string, d: string, f: string)
    requires AllDigits(head) && |d| % 3 == 0 && AllDigits(d) && Fraction(f)
    ensures WithoutCommas(head + Commas(d) + f) == head + d + f
  {
    hide Keep, Commas;
    FractionNumeric(f);
    CommasKeep(d);
    KeepConcat(head + Commas(d), f, NotComma);
    KeepConcat(head, Commas(d), NotComma);
    KeepAll(head, NotComma);
    KeepAll(f, NotComma);
  }

  lemma PointAfterCommas(g: string, f: string)
    requires '.' !in g && Fraction(f)
    ensures '.' in g + f ==> LastIndex(g + f, '.') >= LastIndex(g + f, ',')
  {
    hide LastIndex;
    var s := g + f;
    LastIndexIs(s, '.');
    LastIndexIs(s, ',');
    FractionNumeric(f);
    if '.' in s {
      assert f != "" && s[|g|] == '.';
      assert forall k :: |g| <= k < |s| ==> s[k] == f[k - |g|] && s[k] in f;
    }
  }

  /** Parentheses negate a number and a matching currency code or sign changes nothing. */
  lemma DecoratedRoundTrip(d: string, f: string, code: string)
    requires d != "" && AllDigits(d) && Fraction(f)
    requires |code| == 3 && forall ch :: ch in code ==> IsUpper(ch)
    ensures var g := GroupInThrees(d) + f;
      && Parse("(" + g + ")", None) == Accepted("-" + (d + f))
      && Parse(code + " " + g, Some(code)) == Accepted(d + f)
      && Parse("$" + g, Some(code)) == Accepted(d + f)
      && Parse(code + " " + g, None) == Failed(CurrencyAuthorityMissing)
  {
    hide Body, GroupInThrees, MatchCurrency;
    var g := GroupInThrees(d) + f;
    GroupedClean(d, f);
    GroupedBody(d, f);
    BareIsBody(g, None);
    var wrapped, priced, dollars := "(" + g + ")", code + " " + g, "$" + g;
    assert wrapped[1..|wrapped| - 1] == g;
    assert Unwrap(wrapped) == Some((g, true));
    CodeMatches(code, g);
    assert code[0] in code && priced[0] == code[0] && priced[|priced| - 1] == g[|g| - 1];
    assert Unwrap(priced) == Some((priced, false));
    assert Amount(priced, Some(code)) == Ok(g);
    assert dollars[1..] == g && dollars[|dollars| - 1] == g[|g| - 1] && Unwrap(dollars) == Some((dollars, false));
    assert MatchCurrency(dollars).None? by { DollarIsNoCode(g); }
    assert Amount(dollars, Some(code)) == Ok(g);
  }

  lemma DollarIsNoCode(g: string)
    ensures MatchCurrency("$" + g).None?
  {}

  lemma CodeMatches(code: string, g: string)
    requires |code| == 3 && forall ch :: ch in code ==> IsUpper(ch)
    requires Bare(g) && GroupText(g)
    ensures MatchCurrency(code + " " + g) == Some(Money(code, g))
  {
    var t, s := code + " " + g, " " + g;
    assert code[0] in code && code[1] in code && code[2] in code;
    assert t[3..] == s && t[..3] == code;
    assert s[1..] == g && s[0] == ' ';
    assert Run(s, IsSpace) == 1;
    assert g[|g| - 1] in g && s[|s| - 1] == g[|g| - 1];
    assert Chop(s) == s && s[1..|s|] == g;
    assert AmountStart(s) == 1;
  }

  // ---- Which texts are numbers ----

  /** Every comma group sequence is the commas of its digits and a fraction. */
  lemma {:induction false} GroupsExactly(s: string) returns (d: string, f: string)
    requires Groups(s)
    ensures d != "" && |d| % 3 == 0 && AllDigits(d) && Fraction(f) && s == Commas(d) + f
  {
    hide Fraction, Commas;
    var rest := s[4..];
    assert s == "," + s[1..4] + rest;
    if Fraction(rest) {
      d, f := s[1..4], rest;
      NoCommas();
      CommasStep(d);
      assert d[..3] == d && d[3..] == "";
      assert Commas(d) + f == s;
    } else {
      var e;
      e, f := GroupsExactly(rest);
      d := s[1..4] + e;
      assert d[..3] == s[1..4] && d[3..] == e;
      assert forall ch :: ch in d ==> ch in s[1..4] || ch in e;
      CommasStep(d);
      Reassociate("," + s[1..4], Commas(e), f);
    }
  }

  /** Before groups of three the head has what is left over. */
  lemma HeadLength(n: nat, rest: nat)
    requires 1 <= n <= 3 && rest % 3 == 0
    ensures (n + rest - 1) % 3 + 1 == n
  {}

  /** A grouped text is some digits grouped in threes from the right, more than three of them, and a fraction. */
  lemma GroupedExactly(s: string) returns (d: string, f: string)
    requires Grouped(s)
    ensures |d| > 3 && AllDigits(d) && Fraction(f) && s == GroupInThrees(d) + f
  {
    hide Groups, Commas, Fraction, Run;
    var n := Run(s, IsDigit);
    var e;
    e, f := GroupsExactly(s[n..]);
    d := s[..n] + e;
    HeadLength(n, |e|);
    assert d[..n] == s[..n] && d[n..] == e;
    assert forall ch :: ch in d ==> ch in s[..n] || ch in e;
    assert s == s[..n] + s[n..];
    Reassociate(s[..n], Commas(e), f);
  }

  lemma PlainExactly(s: string) returns (d: string, f: string)
    requires Plain(s)
    ensures d != "" && AllDigits(d) && Fraction(f) && s == d + f
  {
    var n := Run(s, IsDigit);
    d, f := s[..n], s[n..];
  }

  /** s is a number that the normaliser reads: digits, plain or grouped in threes, and a fraction. */
  ghost predicate Reads(s: string, d: string, f: string) {
    d != "" && AllDigits(d) && Fraction(f) && (s == d + f || s == GroupInThrees(d) + f)
  }

  /** Exactly the numbers are accepted, plain or grouped in threes, and each is read as its digits and fraction. */
  lemma AcceptedExactly(u: string)
    ensures Body(u).Accepted? <==> exists d, f :: Reads(Chop(u), d, f)
  {
    hide LastIndex, Plain, Grouped, Keep, Fraction, GroupInThrees;
    var s := Chop(u);
    if Body(u).Accepted? {
      if ',' in u {
        var d, f := GroupedExactly(s);
        assert Reads(s, d, f);
      } else {
        var d, f := PlainExactly(s);
        assert Reads(s, d, f);
      }
    }
    if d, f :| Reads(s, d, f) { ReadsAccepted(u, d, f); }
  }

  lemma ReadsAccepted(u: string, d: string, f: string)
    requires Reads(Chop(u), d, f)
    ensures Body(u).Accepted?
  {
    var s := Chop(u);
    hide LastIndex, Plain, Grouped, Keep, Fraction, GroupInThrees;
    if s == d + f {
      DigitsThenFraction(d, f);
      PlainBodyOf(u, s);
    } else {
      GroupedClean(d, f);
      GroupedBody(d, f);
      assert !EndsWith(s, '\n') by { assert s[|s| - 1] in s; }
      NewlineAfter(u, s);
    }
  }

  lemma PlainBodyOf(u: string, s: string)
    requires Plain(s) && s == Chop(u)
    ensures Body(u).Accepted?
  {
    hide Plain;
    PlainBody(s, EndsWith(u, '\n'));
    assert s + "" == s;
    assert u == s + Ending(u);
  }

  /** A final newline does not change whether a number is accepted. */
  lemma NewlineAfter(u: string, s: string)
    requires s == Chop(u) && Bare(s) && Body(s).Accepted? && !EndsWith(s, '\n')
    ensures Body(u).Accepted?
  {
    hide Plain, Grouped, Keep;
    assert u == s + Ending(u);
    assert forall ch :: ch in u <==> ch in s || ch in Ending(u);
    assert u[0] == s[0];
    LastIndexIs(s, '.');
    LastIndexIs(s, ',');
    LastIndexIs(u, '.');
    LastIndexIs(u, ',');
    hide LastIndex;
  }

  // ---- Which texts fail, and how ----

  /** The character is taken from the front if it is there. */
  ghost predicate Dropped(s: string, ch: char, rest: string, taken: bool) {
    if taken then s == [ch] + rest else s == rest && (s == "" || s[0] != ch)
  }

  /** Parentheses are taken away together, or there are none. */
  ghost predicate Opened(text: string, inner: string, wrapped: bool) {
    if wrapped then text == "(" + inner + ")"
    else text == inner && text != "" && text[0] != '(' && text[|text| - 1] != ')'
  }

  /** text is t under its signs: parentheses around it, a minus, then a plus, each at most once; negative says which. */
  ghost predicate Peeled(text: string, t: string, negative: bool) {
    exists inner, unsigned, wrapped, minus, plus ::
      Opened(text, inner, wrapped) && Dropped(inner, '-', unsigned, minus) && Dropped(unsigned, '+', t, plus)
      && negative == (wrapped || minus)
  }

  function DropFirst(s: string, ch: char): string {
    if StartsWith(s, ch) then s[1..] else s
  }

  lemma DropFirstIs(s: string, ch: char, rest: string, taken: bool)
    ensures Dropped(s, ch, rest, taken) <==> rest == DropFirst(s, ch) && taken == StartsWith(s, ch)
  {
    if taken { assert ([ch] + rest)[1..] == rest; }
    if StartsWith(s, ch) { assert s == [ch] + s[1..]; }
  }

  lemma OpenIs(text: string, inner: string, wrapped: bool)
    ensures Opened(text, inner, wrapped) <==>
      && text != "" && StartsWith(text, '(') == EndsWith(text, ')') == wrapped
      && inner == if wrapped then text[1..|text| - 1] else text
  {
    if wrapped && text == "(" + inner + ")" { assert text[1..|text| - 1] == inner; }
    if StartsWith(text, '(') && EndsWith(text, ')') { assert text == "(" + text[1..|text| - 1] + ")"; }
  }

  lemma UnwrapIs(text: string, t: string, negative: bool)
    ensures Unwrap(text) == Some((t, negative)) <==> Peeled(text, t, negative)
  {
    hide Opened, Dropped;
    forall inner, wrapped { OpenIs(text, inner, wrapped); }
    forall s, ch, rest, taken { DropFirstIs(s, ch, rest, taken); }
    if Unwrap(text).Some? {
      var wrapped := StartsWith(text, '(');
      var inner := if wrapped then text[1..|text| - 1] else text;
      var unsigned := DropFirst(inner, '-');
      assert Opened(text, inner, wrapped) && Dropped(inner, '-', unsigned, StartsWith(inner, '-'));
      assert Dropped(unsigned, '+', DropFirst(unsigned, '+'), StartsWith(unsigned, '+'));
    }
  }

  /** What is left once a currency code or sign that the authority covers is gone. */
  ghost predicate Remains(t: string, authority: Option<string>, u: string) {
    exists base :: Uncoded(t, authority, base)
      && if base != "" && base[0] == '$' then authority.Some? && base == "$" + u else u == base
  }

  ghost predicate Uncoded(t: string, authority: Option<string>, base: string) {
    match MatchCurrency(t)
    case None => base == t
    case Some(m) => authority == Some(m.code) && base == m.amount
  }

  predicate StillSigned(u: string) {
    u != "" && (u[0] == '-' || u[0] == '+' || u[0] == '(' || u[|u| - 1] == ')')
  }

  /** There is a point, and none after some comma. */
  ghost predicate PointBeforeComma(u: string) {
    '.' in u && exists i :: 0 <= i < |u| && u[i] == ',' && '.' !in u[i..]
  }

  ghost predicate FailsAs(t: string, authority: Option<string>, code: FailureCode) {
    match code
    case CurrencyAuthorityMissing => authority.None? && (MatchCurrency(t).Some? || (t != "" && t[0] == '$'))
    case CurrencyConflict => authority.Some? && MatchCurrency(t).Some? && MatchCurrency(t).value.code != authority.value
    case AmbiguousLocale => exists u :: Remains(t, authority, u) && !StillSigned(u) && PointBeforeComma(u)
    case MalformedGrouping =>
      exists u :: Remains(t, authority, u) && !StillSigned(u) && !PointBeforeComma(u) && ',' in u
                  && forall d, f :: !Reads(Chop(u), d, f)
  }

  lemma AmountRemains(t: string, authority: Option<string>, u: string)
    ensures Amount(t, authority) == Ok(u) <==> Remains(t, authority, u)
  {
    hide MatchCurrency;
    var money := MatchCurrency(t);
    var base := if money.Some? then money.value.amount else t;
    if Amount(t, authority) == Ok(u) {
      assert Uncoded(t, authority, base);
      assert base != "" && base[0] == '$' ==> base == "$" + u;
    }
  }

  lemma AmountFails(t: string, authority: Option<string>, code: FailureCode)
    ensures Amount(t, authority) == Err(code) <==>
      (code == CurrencyAuthorityMissing || code == CurrencyConflict) && FailsAs(t, authority, code)
  {
    hide MatchCurrency;
  }

  lemma LastPoint(u: string)
    ensures ',' in u && '.' in u && LastIndex(u, '.') < LastIndex(u, ',') <==> PointBeforeComma(u)
  {
    LastIndexIs(u, '.');
    LastIndexIs(u, ',');
    hide LastIndex;
    if ',' in u && '.' in u && LastIndex(u, '.') < LastIndex(u, ',') {
      var i := LastIndex(u, ',');
      assert u[i] == ',' && forall k :: 0 <= k < |u[i..]| ==> u[i..][k] == u[i + k];
    }
    if PointBeforeComma(u) {
      var i :| 0 <= i < |u| && u[i] == ',' && '.' !in u[i..];
      assert forall k :: i <= k < |u| ==> u[i..][k - i] == u[k];
    }
  }

  lemma BodyFails(u: string, code: FailureCode)
    ensures Body(u) == Failed(code) <==>
      && !StillSigned(u)
      && ((code == AmbiguousLocale && PointBeforeComma(u))
          || (code == MalformedGrouping && !PointBeforeComma(u) && ',' in u && forall d, f :: !Reads(Chop(u), d, f)))
  {
    LastPoint(u);
    AcceptedExactly(u);
    hide LastIndex, Grouped, Plain, PointBeforeComma, WithoutCommas, Reads, Chop;
  }

  /** A text fails, with one of the four codes, exactly when under its signs it fails in that way. */
  lemma FailsExactly(text: string, authority: Option<string>, code: FailureCode)
    ensures Parse(text, authority) == Failed(code) <==>
      exists t, negative :: Peeled(text, t, negative) && FailsAs(t, authority, code)
  {
    hide Unwrap, Amount, Body, Peeled, FailsAs;
    if Unwrap(text).Some? {
      var (t, negative) := Unwrap(text).value;
      UnwrapIs(text, t, negative);
      UnderSigns(t, negative, authority, code);
    }
    if t, negative :| Peeled(text, t, negative) && FailsAs(t, authority, code) { UnwrapIs(text, t, negative); }
  }

  ghost function UnderAmount(t: string, negative: bool, authority: Option<string>): Parsed {
    match Amount(t, authority)
    case Err(e) => Failed(e)
    case Ok(u) => Signed(Body(u), negative)
  }

  lemma UnderSigns(t: string, negative: bool, authority: Option<string>, code: FailureCode)
    ensures UnderAmount(t, negative, authority) == Failed(code) <==> FailsAs(t, authority, code)
  {
    hide Amount, Body, MatchCurrency, Remains, PointBeforeComma, Reads, Chop;
    AmountFails(t, authority, code);
    forall u ensures Amount(t, authority) == Ok(u) <==> Remains(t, authority, u) { AmountRemains(t, authority, u); }
    match Amount(t, authority) {
      case Err(_) =>
      case Ok(u) => BodyFails(u, code);
    }
  }
}
