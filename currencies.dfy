/**
 * The closed set of supported currencies, the constant rate table and the
 * parsing of a caller's currency code into a member of that set.
 */
module Currencies {
  import opened Wrappers

  /** The eight members of the `Currency` enum. */
  datatype Currency = USD | EUR | GBP | JPY | CAD | AUD | CHF | CNY

  /** The member's value, its canonical upper-case code. */
  function Code(c: Currency): (v: string)
    ensures |v| == 3
    ensures forall i :: 0 <= i < |v| ==> 'A' <= v[i] <= 'Z'
  {
    match c
    case USD => "USD"
    case EUR => "EUR"
    case GBP => "GBP"
    case JPY => "JPY"
    case CAD => "CAD"
    case AUD => "AUD"
    case CHF => "CHF"
    case CNY => "CNY"
  }

  /** Units of each currency per one US dollar, keyed by code; never mutated. */
  const ExchangeRates: map<string, real> := map[
    "USD" := 1.0,
    "EUR" := 0.85,
    "GBP" := 0.73,
    "JPY" := 110.0,
    "CAD" := 1.25,
    "AUD" := 1.35,
    "CHF" := 0.92,
    "CNY" := 6.45
  ]

  /**
   * `Currency(v)`: the member whose value is exactly v, or None where the
   * enum lookup raises.
   */
  function FromValue(v: string): (r: Option<Currency>)
    ensures r.Some? ==> Code(r.value) == v
    ensures r.None? ==> forall c :: Code(c) != v
  {
    if v == "USD" then Some(USD)
    else if v == "EUR" then Some(EUR)
    else if v == "GBP" then Some(GBP)
    else if v == "JPY" then Some(JPY)
    else if v == "CAD" then Some(CAD)
    else if v == "AUD" then Some(AUD)
    else if v == "CHF" then Some(CHF)
    else if v == "CNY" then Some(CNY)
    else None
  }

  /** `EXCHANGE_RATES[c.value]`: the lookup never misses and is never zero. */
  function Rate(c: Currency): (r: real)
    ensures r > 0.0
  {
    ExchangeRates[Code(c)]
  }

  /** The rate of each member, as listed in the table. */
  lemma RateOfEachMember()
    ensures Rate(USD) == 1.0 && Rate(EUR) == 0.85 && Rate(GBP) == 0.73 && Rate(JPY) == 110.0
    ensures Rate(CAD) == 1.25 && Rate(AUD) == 1.35 && Rate(CHF) == 0.92 && Rate(CNY) == 6.45
  {
  }

  /** Every member has an entry in the table. */
  lemma RateTableCoversEnum()
    ensures forall c :: Code(c) in ExchangeRates
  {
    forall c ensures Code(c) in ExchangeRates {
      match c
      case USD => case EUR => case GBP => case JPY =>
      case CAD => case AUD => case CHF => case CNY =>
    }
  }

  /** Every key of the table is the code of some member. */
  lemma RateTableOnlyEnum()
    ensures forall k :: k in ExchangeRates ==> FromValue(k).Some?
  {
    assert ExchangeRates.Keys == {"USD", "EUR", "GBP", "JPY", "CAD", "AUD", "CHF", "CNY"};
  }

  /** Distinct members have distinct codes, so no two share a table entry. */
  lemma CodeInjective(a: Currency, b: Currency)
    requires Code(a) == Code(b)
    ensures a == b
  {
    assert FromValue(Code(a)) == Some(a);
  }

  /** All rates are strictly positive; USD is the pivot at 1.0, and only USD. */
  lemma RatesPositiveWithUsdPivot()
    ensures forall k :: k in ExchangeRates ==> ExchangeRates[k] > 0.0
    ensures ExchangeRates["USD"] == 1.0
    ensures forall c :: Rate(c) == 1.0 <==> c == USD
  {
    RateTableOnlyEnum();
    forall k | k in ExchangeRates ensures ExchangeRates[k] > 0.0 {
      assert ExchangeRates[k] == Rate(FromValue(k).value);
    }
  }

  /** Every member's code is looked up back to that member. */
  lemma FromValueCode(c: Currency)
    ensures FromValue(Code(c)) == Some(c)
  {
  }

  /**
   * Python's `str.upper()` on one character, where it can matter: ASCII
   * lower-case letters, and the two non-ASCII letters whose upper case is a
   * single ASCII letter (U+017F LATIN SMALL LETTER LONG S becomes 'S',
   * U+0131 LATIN SMALL LETTER DOTLESS I becomes 'I'). Every other character
   * is kept as it is.
   */
  function UpperChar(ch: char): (u: char)
    ensures 'a' <= ch <= 'z' ==> 'A' <= u <= 'Z' && u as int - ch as int == 'A' as int - 'a' as int
    ensures 'A' <= u <= 'Z' ==> ch == u || 'a' <= ch <= 'z' || ch == '\U{017F}' || ch == '\U{0131}'
    ensures ch == '\U{017F}' ==> u == 'S'
    ensures ch == '\U{0131}' ==> u == 'I'
    ensures !('a' <= ch <= 'z') && ch != '\U{017F}' && ch != '\U{0131}' ==> u == ch
  {
    if 'a' <= ch <= 'z' then (ch as int - 'a' as int + 'A' as int) as char
    else if ch == '\U{017F}' then 'S'
    else if ch == '\U{0131}' then 'I'
    else ch
  }

  /** `s.upper()`: every character upper-cased in place. */
  function Upper(s: string): (u: string)
    ensures |u| == |s|
    ensures forall i :: 0 <= i < |s| ==> u[i] == UpperChar(s[i])
  {
    if s == [] then [] else [UpperChar(s[0])] + Upper(s[1..])
  }

  /** `Currency(s.upper())`: the caller's code, upper-cased, must name a member. */
  function Parse(s: string): (r: Option<Currency>)
    ensures r.Some? ==> Code(r.value) == Upper(s)
    ensures r.None? ==> forall c :: Code(c) != Upper(s)
  {
    FromValue(Upper(s))
  }

  /** Upper-casing an upper-cased string changes nothing. */
  lemma {:induction false} UpperIdempotent(s: string)
    ensures Upper(Upper(s)) == Upper(s)
  {
    var u := Upper(s);
    forall i | 0 <= i < |s| ensures Upper(u)[i] == u[i] {
      assert UpperChar(UpperChar(s[i])) == UpperChar(s[i]);
    }
  }

  /** Parsing is insensitive to case: an upper-cased code parses the same. */
  lemma ParseIgnoresCase(s: string)
    ensures Parse(Upper(s)) == Parse(s)
  {
    UpperIdempotent(s);
  }

  /** s spells code letter by letter, each letter in either ASCII case. */
  predicate SpellsIgnoringAsciiCase(s: string, code: string)
    requires forall i :: 0 <= i < |code| ==> 'A' <= code[i] <= 'Z'
  {
    |s| == |code| &&
    forall i :: 0 <= i < |s| ==>
      s[i] == code[i] || s[i] as int == code[i] as int - 'A' as int + 'a' as int
  }

  /** Every mix of ASCII cases of a member's code parses to that member. */
  lemma ParseAcceptsAnyCase(s: string, c: Currency)
    requires SpellsIgnoringAsciiCase(s, Code(c))
    ensures Parse(s) == Some(c)
  {
    var u := Upper(s);
    forall i | 0 <= i < |s| ensures u[i] == Code(c)[i] {
      if s[i] != Code(c)[i] {
        assert 'a' <= s[i] <= 'z';
      }
    }
    assert u == Code(c);
    FromValueCode(c);
  }

  /** A string that is not three characters long never names a member. */
  lemma ParseRejectsLength(s: string)
    requires |s| != 3
    ensures Parse(s) == None
  {
  }

  /** A member's own code parses back to that member. */
  lemma ParseCanonicalCode(c: Currency)
    ensures Parse(Code(c)) == Some(c)
  {
    ParseAcceptsAnyCase(Code(c), c);
  }

  /** Lower-case and mixed-case spellings of codes are accepted. */
  lemma ParseCaseExamples()
    ensures Parse("usd") == Some(USD)
    ensures Parse("Eur") == Some(EUR)
    ensures Parse("jpy") == Some(JPY)
    ensures Parse("gbp") == Some(GBP)
  {
    ParseAcceptsAnyCase("usd", USD);
    ParseAcceptsAnyCase("Eur", EUR);
    ParseAcceptsAnyCase("jpy", JPY);
    ParseAcceptsAnyCase("gbp", GBP);
  }

  /** Python upper-cases U+017F to 'S', so "u\U{017F}d" is accepted as USD. */
  lemma ParseLongSExample()
    ensures Parse("u\U{017F}d") == Some(USD)
  {
    assert Upper("u\U{017F}d") == "USD";
  }

  /** An unknown code, or a code with surrounding blanks, is refused. */
  lemma ParseRejectExamples()
    ensures Parse("XXX") == None
    ensures Parse(" usd") == None
  {
    assert Upper("XXX") == "XXX";
    ParseRejectsLength(" usd");
  }
}
