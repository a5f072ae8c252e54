/** The currencies a transaction may be recorded in (`models/enums.py`). */
module Enums {
  import opened Wrappers

  /** The ten supported currencies. */
  datatype Currency = USD | EUR | MXN | GBP | JPY | CAD | AUD | CHF | CNY | BRL

  /** The enum member's value: the ISO 4217 code, as stored and as accepted on input. */
  function Code(c: Currency): (s: string)
    ensures |s| == 3
  {
    match c
    case USD => "USD"
    case EUR => "EUR"
    case MXN => "MXN"
    case GBP => "GBP"
    case JPY => "JPY"
    case CAD => "CAD"
    case AUD => "AUD"
    case CHF => "CHF"
    case CNY => "CNY"
    case BRL => "BRL"
  }

  /** The members in declaration order, which is also the order of iteration over the enum. */
  function Members(): (cs: seq<Currency>)
    ensures |cs| == 10
  {
    [USD, EUR, MXN, GBP, JPY, CAD, AUD, CHF, CNY, BRL]
  }

  /** Every currency is one of the members. */
  lemma MembersComplete(c: Currency)
    ensures c in Members()
  {
    var cs := Members();
    match c
    case USD => assert cs[0] == c;
    case EUR => assert cs[1] == c;
    case MXN => assert cs[2] == c;
    case GBP => assert cs[3] == c;
    case JPY => assert cs[4] == c;
    case CAD => assert cs[5] == c;
    case AUD => assert cs[6] == c;
    case CHF => assert cs[7] == c;
    case CNY => assert cs[8] == c;
    case BRL => assert cs[9] == c;
  }

  /** The first member of `cs` whose value is `s`. */
  function Lookup(s: string, cs: seq<Currency>): (r: Option<Currency>)
    ensures r.Some? ==> r.value in cs && Code(r.value) == s
    ensures r.None? ==> forall c :: c in cs ==> Code(c) != s
  {
    if |cs| == 0 then None
    else if Code(cs[0]) == s then Some(cs[0])
    else Lookup(s, cs[1..])
  }

  /**
   * `Currency(s)`: the member whose value is `s`, or `None` when no member
   * has that value (the model rejects the input then).
   */
  function ParseCurrency(s: string): (r: Option<Currency>)
    ensures r.Some? ==> Code(r.value) == s
    ensures r.None? ==> forall c: Currency :: Code(c) != s
  {
    var r := Lookup(s, Members());
    assert r.None? ==> forall c: Currency :: Code(c) != s by {
      forall c: Currency ensures r.None? ==> Code(c) != s {
        MembersComplete(c);
      }
    }
    r
  }

  /** Every member is found again from its value. */
  lemma ParseCode(c: Currency)
    ensures ParseCurrency(Code(c)) == Some(c)
  {
    var r := ParseCurrency(Code(c));
    assert r.Some?;
    CodeInjective(r.value, c);
  }

  /** No two members share a value. */
  lemma CodeInjective(a: Currency, b: Currency)
    requires Code(a) == Code(b)
    ensures a == b
  {
    assert Code(a)[0] == Code(b)[0] && Code(a)[1] == Code(b)[1] && Code(a)[2] == Code(b)[2];
  }
}
