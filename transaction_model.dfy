/**
 * The transaction record and its validation (`models/transaction.py`).
 *
 * Construction validates every field and reports every failing field, in
 * declaration order; `str` fields have surrounding whitespace stripped.
 * Clock readings (`datetime.now()`) are a parameter `now`.
 */
module TransactionModel {
  import opened Wrappers
  import opened Enums

  /** A naive local `datetime`, as an instant on an ordered time line. */
  type Timestamp = int

  /** A validated transaction. */
  datatype Transaction = Transaction(
    id: string,
    amount: real,
    currency: Currency,
    transactionDate: Timestamp,
    category: Option<string>,
    createdAt: Timestamp)

  /**
   * The keyword arguments given to the constructor, already parsed into
   * their Python types; `None` is an argument that was not given (or, for
   * `category`, given as `None`).
   */
  datatype TransactionInput = TransactionInput(
    id: Option<string>,
    amount: Option<real>,
    currency: Option<string>,
    transactionDate: Option<Timestamp>,
    category: Option<string>,
    createdAt: Option<Timestamp>)

  /** One reason the constructor rejects its input. */
  datatype ValidationError =
    | FieldRequired(field: string)
    | AmountNotPositive
    | DateInFuture
    | UnknownCurrency(given: string)

  /** The text of the `ValueError` raised by the two custom validators. */
  function Message(e: ValidationError): (m: string)
    requires e.AmountNotPositive? || e.DateInFuture?
  {
    if e.AmountNotPositive? then "Amount must be greater than 0"
    else "Transaction date cannot be in the future"
  }

  /** `validate_amount`: the amount is kept when it is greater than 0, rejected otherwise. */
  function ValidateAmount(amount: real): (r: Result<real, ValidationError>)
    ensures r.Ok? <==> amount > 0.0
    ensures r.Ok? ==> r.value == amount
    ensures r.Err? ==> r.error == AmountNotPositive
  {
    if !(amount <= 0.0) then Ok(amount) else Err(AmountNotPositive)
  }

  /** `validate_transaction_date`: the date is kept unless it lies after `now`. */
  function ValidateTransactionDate(date: Timestamp, now: Timestamp): (r: Result<Timestamp, ValidationError>)
    ensures r.Ok? <==> date <= now
    ensures r.Ok? ==> r.value == date
    ensures r.Err? ==> r.error == DateInFuture
  {
    if date <= now then Ok(date) else Err(DateInFuture)
  }

  /**
   * The code point ranges, both ends included, of the Unicode White_Space
   * property, numbered 0 to 9.
   */
  function WhitespaceRange(i: nat): (int, int)
  {
    match i
    case 0 => (0x09, 0x0D)
    case 1 => (0x20, 0x20)
    case 2 => (0x85, 0x85)
    case 3 => (0xA0, 0xA0)
    case 4 => (0x1680, 0x1680)
    case 5 => (0x2000, 0x200A)
    case 6 => (0x2028, 0x2029)
    case 7 => (0x202F, 0x202F)
    case 8 => (0x205F, 0x205F)
    case _ => (0x3000, 0x3000)
  }

  /** `x` lies in one of the whitespace ranges numbered `i` to 9. */
  predicate InRangesFrom(x: int, i: nat)
    decreases 10 - i
  {
    i < 10 && (WhitespaceRange(i).0 <= x <= WhitespaceRange(i).1 || InRangesFrom(x, i + 1))
  }

  /** A character with the Unicode White_Space property. */
  predicate IsWhitespace(c: char)
  {
    InRangesFrom(c as int, 0)
  }

  /** Among ASCII characters, the whitespace ones are the space and `\t` through `\r`. */
  lemma AsciiWhitespace(c: char)
    requires c as int < 128
    ensures IsWhitespace(c) <==> c == ' ' || '\t' <= c <= '\r'
  {
    NoAsciiFrom(c as int, 2);
  }

  /** The whitespace ranges numbered `i` >= 2 lie above ASCII. */
  lemma {:induction false} NoAsciiFrom(x: int, i: nat)
    requires x < 128 && i >= 2
    ensures !InRangesFrom(x, i)
    decreases 10 - i
  {
    if i < 10 {
      NoAsciiFrom(x, i + 1);
    }
  }

  /*
   * Stripping is stated for any character class `ws`; `Strip` is the case
   * of the White_Space class. The proofs only use that `ws` is a test on
   * characters, not which characters it accepts.
   */

  /** Every character of `s` is in the class `ws`. */
  predicate All(s: string, ws: char -> bool)
  {
    forall i :: 0 <= i < |s| ==> ws(s[i])
  }

  /** The number of leading characters of `s` in the class `ws`. */
  function Leading(s: string, ws: char -> bool): (n: nat)
    ensures n <= |s|
    ensures forall k :: 0 <= k < n ==> ws(s[k])
    ensures n < |s| ==> !ws(s[n])
    decreases |s|
  {
    if |s| > 0 && ws(s[0]) then 1 + Leading(s[1..], ws) else 0
  }

  /** The number of trailing characters of `s` in the class `ws`. */
  function Trailing(s: string, ws: char -> bool): (n: nat)
    ensures n <= |s|
    ensures forall k :: |s| - n <= k < |s| ==> ws(s[k])
    ensures n < |s| ==> !ws(s[|s| - n - 1])
    decreases |s|
  {
    if |s| > 0 && ws(s[|s| - 1]) then 1 + Trailing(s[..|s| - 1], ws) else 0
  }

  /** `s` without its leading characters of class `ws`. */
  function TrimStart(s: string, ws: char -> bool): (r: string)
    ensures |r| > 0 ==> !ws(r[0])
  {
    s[Leading(s, ws)..]
  }

  /** `s` without its trailing characters of class `ws`. */
  function TrimEnd(s: string, ws: char -> bool): (r: string)
    ensures |r| > 0 ==> !ws(r[|r| - 1])
  {
    s[..|s| - Trailing(s, ws)]
  }

  /** `str.strip` with a character class: `s` without leading and trailing characters of class `ws`. */
  function StripChars(s: string, ws: char -> bool): (r: string)
    ensures |r| <= |s|
    ensures |r| > 0 ==> !ws(r[0]) && !ws(r[|r| - 1])
  {
    TrimEnd(TrimStart(s, ws), ws)
  }

  /** `str_strip_whitespace`: `s` without leading and trailing whitespace. */
  function Strip(s: string): (r: string)
    ensures |r| <= |s|
    ensures |r| > 0 ==> !IsWhitespace(r[0]) && !IsWhitespace(r[|r| - 1])
  {
    StripChars(s, IsWhitespace)
  }

  /**
   * The stripped string is the slice of `s` that starts after the leading
   * characters of class `ws`, and only such characters lie before and after it.
   */
  lemma StripSlice(s: string, ws: char -> bool)
    ensures Leading(s, ws) + |StripChars(s, ws)| <= |s|
    ensures StripChars(s, ws) == s[Leading(s, ws)..Leading(s, ws) + |StripChars(s, ws)|]
    ensures forall k :: 0 <= k < Leading(s, ws) ==> ws(s[k])
    ensures forall k :: Leading(s, ws) + |StripChars(s, ws)| <= k < |s| ==> ws(s[k])
  {
    var i := Leading(s, ws);
    var t := TrimStart(s, ws);
    var n := Trailing(t, ws);
    var r := StripChars(s, ws);
    assert t == s[i..];
    assert r == t[..|t| - n];
    assert r == s[i..i + |r|];
    forall k | i + |r| <= k < |s|
      ensures ws(s[k])
    {
      assert |t| - n <= k - i < |t|;
      assert s[k] == t[k - i];
    }
  }

  /** Stripping twice is stripping once. */
  lemma StripIdempotent(s: string, ws: char -> bool)
    ensures StripChars(StripChars(s, ws), ws) == StripChars(s, ws)
  {
    StripClean(StripChars(s, ws), ws);
  }

  /** A string that neither starts nor ends with a character of class `ws` is left as it is. */
  lemma StripClean(s: string, ws: char -> bool)
    requires |s| > 0 ==> !ws(s[0]) && !ws(s[|s| - 1])
    ensures StripChars(s, ws) == s
  {
    assert TrimStart(s, ws) == s;
    assert TrimEnd(s, ws) == s;
  }

  /** Characters of class `ws` around a string that neither starts nor ends with one are all removed. */
  lemma {:induction false} StripSurrounded(pre: string, s: string, post: string, ws: char -> bool)
    requires All(pre, ws) && All(post, ws)
    requires |s| > 0 && !ws(s[0]) && !ws(s[|s| - 1])
    ensures StripChars(pre + s + post, ws) == s
  {
    TrimStartClass(pre, s + post, ws);
    assert pre + s + post == pre + (s + post);
    TrimEndClass(s, post, ws);
  }

  /** A leading run of class `ws` before a character outside it is all removed. */
  lemma TrimStartClass(pre: string, s: string, ws: char -> bool)
    requires All(pre, ws) && |s| > 0 && !ws(s[0])
    ensures TrimStart(pre + s, ws) == s
  {
    LeadingRun(pre, s, ws);
    assert (pre + s)[|pre|..] == s;
  }

  /** The leading run of `pre + s` is `pre` when `s` starts outside the class. */
  lemma {:induction false} LeadingRun(pre: string, s: string, ws: char -> bool)
    requires All(pre, ws) && |s| > 0 && !ws(s[0])
    ensures Leading(pre + s, ws) == |pre|
    decreases |pre|
  {
    if |pre| > 0 {
      assert (pre + s)[1..] == pre[1..] + s;
      LeadingRun(pre[1..], s, ws);
    } else {
      assert pre + s == s;
    }
  }

  /** A trailing run of class `ws` after a character outside it is all removed. */
  lemma TrimEndClass(s: string, post: string, ws: char -> bool)
    requires All(post, ws) && |s| > 0 && !ws(s[|s| - 1])
    ensures TrimEnd(s + post, ws) == s
  {
    TrailingRun(s, post, ws);
    assert (s + post)[..|s|] == s;
  }

  /** The trailing run of `s + post` is `post` when `s` ends outside the class. */
  lemma {:induction false} TrailingRun(s: string, post: string, ws: char -> bool)
    requires All(post, ws) && |s| > 0 && !ws(s[|s| - 1])
    ensures Trailing(s + post, ws) == |post|
    decreases |post|
  {
    if |post| > 0 {
      assert (s + post)[..|s + post| - 1] == s + post[..|post| - 1];
      TrailingRun(s, post[..|post| - 1], ws);
    } else {
      assert s + post == s;
    }
  }

  /** The errors of the required field `id`: "Field required" when it was not given. */
  function IdErrors(id: Option<string>): (es: seq<ValidationError>)
    ensures forall e :: e in es <==> id.None? && e == FieldRequired("id")
  {
    if id.None? then [FieldRequired("id")] else []
  }

  /** The errors of the required field `amount`: missing, or rejected by `validate_amount`. */
  function AmountErrors(amount: Option<real>): (es: seq<ValidationError>)
    ensures forall e :: e in es <==>
      || (amount.None? && e == FieldRequired("amount"))
      || (amount.Some? && amount.value <= 0.0 && e == AmountNotPositive)
  {
    match amount
    case None => [FieldRequired("amount")]
    case Some(a) => if ValidateAmount(a).Err? then [ValidateAmount(a).error] else []
  }

  /** The errors of the required field `currency`: missing, or not a member of the enum. */
  function CurrencyErrors(currency: Option<string>): (es: seq<ValidationError>)
    ensures forall e :: e in es <==>
      || (currency.None? && e == FieldRequired("currency"))
      || (currency.Some? && ParseCurrency(currency.value).None? && e == UnknownCurrency(currency.value))
  {
    match currency
    case None => [FieldRequired("currency")]
    case Some(c) => if ParseCurrency(c).None? then [UnknownCurrency(c)] else []
  }

  /** The errors of the required field `transaction_date`: missing, or rejected by its validator. */
  function DateErrors(date: Option<Timestamp>, now: Timestamp): (es: seq<ValidationError>)
    ensures forall e :: e in es <==>
      || (date.None? && e == FieldRequired("transaction_date"))
      || (date.Some? && date.value > now && e == DateInFuture)
  {
    match date
    case None => [FieldRequired("transaction_date")]
    case Some(d) => if ValidateTransactionDate(d, now).Err? then [ValidateTransactionDate(d, now).error] else []
  }

  /** All validation errors of `input`, field by field in declaration order. */
  function Errors(input: TransactionInput, now: Timestamp): (es: seq<ValidationError>)
  {
    IdErrors(input.id) + AmountErrors(input.amount) + CurrencyErrors(input.currency)
    + DateErrors(input.transactionDate, now)
  }

  /** The errors of `input` are exactly the failures of its four required fields. */
  lemma ErrorsExactly(input: TransactionInput, now: Timestamp, e: ValidationError)
    ensures e in Errors(input, now) <==>
      || (input.id.None? && e == FieldRequired("id"))
      || (input.amount.None? && e == FieldRequired("amount"))
      || (input.amount.Some? && input.amount.value <= 0.0 && e == AmountNotPositive)
      || (input.currency.None? && e == FieldRequired("currency"))
      || (input.currency.Some? && ParseCurrency(input.currency.value).None? && e == UnknownCurrency(input.currency.value))
      || (input.transactionDate.None? && e == FieldRequired("transaction_date"))
      || (input.transactionDate.Some? && input.transactionDate.value > now && e == DateInFuture)
  {
    var i, a, c, d := IdErrors(input.id), AmountErrors(input.amount), CurrencyErrors(input.currency),
      DateErrors(input.transactionDate, now);
    assert Errors(input, now) == i + a + c + d;
    assert e in i + a + c + d <==> e in i || e in a || e in c || e in d;
  }

  /** Which errors `Errors` reports, and that it reports none exactly when every field is valid. */
  lemma ErrorsReported(input: TransactionInput, now: Timestamp)
    ensures |Errors(input, now)| == 0 <==>
      && input.id.Some? && input.amount.Some? && input.currency.Some? && input.transactionDate.Some?
      && input.amount.value > 0.0
      && input.transactionDate.value <= now
      && ParseCurrency(input.currency.value).Some?
    ensures AmountNotPositive in Errors(input, now) <==> input.amount.Some? && input.amount.value <= 0.0
    ensures DateInFuture in Errors(input, now) <==> input.transactionDate.Some? && input.transactionDate.value > now
    ensures FieldRequired("id") in Errors(input, now) <==> input.id.None?
    ensures FieldRequired("amount") in Errors(input, now) <==> input.amount.None?
    ensures FieldRequired("currency") in Errors(input, now) <==> input.currency.None?
    ensures FieldRequired("transaction_date") in Errors(input, now) <==> input.transactionDate.None?
    ensures input.currency.Some? ==>
      (UnknownCurrency(input.currency.value) in Errors(input, now) <==> ParseCurrency(input.currency.value).None?)
  {
    FieldNamesDistinct();
    ErrorsExactly(input, now, FieldRequired("id"));
    ErrorsExactly(input, now, FieldRequired("amount"));
    ErrorsExactly(input, now, FieldRequired("currency"));
    ErrorsExactly(input, now, FieldRequired("transaction_date"));
    ErrorsExactly(input, now, AmountNotPositive);
    ErrorsExactly(input, now, DateInFuture);
    if input.currency.Some? {
      ErrorsExactly(input, now, UnknownCurrency(input.currency.value));
    }
    var es := Errors(input, now);
    if |es| > 0 {
      ErrorsExactly(input, now, es[0]);
    }
  }

  /** The four required fields have different names. */
  lemma FieldNamesDistinct()
    ensures "id" != "amount" && "id" != "currency" && "id" != "transaction_date"
    ensures "amount" != "currency" && "amount" != "transaction_date" && "currency" != "transaction_date"
  {
    assert |"id"| == 2 && |"amount"| == 6 && |"currency"| == 8 && |"transaction_date"| == 16;
  }

  /**
   * `Transaction(**input)`: a transaction when every field is valid,
   * otherwise every validation error. The amount must be greater than 0,
   * the date not after `now`, the currency one of the enum's values;
   * `category` defaults to `None` and `created_at` to `now`.
   */
  function NewTransaction(input: TransactionInput, now: Timestamp): (r: Result<Transaction, seq<ValidationError>>)
    ensures r.Ok? <==>
      && input.id.Some? && input.amount.Some? && input.currency.Some? && input.transactionDate.Some?
      && input.amount.value > 0.0
      && input.transactionDate.value <= now
      && ParseCurrency(input.currency.value).Some?
    ensures r.Ok? ==>
      && r.value.id == Strip(input.id.value)
      && r.value.amount == input.amount.value
      && Code(r.value.currency) == input.currency.value
      && r.value.transactionDate == input.transactionDate.value
      && r.value.category == (if input.category.Some? then Some(Strip(input.category.value)) else None)
      && r.value.createdAt == (if input.createdAt.Some? then input.createdAt.value else now)
    ensures r.Err? ==> |r.error| > 0
    ensures r.Err? ==> (AmountNotPositive in r.error <==> input.amount.Some? && input.amount.value <= 0.0)
    ensures r.Err? ==> (DateInFuture in r.error <==> input.transactionDate.Some? && input.transactionDate.value > now)
    ensures r.Err? ==> (FieldRequired("id") in r.error <==> input.id.None?)
    ensures r.Err? ==> (FieldRequired("amount") in r.error <==> input.amount.None?)
    ensures r.Err? ==> (FieldRequired("currency") in r.error <==> input.currency.None?)
    ensures r.Err? ==> (FieldRequired("transaction_date") in r.error <==> input.transactionDate.None?)
    ensures r.Err? ==> r.error == Errors(input, now)
    ensures r.Err? && input.currency.Some? ==>
      (UnknownCurrency(input.currency.value) in r.error <==> ParseCurrency(input.currency.value).None?)
  {
    ErrorsReported(input, now);
    var es := Errors(input, now);
    if |es| > 0 then Err(es)
    else
      Ok(Transaction(
        Strip(input.id.value),
        input.amount.value,
        ParseCurrency(input.currency.value).value,
        input.transactionDate.value,
        if input.category.Some? then Some(Strip(input.category.value)) else None,
        if input.createdAt.Some? then input.createdAt.value else now))
  }

  /** A value in the dictionary handed to the database driver. */
  datatype DictValue = Number(x: real) | Text(s: string) | Time(t: Timestamp) | NoneValue

  /** The keys of a stored transaction document. */
  function StoredKeys(): set<string>
  {
    {"amount", "currency", "transaction_date", "category", "created_at"}
  }

  /**
   * `to_dict`: every field except `id`, the amount as a number, the
   * currency as its code, a missing category as `None`.
   */
  function ToDict(t: Transaction): (d: map<string, DictValue>)
    ensures d.Keys == StoredKeys()
    ensures "id" !in d
  {
    map[
      "amount" := Number(t.amount),
      "currency" := Text(Code(t.currency)),
      "transaction_date" := Time(t.transactionDate),
      "category" := (if t.category.Some? then Text(t.category.value) else NoneValue),
      "created_at" := Time(t.createdAt)]
  }

  /** Reading a stored document back, with the `id` it was stored under. */
  function FromDict(d: map<string, DictValue>, id: string): (r: Option<Transaction>)
  {
    if d.Keys == StoredKeys()
      && d["amount"].Number? && d["currency"].Text? && d["transaction_date"].Time?
      && (d["category"].Text? || d["category"].NoneValue?) && d["created_at"].Time?
      && ParseCurrency(d["currency"].s).Some?
    then
      Some(Transaction(id, d["amount"].x, ParseCurrency(d["currency"].s).value,
        d["transaction_date"].t,
        if d["category"].Text? then Some(d["category"].s) else None,
        d["created_at"].t))
    else None
  }

  /** `to_dict` loses nothing but the `id`: the stored document and the id give the transaction back. */
  lemma ToDictRoundTrip(t: Transaction)
    ensures FromDict(ToDict(t), t.id) == Some(t)
  {
    var d := ToDict(t);
    StoredKeysDistinct();
    assert d["amount"] == Number(t.amount);
    assert d["currency"] == Text(Code(t.currency));
    assert d["transaction_date"] == Time(t.transactionDate);
    assert d["category"] == if t.category.Some? then Text(t.category.value) else NoneValue;
    assert d["created_at"] == Time(t.createdAt);
    ParseCode(t.currency);
  }

  /** The five stored keys are different strings. */
  lemma StoredKeysDistinct()
    ensures "amount" != "currency" && "amount" != "transaction_date" && "amount" != "category" && "amount" != "created_at"
    ensures "currency" != "transaction_date" && "currency" != "category" && "currency" != "created_at"
    ensures "transaction_date" != "category" && "transaction_date" != "created_at" && "category" != "created_at"
  {
    assert |"amount"| == 6 && |"currency"| == 8 && |"transaction_date"| == 16 && |"category"| == 8 && |"created_at"| == 10;
    assert "currency"[1] != "category"[1];
  }

  /** A page of results with its position in the whole collection. */
  datatype PaginatedResponse<T> = PaginatedResponse(
    items: seq<T>, total: nat, page: int, limit: int, totalPages: int)

  /** Totals per currency code and counts per category. */
  datatype TransactionStats = TransactionStats(
    totalByCurrency: map<string, real>, countByCategory: map<string, int>)
}
