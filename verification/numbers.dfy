/**
 * The integer coercions the sync modules apply to text fields:
 * `parseInt(x, 10)`, the `|| 0` fallback, `Math.max(0, ...)` over an array
 * field, and `Math.min(...)` with `|| Infinity` over typology fields.
 * `None` stands for NaN. The records of the sync modules carry the results
 * of `ParseInt` on their numeric fields; the aggregates work on those.
 */
module Numbers {
  import opened Wrappers
  import opened Text

  predicate IsDigit(c: char) {
    '0' <= c <= '9'
  }

  predicate AllDigits(s: string) {
    forall i :: 0 <= i < |s| ==> IsDigit(s[i])
  }

  function DigitValue(c: char): nat
    requires IsDigit(c)
  {
    c as int - '0' as int
  }

  function DigitChar(n: nat): (c: char)
    requires n < 10
    ensures IsDigit(c) && DigitValue(c) == n
  {
    ('0' as int + n) as char
  }

  /** The longest prefix made of decimal digits. */
  function LeadingDigits(s: string): (d: string)
    ensures |d| <= |s| && d == s[..|d|]
    ensures AllDigits(d)
    ensures |d| == |s| || !IsDigit(s[|d|])
  {
    if s != [] && IsDigit(s[0]) then [s[0]] + LeadingDigits(s[1..]) else []
  }

  /** The value of a decimal numeral, most significant digit first. */
  function DigitsValue(d: string): nat
    requires AllDigits(d)
  {
    if d == [] then 0 else DigitsValue(d[..|d| - 1]) * 10 + DigitValue(d[|d| - 1])
  }

  /** The value of the leading digits, or None when there are none. */
  function ParseDigits(u: string): Option<nat> {
    var d := LeadingDigits(u);
    if d == [] then None else Some(DigitsValue(d))
  }

  /** An optional sign followed by digits. */
  function ParseSigned(t: string): Option<int> {
    if t != [] && t[0] == '-' then
      match ParseDigits(t[1..])
      case Some(v) => Some(0 - v)
      case None => None
    else if t != [] && t[0] == '+' then
      match ParseDigits(t[1..])
      case Some(v) => Some(v)
      case None => None
    else
      match ParseDigits(t)
      case Some(v) => Some(v)
      case None => None
  }

  /**
   * `parseInt(s, 10)`: skip leading whitespace, take an optional sign, then
   * the longest run of digits; NaN (None) when there is no digit.
   */
  function ParseInt(s: string): Option<int> {
    ParseSigned(TrimStart(s))
  }

  /** `parseInt(s, 10) || 0` on a parse result: NaN becomes 0. */
  function OrZero(v: Option<int>): (r: int)
    ensures v.Some? ==> r == v.value
    ensures v.None? ==> r == 0
  {
    v.GetOr(0)
  }

  /** Decimal rendering of a natural number, without leading zeros. */
  function NatToString(n: nat): (s: string)
    ensures s != [] && AllDigits(s)
  {
    if n < 10 then [DigitChar(n)] else NatToString(n / 10) + [DigitChar(n % 10)]
  }

  /** `String(n)` for an integer. */
  function IntToString(n: int): string {
    if n < 0 then "-" + NatToString(-n) else NatToString(n)
  }

  lemma {:induction false} NatToStringValue(n: nat)
    ensures DigitsValue(NatToString(n)) == n
  {
    if n >= 10 {
      NatToStringValue(n / 10);
      var s := NatToString(n);
      assert s[..|s| - 1] == NatToString(n / 10);
    }
  }

  lemma {:induction false} LeadingDigitsOf(d: string, rest: string)
    requires AllDigits(d)
    requires rest == [] || !IsDigit(rest[0])
    ensures LeadingDigits(d + rest) == d
  {
    if d == [] {
      assert d + rest == rest;
    } else {
      LeadingDigitsOf(d[1..], rest);
      assert (d + rest)[1..] == d[1..] + rest;
      assert d == [d[0]] + d[1..];
    }
  }

  /**
   * `parseInt` reads back every integer `String` renders, whatever
   * non-digit text follows it ("12 meses" parses as 12).
   */
  lemma ParseIntRoundTrip(n: int, rest: string)
    requires rest == [] || !IsDigit(rest[0])
    ensures ParseInt(IntToString(n) + rest) == Some(n)
  {
    var m: nat := if n < 0 then -n else n;
    var d := NatToString(m);
    var t := d + rest;
    ParseDigitsOf(m, rest);
    assert t[0] == d[0];
    if n < 0 {
      assert IntToString(n) == "-" + d;
      assert ("-" + d) + rest == "-" + t;
      ParseNegative(t);
    } else {
      assert IntToString(n) == d;
      ParseUnsigned(t);
    }
  }

  /** `parseInt` of a minus sign followed by digits. */
  lemma ParseNegative(t: string)
    requires t != [] && IsDigit(t[0])
    ensures ParseInt("-" + t) == if ParseDigits(t).Some? then Some(0 - ParseDigits(t).value) else None
  {
    var s := "-" + t;
    NoLeadingSpace(s);
    assert s[1..] == t;
  }

  /** `parseInt` of a text that starts with a digit. */
  lemma ParseUnsigned(t: string)
    requires t != [] && IsDigit(t[0])
    ensures ParseInt(t) == ParseDigits(t)
  {
    NoLeadingSpace(t);
  }

  /** A text starting with a minus sign or a digit has nothing to trim. */
  lemma NoLeadingSpace(s: string)
    requires s != [] && (s[0] == '-' || IsDigit(s[0]))
    ensures TrimStart(s) == s
  {
  }

  /** The digits of a natural number, followed by a non-digit, parse back to it. */
  lemma ParseDigitsOf(m: nat, rest: string)
    requires rest == [] || !IsDigit(rest[0])
    ensures ParseDigits(NatToString(m) + rest) == Some(m)
  {
    NatToStringValue(m);
    LeadingDigitsOf(NatToString(m), rest);
  }

  /**
   * `Math.max(0, ...items.map(x => parseInt(x, 10)).filter(Number.isFinite))`
   * on the parse results: the largest parsed item, never below 0.
   */
  function MaxParsed(items: seq<Option<int>>): (r: int)
    ensures r >= 0
    ensures forall i :: 0 <= i < |items| && items[i].Some? ==> items[i].value <= r
    ensures r == 0 || exists i :: 0 <= i < |items| && items[i] == Some(r)
  {
    if items == [] then 0
    else
      var rest := MaxParsed(items[1..]);
      assert forall i :: 1 <= i < |items| ==> items[i] == items[1..][i - 1];
      match items[0]
      case Some(v) => if v > rest then v else rest
      case None => rest
  }

  /** A typology value that takes part in a minimum: it parses and is not 0. */
  predicate Qualifies(v: Option<int>) {
    v.Some? && v.value != 0
  }

  /**
   * `Math.min(...items.map(x => parseInt(x, 10) || Infinity))` on the parse
   * results: the least qualifying value, or None (Infinity) when no item
   * qualifies.
   */
  function MinQualifying(items: seq<Option<int>>): (r: Option<int>)
    ensures r.Some? ==> r.value != 0
  {
    if items == [] then None
    else
      var rest := MinQualifying(items[1..]);
      if !Qualifies(items[0]) then rest
      else
        var v := items[0].value;
        match rest
        case None => Some(v)
        case Some(m) => if v < m then Some(v) else Some(m)
  }

  /**
   * The minimum is absent exactly when no item qualifies; otherwise it is a
   * qualifying item's value and no qualifying item is smaller.
   */
  lemma {:induction false} MinQualifyingIsLeast(items: seq<Option<int>>)
    ensures MinQualifying(items).None? <==> forall i :: 0 <= i < |items| ==> !Qualifies(items[i])
    ensures MinQualifying(items).Some? ==>
      exists i :: 0 <= i < |items| && Qualifies(items[i]) && items[i].value == MinQualifying(items).value
    ensures MinQualifying(items).Some? ==>
      forall i :: 0 <= i < |items| && Qualifies(items[i]) ==> MinQualifying(items).value <= items[i].value
  {
    if items != [] {
      var tail := items[1..];
      MinQualifyingIsLeast(tail);
      assert forall i :: 1 <= i < |items| ==> items[i] == tail[i - 1];
      var rest := MinQualifying(tail);
      if rest.Some? {
        var j :| 0 <= j < |tail| && Qualifies(tail[j]) && tail[j].value == rest.value;
        assert items[j + 1] == tail[j];
      }
    }
  }

  /** `min !== Infinity ? min : 0` */
  function MinOrZero(items: seq<Option<int>>): int {
    MinQualifying(items).GetOr(0)
  }
}
