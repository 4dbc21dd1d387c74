/** The PHP value semantics the endpoints depend on: loosely typed request values,
    `isset`, `empty` and truthiness, the `??` operator, `intval`, and the HTTP outcome
    that every endpoint reports. */
module Php {

  datatype Option<+T> = None | Some(value: T) {
    /** `$x ?? $default` */
    function GetOr(default: T): T {
      match this
      case Some(v) => v
      case None => default
    }
  }

  /** A scalar as `json_decode($body, true)` delivers it. An absent key reads as `Null`. */
  datatype Json = Null | Bool(b: bool) | Num(n: real) | Str(s: string)

  /** PHP's `empty($v)` on a scalar: null, false, 0, 0.0, "" and "0" are empty. */
  predicate Empty(v: Json) {
    match v
    case Null => true
    case Bool(b) => !b
    case Num(n) => n == 0.0
    case Str(s) => s == "" || s == "0"
  }

  /** `if ($v)`: a value is truthy exactly when it is not empty. */
  predicate Truthy(v: Json) {
    !Empty(v)
  }

  /** `isset($input[$f]) && !empty($input[$f])` on a string field; `None` is an absent or null key. */
  predicate Filled(o: Option<string>) {
    o.Some? && o.value != "" && o.value != "0"
  }

  /** `if ($id)` on an id taken from the query string or body; `None` is an absent key. */
  predicate TruthyId(o: Option<int>) {
    o.Some? && o.value != 0
  }

  /** The error statuses the endpoints answer with. */
  datatype Error = BadRequest | NotFound | Conflict | ServerError {
    function Code(): (c: int)
      ensures 400 <= c < 600
    {
      match this
      case BadRequest => 400
      case NotFound => 404
      case Conflict => 409
      case ServerError => 500
    }
  }

  /** The outcome of one request: 200 with a value, 201 with a value, or an error status. */
  datatype Reply<+T> = Ok(value: T) | Created(value: T) | Err(error: Error) {
    predicate Success() {
      !Err?
    }

    function Code(): (c: int)
      ensures c == 200 <==> Ok?
      ensures c == 201 <==> Created?
    {
      match this
      case Ok(_) => 200
      case Created(_) => 201
      case Err(e) => e.Code()
    }
  }

  // ---------------------------------------------------------------------------
  // intval() on a query-string value
  // ---------------------------------------------------------------------------

  const PHP_INT_MAX: int := 0x7FFF_FFFF_FFFF_FFFF
  const PHP_INT_MIN: int := -PHP_INT_MAX - 1

  predicate IsDigit(c: char) {
    '0' <= c <= '9'
  }

  predicate IsSpace(c: char) {
    c == ' ' || c == '\t' || c == '\n' || c == '\r' || c as int == 11 || c as int == 12
  }

  /** Length of the run of decimal digits at the front of `s`. */
  function DigitRun(s: string): (k: nat)
    ensures k <= |s|
    ensures forall i :: 0 <= i < k ==> IsDigit(s[i])
    ensures k < |s| ==> !IsDigit(s[k])
  {
    if s != [] && IsDigit(s[0]) then 1 + DigitRun(s[1..]) else 0
  }

  /** The value of a string of decimal digits, most significant first. */
  function DigitsValue(d: string): (v: nat)
    requires forall i :: 0 <= i < |d| ==> IsDigit(d[i])
  {
    if d == [] then 0 else DigitsValue(d[..|d| - 1]) * 10 + DigitOf(d[|d| - 1])
  }

  function DigitOf(c: char): (v: nat)
    requires IsDigit(c)
    ensures v < 10
  {
    c as int - '0' as int
  }

  function Saturate(v: int): (r: int)
    ensures PHP_INT_MIN <= r <= PHP_INT_MAX
    ensures PHP_INT_MIN <= v <= PHP_INT_MAX ==> r == v
  {
    if v > PHP_INT_MAX then PHP_INT_MAX else if v < PHP_INT_MIN then PHP_INT_MIN else v
  }

  /** `intval($s)` for a string: leading whitespace, an optional sign, then the longest run
      of digits; no digits gives 0; a value beyond the 64-bit range saturates. */
  function Intval(s: string): (r: int)
    ensures PHP_INT_MIN <= r <= PHP_INT_MAX
    ensures s == [] ==> r == 0
    ensures s != [] && !IsSpace(s[0]) && s[0] != '-' && s[0] != '+' && !IsDigit(s[0]) ==> r == 0
  {
    if s != [] && IsSpace(s[0]) then Intval(s[1..])
    else
      var neg := s != [] && s[0] == '-';
      var body := if s != [] && (s[0] == '-' || s[0] == '+') then s[1..] else s;
      var digits := body[..DigitRun(body)];
      var v: int := DigitsValue(digits);
      Saturate(if neg then -v else v)
  }

  /** The canonical decimal spelling of a natural number. */
  function DecimalString(n: nat): (s: string)
    ensures |s| > 0
    ensures forall i :: 0 <= i < |s| ==> IsDigit(s[i])
  {
    var d := [('0' as int + n % 10) as char];
    if n < 10 then d else DecimalString(n / 10) + d
  }

  lemma {:induction false} DigitsValueOfDecimal(n: nat)
    ensures DigitsValue(DecimalString(n)) == n
  {
    var s := DecimalString(n);
    if n >= 10 {
      DigitsValueOfDecimal(n / 10);
      assert s[..|s| - 1] == DecimalString(n / 10);
    }
  }

  lemma DigitRunOfDigits(s: string)
    requires forall i :: 0 <= i < |s| ==> IsDigit(s[i])
    ensures DigitRun(s) == |s|
  {
  }

  /** An id printed in decimal is read back by intval exactly (within the 64-bit range),
      so `intval` is a left inverse of decimal printing for every id a client can send. */
  lemma IntvalReadsDecimal(n: nat)
    requires n <= PHP_INT_MAX
    ensures Intval(DecimalString(n)) == n
  {
    var s := DecimalString(n);
    DigitRunOfDigits(s);
    assert s[..DigitRun(s)] == s;
    DigitsValueOfDecimal(n);
  }

  /** A negative id printed with a minus sign is read back too. */
  lemma IntvalReadsNegative(n: nat)
    requires 0 < n <= PHP_INT_MAX
    ensures Intval("-" + DecimalString(n)) == -(n as int)
  {
    var d := DecimalString(n);
    var s := "-" + d;
    assert s[0] == '-' && !IsSpace(s[0]);
    assert s[1..] == d;
    DigitRunOfDigits(d);
    assert d[..DigitRun(d)] == d;
    DigitsValueOfDecimal(n);
  }

  /** Trailing junk after the digits is ignored: `intval("12abc") == 12`. */
  lemma IntvalIgnoresSuffix(n: nat, junk: string)
    requires n <= PHP_INT_MAX
    requires junk == [] || !IsDigit(junk[0])
    ensures Intval(DecimalString(n) + junk) == n
  {
    var d := DecimalString(n);
    var s := d + junk;
    assert s[0] == d[0];
    DigitRunPrefix(d, junk);
    assert s[..DigitRun(s)] == d;
    DigitsValueOfDecimal(n);
  }

  lemma {:induction false} DigitRunPrefix(d: string, junk: string)
    requires forall i :: 0 <= i < |d| ==> IsDigit(d[i])
    requires junk == [] || !IsDigit(junk[0])
    ensures DigitRun(d + junk) == |d|
  {
    if d != [] {
      assert (d + junk)[1..] == d[1..] + junk;
      DigitRunPrefix(d[1..], junk);
    } else {
      assert d + junk == junk;
    }
  }
}
