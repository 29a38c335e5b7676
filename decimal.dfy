/**
 * The decimal value (`orc::Decimal`): a 128-bit integer with a scale, and
 * its construction from a literal such as "12.5". The conversion of the
 * digit text to `Int128` is a parameter, `parse`; its errors surface to the
 * caller unchanged.
 */
module Decimals {
  import opened Buffers

  newtype Int32 = x: int | -0x8000_0000 <= x < 0x8000_0000

  datatype Option<T> = None | Some(value: T)

  datatype Result<T> = Ok(value: T) | Err(message: string)

  /** `value` with the decimal point `scale` digits from the right. */
  datatype Decimal = Decimal(value: Int128, scale: Int32)

  /** `std::string::find` for one character: the first index that holds `c`. */
  function Find(s: string, c: char): (r: Option<nat>)
    ensures r.None? <==> c !in s
    ensures r.Some? ==> r.value < |s| && s[r.value] == c && c !in s[..r.value]
  {
    if s == [] then None
    else if s[0] == c then Some(0)
    else
      match Find(s[1..], c)
      case None => None
      case Some(i) =>
        assert s[1..][..i] == s[1..i + 1];
        Some(i + 1)
  }

  /** `static_cast<int32_t>` of an unsigned length: wraps modulo 2^32. */
  function ToInt32(x: nat): (r: Int32)
    ensures x < 0x8000_0000 ==> r as int == x
    ensures (x - r as int) % 0x1_0000_0000 == 0
  {
    var m := x % 0x1_0000_0000;
    if m < 0x8000_0000 then m as Int32 else (m - 0x1_0000_0000) as Int32
  }

  /** The text the string constructor hands to the integer parser, and the scale it sets. */
  datatype Literal = Literal(digits: string, scale: Int32)

  /** `p` is where the first decimal point of `str` stands. */
  predicate FirstPoint(str: string, p: nat) {
    p < |str| && str[p] == '.' && '.' !in str[..p]
  }

  /**
   * The straight-line part of `Decimal(const std::string&)`: without a point
   * the whole text is parsed at scale 0; otherwise the first point is cut
   * out and the scale is the length minus the point's index, cast to int32.
   */
  function SplitLiteral(str: string): (r: Literal)
    ensures '.' !in str ==> r == Literal(str, 0)
    ensures forall p: nat :: FirstPoint(str, p) ==>
              r == Literal(str[..p] + str[p + 1..], ToInt32(|str| - p))
  {
    match Find(str, '.')
    case None => Literal(str, 0)
    case Some(p) => Literal(str[..p] + str[p + 1..], ToInt32(|str| - p))
  }

  /**
   * `Decimal(const std::string&)`: succeeds exactly when the integer parser
   * accepts the text with the point removed, and then carries the parsed
   * value with the scale of `SplitLiteral`; a parser error comes back as is.
   */
  function FromString(str: string, parse: string -> Result<Int128>): (r: Result<Decimal>)
    ensures '.' !in str ==> (r.Ok? <==> parse(str).Ok?)
    ensures '.' !in str && r.Ok? ==> r.value == Decimal(parse(str).value, 0)
    ensures forall p: nat :: FirstPoint(str, p) ==>
              var digits := str[..p] + str[p + 1..];
              && (r.Ok? <==> parse(digits).Ok?)
              && (r.Ok? ==> r.value == Decimal(parse(digits).value, ToInt32(|str| - p)))
    ensures r.Err? ==> r == Err(parse(SplitLiteral(str).digits).message)
  {
    var lit := SplitLiteral(str);
    match parse(lit.digits)
    case Ok(v) => Ok(Decimal(v, lit.scale))
    case Err(m) => Err(m)
  }

  /** `Decimal::toString` hands value and scale to `Int128::toDecimalString`. */
  function ToString(d: Decimal, toDecimalString: (Int128, Int32) -> string): string {
    toDecimalString(d.value, d.scale)
  }

  // ----- The scale counts the point itself -----

  /** The digit text with a point put back `k` characters from its right end. */
  function InsertPoint(digits: string, k: nat): string
    requires k <= |digits|
  {
    digits[..|digits| - k] + "." + digits[|digits| - k..]
  }

  /**
   * For a literal with a point, the scale is one more than the number of
   * characters after the point: the point is put back where it was only
   * when it goes `scale - 1` characters from the right.
   */
  lemma ScaleCountsThePoint(str: string, p: nat)
    requires FirstPoint(str, p) && |str| < 0x8000_0000
    ensures SplitLiteral(str).scale as int == |str[p + 1..]| + 1
    ensures InsertPoint(SplitLiteral(str).digits, SplitLiteral(str).scale as int - 1) == str
  {
    var digits := str[..p] + str[p + 1..];
    assert SplitLiteral(str) == Literal(digits, ToInt32(|str| - p));
    assert digits[..p] == str[..p];
    assert digits[p..] == str[p + 1..];
    assert str == str[..p] + "." + str[p + 1..];
  }

  /**
   * Putting the point back into the digit text `scale` characters from the
   * right never reproduces the literal: it lands one place left of the
   * original point, or the scale exceeds the digits.
   */
  lemma AsWrittenMisplacesPoint(str: string, p: nat)
    requires FirstPoint(str, p) && |str| < 0x8000_0000
    ensures var lit := SplitLiteral(str);
            lit.scale as int > |lit.digits| || InsertPoint(lit.digits, lit.scale as int) != str
  {
    var lit := SplitLiteral(str);
    assert lit == Literal(str[..p] + str[p + 1..], ToInt32(|str| - p));
    if lit.scale as int <= |lit.digits| {
      var r := InsertPoint(lit.digits, lit.scale as int);
      assert r[p - 1] == '.';
      assert str[p - 1] == str[..p][p - 1] != '.';
    }
  }

  /**
   * The literal of the example: "12.5" is parsed from the digits "125" with
   * scale 2, and putting the point back into the digit text 2 characters
   * from the right gives "1.25".
   */
  lemma TwelvePointFive()
    ensures SplitLiteral("12.5") == Literal("125", 2)
    ensures InsertPoint("125", 2) == "1.25"
  {
    assert FirstPoint("12.5", 2);
    assert "12.5"[..2] + "12.5"[3..] == "125";
  }

  // ----- The evidently intended scale -----

  /** As `SplitLiteral`, with the scale counting only the characters after the point. */
  function SplitLiteralIntended(str: string): (r: Literal)
    ensures '.' !in str ==> r == Literal(str, 0)
    ensures forall p: nat :: FirstPoint(str, p) ==>
              r == Literal(str[..p] + str[p + 1..], ToInt32(|str| - p - 1))
  {
    match Find(str, '.')
    case None => Literal(str, 0)
    case Some(p) => Literal(str[..p] + str[p + 1..], ToInt32(|str| - p - 1))
  }

  /** With the intended scale, putting the point back reproduces the literal. */
  lemma IntendedRoundTrip(str: string)
    requires '.' in str && |str| < 0x8000_0000
    ensures var lit := SplitLiteralIntended(str);
            lit.scale as int <= |lit.digits| && InsertPoint(lit.digits, lit.scale as int) == str
  {
    var p := Find(str, '.').value;
    var digits := str[..p] + str[p + 1..];
    assert SplitLiteralIntended(str) == Literal(digits, ToInt32(|str| - p - 1));
    assert digits[..p] == str[..p];
    assert digits[p..] == str[p + 1..];
    assert str == str[..p] + "." + str[p + 1..];
  }

  /** `Decimal(const std::string&)` with the intended scale. */
  function FromStringIntended(str: string, parse: string -> Result<Int128>): (r: Result<Decimal>)
    ensures r.Ok? <==> parse(SplitLiteralIntended(str).digits).Ok?
    ensures r.Ok? ==> r.value == Decimal(parse(SplitLiteralIntended(str).digits).value, SplitLiteralIntended(str).scale)
    ensures r.Err? ==> r == Err(parse(SplitLiteralIntended(str).digits).message)
    ensures '.' in str && |str| < 0x8000_0000 && r.Ok? ==> 0 <= r.value.scale as int < |str|
  {
    var lit := SplitLiteralIntended(str);
    match parse(lit.digits)
    case Ok(v) => Ok(Decimal(v, lit.scale))
    case Err(m) => Err(m)
  }
}
