/** The two pieces of Java integer semantics the address conversion relies on:
    `Integer.parseInt(text, radix)` and the narrowing cast `(byte) v`.
    Digits are the ASCII ones only: `0`-`9`, then `a`-`z` / `A`-`Z` for the
    values 10 to 35. */
module JavaInt {
  import opened Results

  const MinRadix := 2
  const MaxRadix := 36
  const IntMin := -0x8000_0000
  const IntMax := 0x7FFF_FFFF

  predicate ValidRadix(radix: int) {
    MinRadix <= radix <= MaxRadix
  }

  /** `Character.digit(ch, radix)`: the value of `ch` as a digit in `radix`,
      or -1 when it is not one (or when the radix itself is out of range). */
  function DigitValue(ch: char, radix: int): (d: int)
    ensures d == -1 || (ValidRadix(radix) && 0 <= d < radix)
    ensures '0' <= ch <= '9' && ValidRadix(radix) && (ch as int - '0' as int) < radix ==> d == ch as int - '0' as int
    ensures ch < '0' ==> d == -1
  {
    var v :=
      if '0' <= ch <= '9' then ch as int - '0' as int
      else if 'a' <= ch <= 'z' then ch as int - 'a' as int + 10
      else if 'A' <= ch <= 'Z' then ch as int - 'A' as int + 10
      else -1;
    if ValidRadix(radix) && v < radix then v else -1
  }

  /** `Character.forDigit(d, radix)`: the lower-case digit character for `d`. */
  function DigitChar(d: int, radix: int): (ch: char)
    requires ValidRadix(radix) && 0 <= d < radix
    ensures DigitValue(ch, radix) == d
  {
    if d < 10 then ('0' as int + d) as char else ('a' as int + d - 10) as char
  }

  predicate AllDigits(s: string, radix: int) {
    forall i :: 0 <= i < |s| ==> DigitValue(s[i], radix) >= 0
  }

  /** The value of a string of digits, read most significant digit first. */
  function Magnitude(s: string, radix: int): nat
    requires ValidRadix(radix) && AllDigits(s, radix)
    decreases |s|
  {
    if |s| == 0 then 0
    else Magnitude(s[..|s| - 1], radix) * radix + DigitValue(s[|s| - 1], radix)
  }

  predicate IsSign(ch: char) {
    ch == '-' || ch == '+'
  }

  /** The shape `Integer.parseInt` accepts: an optional sign followed by at
      least one digit of the radix. */
  predicate IsIntegerText(s: string, radix: int) {
    && |s| > 0
    && (IsSign(s[0]) ==> |s| > 1 && AllDigits(s[1..], radix))
    && (!IsSign(s[0]) ==> AllDigits(s, radix))
  }

  /** The mathematical value written by an integer text, ignoring the range of `int`. */
  function TextValue(s: string, radix: int): int
    requires ValidRadix(radix) && IsIntegerText(s, radix)
  {
    if s[0] == '-' then 0 - Magnitude(s[1..], radix)
    else if s[0] == '+' then Magnitude(s[1..], radix)
    else Magnitude(s, radix)
  }

  /** `Integer.parseInt(s, radix)`. Java inspects the first character: below
      `'0'` it must be a sign followed by more text; the remaining characters
      must all be digits, and the accumulated value must fit in 32 bits. Any
      violation throws `NumberFormatException` carrying the text. */
  function ParseInt(s: string, radix: int): (r: Result<int>)
    ensures r.Ok? <==> ValidRadix(radix) && IsIntegerText(s, radix) && IntMin <= TextValue(s, radix) <= IntMax
    ensures r.Ok? ==> r.value == TextValue(s, radix)
    ensures r.Err? ==> r.error == NumberFormat(s)
  {
    if !ValidRadix(radix) || |s| == 0 then Err(NumberFormat(s))
    else
      var signed := s[0] < '0';
      if signed && ((s[0] != '-' && s[0] != '+') || |s| == 1) then Err(NumberFormat(s))
      else
        var digits := if signed then s[1..] else s;
        if !AllDigits(digits, radix) then Err(NumberFormat(s))
        else
          var m: int := Magnitude(digits, radix);
          var v := if s[0] == '-' then -m else m;
          if v < IntMin || IntMax < v then Err(NumberFormat(s)) else Ok(v)
  }

  /** `Integer.toString(n, radix)` for a non-negative `n`: its digits, most
      significant first, without leading zeros. */
  function Digits(n: nat, radix: int): (s: string)
    requires ValidRadix(radix)
    ensures |s| > 0 && AllDigits(s, radix)
    ensures Magnitude(s, radix) == n
    decreases n
  {
    if n < radix then
      var s := [DigitChar(n, radix)];
      MagnitudeAppend([], s[0], radix);
      s
    else
      DivModRecombine(n, radix, n / radix);
      var high := Digits(n / radix, radix);
      var last := DigitChar(n % radix, radix);
      MagnitudeAppend(high, last, radix);
      DivModRecombine(n, radix, Magnitude(high, radix));
      high + [last]
  }

  lemma MagnitudeAppend(s: string, ch: char, radix: int)
    requires ValidRadix(radix) && AllDigits(s, radix) && DigitValue(ch, radix) >= 0
    ensures AllDigits(s + [ch], radix)
    ensures Magnitude(s + [ch], radix) == Magnitude(s, radix) * radix + DigitValue(ch, radix)
  {
    assert (s + [ch])[..|s|] == s;
  }

  lemma DivModRecombine(n: nat, radix: int, q: int)
    requires ValidRadix(radix) && q == n / radix
    ensures q * radix + n % radix == n
    ensures n >= radix ==> 0 <= q < n
    ensures 0 <= n % radix < radix
  {
  }

  /** `Integer.toString(n, radix)`: a minus sign for negative values, then the digits. */
  function FormatInt(n: int, radix: int): (s: string)
    requires ValidRadix(radix)
  {
    if n < 0 then ['-'] + Digits(-n, radix) else Digits(n, radix)
  }

  /** Every `int` survives formatting and parsing back in any radix. */
  lemma ParseFormatRoundTrip(n: int, radix: int)
    requires ValidRadix(radix) && IntMin <= n <= IntMax
    ensures ParseInt(FormatInt(n, radix), radix) == Ok(n)
  {
    var s := FormatInt(n, radix);
    if n < 0 {
      assert s[1..] == Digits(-n, radix);
    } else {
      assert DigitValue(s[0], radix) >= 0;
    }
    assert IsIntegerText(s, radix);
  }

  /** `k` zero digits. */
  function Zeros(k: nat): string
  {
    if k == 0 then [] else ['0'] + Zeros(k - 1)
  }

  /** A leading zero digit does not change the value of a digit string. */
  lemma {:induction false} MagnitudeLeadingZero(s: string, radix: int)
    requires ValidRadix(radix) && AllDigits(s, radix)
    ensures AllDigits(['0'] + s, radix)
    ensures Magnitude(['0'] + s, radix) == Magnitude(s, radix)
    decreases |s|
  {
    var t := ['0'] + s;
    assert DigitValue('0', radix) == 0;
    if |s| == 0 {
      assert t[..0] == [];
    } else {
      assert t[..|t| - 1] == ['0'] + s[..|s| - 1];
      MagnitudeLeadingZero(s[..|s| - 1], radix);
    }
  }

  /** Any number of leading zeros leaves the value unchanged. */
  lemma {:induction false} MagnitudeZeros(k: nat, s: string, radix: int)
    requires ValidRadix(radix) && AllDigits(s, radix)
    ensures AllDigits(Zeros(k) + s, radix)
    ensures Magnitude(Zeros(k) + s, radix) == Magnitude(s, radix)
    decreases k
  {
    if k == 0 {
      assert Zeros(k) + s == s;
    } else {
      var rest := Zeros(k - 1) + s;
      MagnitudeZeros(k - 1, s, radix);
      assert Zeros(k) + s == ['0'] + rest;
      MagnitudeLeadingZero(rest, radix);
      assert Magnitude(['0'] + rest, radix) == Magnitude(rest, radix);
    }
  }

  /** A non-negative `int` written with any number of leading zeros, as in
      the two-digit spelling `"0a"` of a byte, parses to its value. */
  lemma PaddedParse(k: nat, n: nat, radix: int)
    requires ValidRadix(radix) && n <= IntMax
    ensures ParseInt(Zeros(k) + Digits(n, radix), radix) == Ok(n)
  {
    var s := Zeros(k) + Digits(n, radix);
    MagnitudeZeros(k, Digits(n, radix), radix);
    assert DigitValue(s[0], radix) >= 0;
    assert IsIntegerText(s, radix);
  }

  /** A text `Integer.parseInt` accepts holds no character that is neither a
      digit of the radix nor a sign. */
  lemma IntegerTextExcludes(s: string, ch: char, radix: int)
    requires ParseInt(s, radix).Ok?
    requires DigitValue(ch, radix) < 0 && !IsSign(ch)
    ensures ch !in s
  {
    forall k | 0 <= k < |s|
      ensures s[k] != ch
    {
      if k > 0 || !IsSign(s[0]) {
        if IsSign(s[0]) {
          assert s[k] == s[1..][k - 1];
        }
        assert DigitValue(s[k], radix) >= 0;
      }
    }
  }

  /** The `(byte) v` cast: keeps the low eight bits as a signed value. */
  function ToByte(v: int): (b: int)
    ensures -128 <= b <= 127
    ensures (v - b) % 256 == 0
  {
    var low := v % 256;
    if low > 127 then low - 256 else low
  }

  /** The unsigned reading `b & 0xFF` of a byte value. */
  function ToUnsigned(b: int): (u: int)
    ensures 0 <= u < 256
    ensures (b - u) % 256 == 0
  {
    b % 256
  }

  /** Narrowing undoes the unsigned reading of a byte value. */
  lemma NarrowUnsigned(b: int)
    requires -128 <= b <= 127
    ensures ToByte(ToUnsigned(b)) == b
  {
  }

  /** The unsigned reading undoes narrowing on 0..255. */
  lemma UnsignedNarrow(u: int)
    requires 0 <= u <= 255
    ensures ToUnsigned(ToByte(u)) == u
  {
  }
}
