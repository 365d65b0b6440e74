/** The conversion of address text into Java byte arrays: the text is split on
    a separator, every piece is parsed as an integer in a radix, and every
    integer is stored as a signed byte. The wake handler uses it with `":"` and
    radix 16 for the hardware (MAC) address and with `"[.]"` and radix 10 for
    the IPv4 address; the port is parsed as one decimal integer.

    No segment count and no segment range is checked: any number of pieces
    gives that many bytes, and a value outside 0..255 is narrowed by the cast. */
module AddressCodec {
  import opened Results
  import opened JavaInt
  import opened JavaSplit

  const MacSeparator := ':'
  const MacRadix := 16
  const IpSeparator := '.'
  const IpRadix := 10
  const PortRadix := 10

  predicate IsSignedByte(b: int) {
    -128 <= b <= 127
  }

  predicate AllSignedBytes(bs: seq<int>) {
    forall i :: 0 <= i < |bs| ==> IsSignedByte(bs[i])
  }

  /** The store of one parsed value: values above 127 are shifted down by 256
      before the `(byte)` cast. The shift changes nothing the cast keeps, so the
      stored byte is the plain narrowing of `x`, and for `x` in 0..255 it reads
      back as `x` when taken unsigned. */
  function StoreByte(x: int): (b: int)
    ensures b == ToByte(x)
    ensures 0 <= x <= 255 ==> ToUnsigned(b) == x
    ensures 0 <= x <= 127 ==> b == x
    ensures 128 <= x <= 255 ==> b == x - 256
  {
    if x > 127 then ToByte(x - 256) else ToByte(x)
  }

  /** Segment `i` is the first one that does not parse in `radix`. */
  predicate FailsFirstAt(segs: seq<string>, radix: int, i: int) {
    && 0 <= i < |segs|
    && ParseInt(segs[i], radix).Err?
    && forall j :: 0 <= j < i ==> ParseInt(segs[j], radix).Ok?
  }

  /** `e` is the exception of the first segment that does not parse. */
  ghost predicate IsFirstFailure(segs: seq<string>, radix: int, e: Failure) {
    exists i :: FailsFirstAt(segs, radix, i) && e == NumberFormat(segs[i])
  }

  predicate AllParse(segs: seq<string>, radix: int) {
    forall i :: 0 <= i < |segs| ==> ParseInt(segs[i], radix).Ok?
  }

  /** `bytes` holds, position by position, the stored value of each segment. */
  predicate StoresSegments(bytes: seq<int>, segs: seq<string>, radix: int) {
    && |bytes| == |segs|
    && forall i :: 0 <= i < |segs| ==> ParseInt(segs[i], radix).Ok? && bytes[i] == StoreByte(ParseInt(segs[i], radix).value)
  }

  /** The loop over the pieces: each piece is parsed and stored in order; the
      first piece that does not parse aborts the whole conversion with its
      `NumberFormatException`, and no array is produced. */
  function ConvertSegments(segs: seq<string>, radix: int): (r: Result<seq<int>>)
    ensures r.Ok? <==> AllParse(segs, radix)
    ensures r.Ok? ==> StoresSegments(r.value, segs, radix) && AllSignedBytes(r.value)
    ensures r.Err? ==> IsFirstFailure(segs, radix, r.error)
    decreases |segs|
  {
    if |segs| == 0 then Ok([])
    else
      var x :- ParseInt(segs[0], radix);
      var rest := ConvertSegments(segs[1..], radix);
      if rest.Err? then
        FirstFailureShifts(segs, radix, rest.error);
        Err(rest.error)
      else
        Ok([StoreByte(x)] + rest.value)
  }

  /** A first failure in the tail is a first failure of the whole list, one
      position later, when the head parses. */
  lemma FirstFailureShifts(segs: seq<string>, radix: int, e: Failure)
    requires |segs| > 0 && ParseInt(segs[0], radix).Ok?
    requires IsFirstFailure(segs[1..], radix, e)
    ensures IsFirstFailure(segs, radix, e)
  {
    var i :| FailsFirstAt(segs[1..], radix, i) && e == NumberFormat(segs[1..][i]);
    assert FailsFirstAt(segs, radix, i + 1);
  }

  /** `toByteArray(source, exp, radix)`: one signed byte per piece of the split,
      byte `i` taken from piece `i` alone; it fails exactly when some piece does
      not parse, and then with the first such piece. */
  function ToByteArray(source: string, sep: char, radix: int): (r: Result<seq<int>>)
    ensures r.Ok? <==> AllParse(Split(source, sep), radix)
    ensures r.Ok? ==> StoresSegments(r.value, Split(source, sep), radix) && AllSignedBytes(r.value)
    ensures r.Err? ==> IsFirstFailure(Split(source, sep), radix, r.error)
  {
    ConvertSegments(Split(source, sep), radix)
  }

  /** The MAC text conversion of the wake handler: colon-separated pieces,
      each read in hexadecimal. */
  function ParseMac(text: string): (r: Result<seq<int>>)
    ensures r.Ok? <==> AllParse(Split(text, ':'), 16)
    ensures r.Ok? ==> StoresSegments(r.value, Split(text, ':'), 16) && AllSignedBytes(r.value)
    ensures r.Err? ==> IsFirstFailure(Split(text, ':'), 16, r.error)
  {
    ToByteArray(text, MacSeparator, MacRadix)
  }

  /** The IP text conversion of the wake handler: dot-separated pieces,
      each read in decimal. */
  function ParseIp(text: string): (r: Result<seq<int>>)
    ensures r.Ok? <==> AllParse(Split(text, '.'), 10)
    ensures r.Ok? ==> StoresSegments(r.value, Split(text, '.'), 10) && AllSignedBytes(r.value)
    ensures r.Err? ==> IsFirstFailure(Split(text, '.'), 10, r.error)
  {
    ToByteArray(text, IpSeparator, IpRadix)
  }

  /** The port is one decimal `Integer.parseInt`; its range is not checked. */
  function ParsePort(text: string): (r: Result<int>)
    ensures r.Ok? <==> IsIntegerText(text, PortRadix) && IntMin <= TextValue(text, PortRadix) <= IntMax
    ensures r.Ok? ==> r.value == TextValue(text, PortRadix)
    ensures r.Ok? ==> IntMin <= r.value <= IntMax
    ensures r.Err? ==> r.error == NumberFormat(text)
  {
    ParseInt(text, PortRadix)
  }

  /** The text of each byte: its unsigned value in `radix`, lower-case and
      without leading zeros. */
  function ByteTexts(bytes: seq<int>, radix: int): (texts: seq<string>)
    requires ValidRadix(radix)
    ensures |texts| == |bytes|
    ensures forall i :: 0 <= i < |bytes| ==> texts[i] == Digits(ToUnsigned(bytes[i]), radix)
  {
    seq(|bytes|, i requires 0 <= i < |bytes| => Digits(ToUnsigned(bytes[i]), radix))
  }

  /** The textual form of a byte array: the byte texts joined with `sep`. */
  function FormatBytes(bytes: seq<int>, sep: char, radix: int): string
    requires ValidRadix(radix)
  {
    Join(ByteTexts(bytes, radix), sep)
  }

  /** Splitting the textual form of a non-empty byte array gives back the
      text of each byte, when the separator is not a digit. */
  lemma SplitFormatted(bytes: seq<int>, sep: char, radix: int)
    requires |bytes| >= 1
    requires ValidRadix(radix) && DigitValue(sep, radix) < 0
    ensures Split(FormatBytes(bytes, sep, radix), sep) == ByteTexts(bytes, radix)
  {
    var segs := ByteTexts(bytes, radix);
    forall i | 0 <= i < |segs|
      ensures sep !in segs[i]
    {
      DigitsExcludeSeparator(ToUnsigned(bytes[i]), sep, radix);
    }
    SplitJoin(segs, sep);
  }

  /** Formatting a non-empty byte array and converting the text back yields the
      same bytes, for any radix and any separator that is not a digit. */
  lemma TextRoundTrip(bytes: seq<int>, sep: char, radix: int)
    requires |bytes| >= 1 && AllSignedBytes(bytes)
    requires ValidRadix(radix) && DigitValue(sep, radix) < 0
    ensures ToByteArray(FormatBytes(bytes, sep, radix), sep, radix) == Ok(bytes)
  {
    SplitFormatted(bytes, sep, radix);
    ConvertByteTexts(bytes, radix);
  }

  lemma DigitsExcludeSeparator(n: nat, sep: char, radix: int)
    requires ValidRadix(radix) && DigitValue(sep, radix) < 0
    ensures sep !in Digits(n, radix)
  {
    var s := Digits(n, radix);
    forall k | 0 <= k < |s|
      ensures s[k] != sep
    {
      assert DigitValue(s[k], radix) >= 0;
    }
  }

  /** Texts that each parse to the unsigned value of the matching byte
      convert back to the bytes. */
  lemma ConvertParsedTexts(texts: seq<string>, bytes: seq<int>, radix: int)
    requires |texts| == |bytes| && AllSignedBytes(bytes)
    requires forall i :: 0 <= i < |texts| ==> ParseInt(texts[i], radix) == Ok(ToUnsigned(bytes[i]))
    ensures ConvertSegments(texts, radix) == Ok(bytes)
  {
    var r := ConvertSegments(texts, radix);
    assert AllParse(texts, radix);
    assert StoresSegments(r.value, texts, radix);
    forall i | 0 <= i < |bytes|
      ensures r.value[i] == bytes[i]
    {
      NarrowUnsigned(bytes[i]);
    }
    assert r.value == bytes;
  }

  /** The byte texts convert back to the bytes. */
  lemma ConvertByteTexts(bytes: seq<int>, radix: int)
    requires AllSignedBytes(bytes) && ValidRadix(radix)
    ensures ConvertSegments(ByteTexts(bytes, radix), radix) == Ok(bytes)
  {
    var segs := ByteTexts(bytes, radix);
    forall i | 0 <= i < |segs|
      ensures ParseInt(segs[i], radix) == Ok(ToUnsigned(bytes[i]))
    {
      ParseFormatRoundTrip(ToUnsigned(bytes[i]), radix);
    }
    ConvertParsedTexts(segs, bytes, radix);
  }

  /** Any spelling of the bytes' unsigned values that `Integer.parseInt`
      reads back (upper- or lower-case digits, leading zeros as in `"0a"`),
      joined with a separator that is neither a digit nor a sign, converts
      back to the bytes. */
  lemma TextsRoundTrip(texts: seq<string>, bytes: seq<int>, sep: char, radix: int)
    requires |texts| >= 1 && |texts| == |bytes| && AllSignedBytes(bytes)
    requires DigitValue(sep, radix) < 0 && !IsSign(sep)
    requires forall i :: 0 <= i < |texts| ==> ParseInt(texts[i], radix) == Ok(ToUnsigned(bytes[i]))
    ensures ToByteArray(Join(texts, sep), sep, radix) == Ok(bytes)
  {
    forall i | 0 <= i < |texts|
      ensures sep !in texts[i]
    {
      IntegerTextExcludes(texts[i], sep, radix);
    }
    assert ParseInt(texts[|texts| - 1], radix).Ok?;
    SplitJoin(texts, sep);
    ConvertParsedTexts(texts, bytes, radix);
  }

  /** A piece whose value lies outside 0..255 is not rejected: it is stored as
      its low eight bits. */
  lemma OutOfRangeSegmentWraps(n: int, radix: int)
    requires ValidRadix(radix) && IntMin <= n <= IntMax
    ensures ConvertSegments([FormatInt(n, radix)], radix) == Ok([ToByte(n)])
  {
    ParseFormatRoundTrip(n, radix);
    var r := ConvertSegments([FormatInt(n, radix)], radix);
    assert r.Ok? && |r.value| == 1;
    assert r.value[0] == ToByte(n);
    assert r.value == [ToByte(n)];
  }

  /** Every `int`, including negative ones and ones above 65535, is accepted
      as a port. */
  lemma PortRangeNotChecked(n: int)
    requires IntMin <= n <= IntMax
    ensures ParsePort(FormatInt(n, PortRadix)) == Ok(n)
  {
    ParseFormatRoundTrip(n, PortRadix);
  }
}
