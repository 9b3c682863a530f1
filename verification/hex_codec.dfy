/**
  The pixel server's colour codec: `rgb_to_hex` formats a triple as
  `#rrggbb`, and `hex_to_rgb` strips leading `#` characters and parses
  consecutive chunks of one third of the remaining length as base-16 integers.
*/
module HexCodec {
  import opened Results
  import Text

  predicate IsLowerHexDigit(c: char) {
    '0' <= c <= '9' || 'a' <= c <= 'f'
  }

  predicate IsHexDigit(c: char) {
    IsLowerHexDigit(c) || 'A' <= c <= 'F'
  }

  predicate AllHexDigits(s: string) {
    forall i :: 0 <= i < |s| ==> IsHexDigit(s[i])
  }

  predicate AllLowerHexDigits(s: string) {
    forall i :: 0 <= i < |s| ==> IsLowerHexDigit(s[i])
  }

  function DigitValue(c: char): (d: nat)
    requires IsHexDigit(c)
    ensures d < 16
  {
    if '0' <= c <= '9' then c as int - '0' as int
    else if 'a' <= c <= 'f' then c as int - 'a' as int + 10
    else c as int - 'A' as int + 10
  }

  /** The lower-case digit `%x` prints for a value below 16. */
  function DigitChar(d: nat): (c: char)
    requires d < 16
    ensures IsLowerHexDigit(c) && DigitValue(c) == d
  {
    if d < 10 then Text.DigitChar(d) else ('a' as int + d - 10) as char
  }

  lemma DigitCharOfValue(c: char)
    requires IsLowerHexDigit(c)
    ensures DigitChar(DigitValue(c)) == c
  {
  }

  /** `'%x' % n` for a non-negative integer: the lower-case base-16 digits of `n`, no leading zeros. */
  function HexString(n: nat): (r: string)
    ensures 1 <= |r| && AllLowerHexDigits(r)
    ensures AllHexDigits(r) && DigitsValue(r) == n
    ensures n < 16 <==> |r| == 1
    ensures |r| > 1 ==> r[0] != '0'
    decreases n
  {
    if n < 16 then [DigitChar(n)]
    else
      var prefix := HexString(n / 16);
      assert (prefix + [DigitChar(n % 16)])[..|prefix|] == prefix;
      prefix + [DigitChar(n % 16)]
  }

  /**
    `'%02x' % n`: the base-16 digits of `n` zero-padded to width two; a
    negative value is a minus sign followed by the digits of its magnitude.
  */
  function Hex2(n: int): (r: string)
    ensures 0 <= n ==> 2 <= |r| && AllLowerHexDigits(r)
    ensures 0 <= n ==> AllHexDigits(r) && DigitsValue(r) == n
    ensures 0 <= n < 256 <==> |r| == 2 && r[0] != '-'
    ensures n < 0 ==> |r| >= 2 && r[0] == '-'
    ensures n < 0 ==> AllLowerHexDigits(r[1..]) && AllHexDigits(r[1..]) && DigitsValue(r[1..]) == -n
  {
    if n < 0 then
      var digits := HexString(-n);
      assert ("-" + digits)[1..] == digits;
      "-" + digits
    else if n < 16 then
      var digit := HexString(n);
      assert ("0" + digit)[..1] == "0";
      assert DigitsValue("0") == 0;
      "0" + digit
    else
      HexString(n)
  }

  /** `"#%02x%02x%02x" % rgb`; a tuple of any other length than three raises `TypeError`. */
  function RgbToHex(rgb: seq<int>): (r: Result<string>)
    ensures r.Ok? <==> |rgb| == 3
    ensures r.Err? ==> r.error == TypeError
    ensures r.Ok? ==> |r.value| >= 7 && r.value[0] == '#'
  {
    if |rgb| != 3 then Err(TypeError)
    else Ok("#" + Hex2(rgb[0]) + Hex2(rgb[1]) + Hex2(rgb[2]))
  }

  predicate AllHashes(s: string) {
    forall i :: 0 <= i < |s| ==> s[i] == '#'
  }

  /** `value.lstrip("#")`. */
  function StripHashes(s: string): (r: string)
    ensures |r| <= |s| && s[|s| - |r|..] == r
    ensures |r| > 0 ==> r[0] != '#'
    ensures forall i :: 0 <= i < |s| - |r| ==> s[i] == '#'
  {
    if |s| > 0 && s[0] == '#' then StripHashes(s[1..]) else s
  }

  /** The value `hex_to_rgb` goes on to parse: hashes stripped when it starts with one. */
  function Stripped(value: string): (r: string)
    ensures r == StripHashes(value)
    ensures |r| > 0 ==> r[0] != '#'
  {
    if |value| > 0 && value[0] == '#' then StripHashes(value) else value
  }

  /** `[s[i:i + step] for i in range(0, len(s), step)]`. */
  function Chunks(s: string, step: nat): (r: seq<string>)
    requires step > 0
    ensures Flatten(r) == s
    ensures forall k :: 0 <= k < |r| ==> 1 <= |r[k]| <= step
    ensures forall k :: 0 <= k < |r| - 1 ==> |r[k]| == step
    decreases |s|
  {
    if |s| == 0 then []
    else if |s| <= step then [s]
    else [s[..step]] + Chunks(s[step..], step)
  }

  function Flatten(chunks: seq<string>): string {
    if |chunks| == 0 then [] else chunks[0] + Flatten(chunks[1..])
  }

  /** The value of a string of hex digits, most significant first. */
  function DigitsValue(s: string): (v: nat)
    requires AllHexDigits(s)
    ensures |s| <= 1 ==> v < 16
    ensures |s| <= 2 ==> v < 256
  {
    if |s| == 0 then 0 else 16 * DigitsValue(s[..|s| - 1]) + DigitValue(s[|s| - 1])
  }

  /**
    `int(s, 16)`: an optional sign followed by at least one hex digit of
    either case; anything else raises `ValueError`.
  */
  function ParseHex(s: string): (r: Result<int>)
    ensures r.Ok? <==> || (|s| > 0 && AllHexDigits(s))
                       || (|s| > 1 && (s[0] == '-' || s[0] == '+') && AllHexDigits(s[1..]))
    ensures r.Err? ==> r.error == ValueError
    ensures AllHexDigits(s) && |s| > 0 ==> r == Ok(DigitsValue(s))
    ensures |s| > 1 && s[0] == '+' && AllHexDigits(s[1..]) ==> r == Ok(DigitsValue(s[1..]))
    ensures |s| > 1 && s[0] == '-' && AllHexDigits(s[1..]) ==> r == Ok(-(DigitsValue(s[1..]) as int))
    ensures |s| == 0 ==> r.Err?
  {
    if |s| > 0 && (s[0] == '-' || s[0] == '+') then
      if |s| > 1 && AllHexDigits(s[1..]) then
        var magnitude: int := DigitsValue(s[1..]);
        Ok(if s[0] == '-' then -magnitude else magnitude)
      else Err(ValueError)
    else if |s| > 0 && AllHexDigits(s) then Ok(DigitsValue(s))
    else Err(ValueError)
  }

  /** Parse every chunk in order; the first failure is raised. */
  function ParseAll(chunks: seq<string>): (r: Result<seq<int>>)
    ensures r.Ok? <==> forall k :: 0 <= k < |chunks| ==> ParseHex(chunks[k]).Ok?
    ensures r.Err? ==> r.error == ValueError
    ensures r.Ok? ==> |r.value| == |chunks|
                      && forall k :: 0 <= k < |chunks| ==> r.value[k] == ParseHex(chunks[k]).value
  {
    if |chunks| == 0 then Ok([])
    else match ParseHex(chunks[0])
      case Err(e) => Err(e)
      case Ok(v) =>
        match ParseAll(chunks[1..])
        case Err(e) => Err(e)
        case Ok(vs) => Ok([v] + vs)
  }

  /** The chunks `hex_to_rgb` parses: thirds of the stripped value, rounded down, and a remainder. */
  function Pieces(value: string): (r: seq<string>)
    requires |Stripped(value)| >= 3
    ensures Flatten(r) == Stripped(value)
  {
    Chunks(Stripped(value), |Stripped(value)| / 3)
  }

  /**
    `hex_to_rgb`: after stripping, a value shorter than three characters makes
    the chunk step 0, which `range` refuses with `ValueError`.
  */
  function HexToRgb(value: string): (r: Result<seq<int>>)
    ensures |Stripped(value)| < 3 ==> r == Err(ValueError)
    ensures r.Err? ==> r.error == ValueError
    ensures r.Ok? <==> |Stripped(value)| >= 3 && forall k :: 0 <= k < |Pieces(value)| ==> ParseHex(Pieces(value)[k]).Ok?
    ensures r.Ok? ==> |Stripped(value)| >= 3 && |r.value| == |Pieces(value)|
    ensures r.Ok? ==> forall k :: 0 <= k < |r.value| ==>
      ParseHex(Pieces(value)[k]) == Ok(r.value[k])
  {
    var v := Stripped(value);
    var step := |v| / 3;
    if step == 0 then Err(ValueError) else ParseAll(Pieces(value))
  }

  // ---- Properties of the codec ----

  /** Two-digit formatting of a byte, and its value read back. */
  lemma Hex2OfByte(n: int)
    requires 0 <= n <= 255
    ensures |Hex2(n)| == 2
    ensures AllLowerHexDigits(Hex2(n))
    ensures AllHexDigits(Hex2(n)) && DigitsValue(Hex2(n)) == n
  {
    if n < 16 {
      assert Hex2(n) == ['0', DigitChar(n)];
    } else {
      assert HexString(n / 16) == [DigitChar(n / 16)];
      assert Hex2(n) == [DigitChar(n / 16), DigitChar(n % 16)];
    }
    assert Hex2(n)[..1] == [Hex2(n)[0]];
  }

  /** Formatting the value of two lower-case hex digits gives the digits back. */
  lemma Hex2OfDigits(s: string)
    requires |s| == 2 && AllLowerHexDigits(s)
    ensures AllHexDigits(s) && Hex2(DigitsValue(s)) == s
  {
    var a, b := DigitValue(s[0]), DigitValue(s[1]);
    assert s[..1] == [s[0]];
    assert DigitsValue(s) == 16 * a + b;
    DigitCharOfValue(s[0]);
    DigitCharOfValue(s[1]);
    var n := 16 * a + b;
    if a == 0 {
      assert Hex2(n) == ['0', DigitChar(b)];
    } else {
      assert n / 16 == a && n % 16 == b;
      assert Hex2(n) == HexString(a) + [DigitChar(b)];
    }
  }

  /** A six-character string splits into three pairs. */
  lemma ChunksOfSix(s: string)
    requires |s| == 6
    ensures Chunks(s, 2) == [s[0..2], s[2..4], s[4..6]]
  {
    assert s[2..][..2] == s[2..4];
    assert s[2..][2..] == s[4..6];
    assert Chunks(s[4..6], 2) == [s[4..6]];
    assert Chunks(s[2..], 2) == [s[2..4]] + Chunks(s[4..6], 2);
    assert Chunks(s, 2) == [s[..2]] + Chunks(s[2..], 2);
  }

  /** `rgb_to_hex` of a byte triple is `#` and exactly six lower-case hex digits. */
  lemma RgbToHexShape(rgb: seq<int>)
    requires |rgb| == 3 && forall k :: 0 <= k < 3 ==> 0 <= rgb[k] <= 255
    ensures |RgbToHex(rgb).value| == 7
    ensures RgbToHex(rgb).value[0] == '#'
    ensures AllLowerHexDigits(RgbToHex(rgb).value[1..])
  {
    Hex2OfByte(rgb[0]);
    Hex2OfByte(rgb[1]);
    Hex2OfByte(rgb[2]);
    assert RgbToHex(rgb).value[1..] == Hex2(rgb[0]) + Hex2(rgb[1]) + Hex2(rgb[2]);
  }

  /**
    Six hex digits of either case, after any number of `#`, parse to exactly
    three bytes, one per pair of digits.
  */
  lemma SixDigitsParse(hashes: string, digits: string)
    requires AllHashes(hashes)
    requires |digits| == 6 && AllHexDigits(digits)
    ensures HexToRgb(hashes + digits)
         == Ok([DigitsValue(digits[0..2]), DigitsValue(digits[2..4]), DigitsValue(digits[4..6])])
    ensures forall k :: 0 <= k < 3 ==> 0 <= HexToRgb(hashes + digits).value[k] <= 255
  {
    var p0, p1, p2 := digits[0..2], digits[2..4], digits[4..6];
    PiecesOfSix(hashes, digits);
    HexToRgbParsesPieces(hashes + digits);
    ParseThreePairs(p0, p1, p2);
  }

  /** Six hex digits behind any number of `#` are cut into three pairs. */
  lemma PiecesOfSix(hashes: string, digits: string)
    requires AllHashes(hashes)
    requires |digits| == 6 && AllHexDigits(digits)
    ensures Stripped(hashes + digits) == digits
    ensures Pieces(hashes + digits) == [digits[0..2], digits[2..4], digits[4..6]]
  {
    StrippedHashes(hashes, digits);
    ChunksOfSix(digits);
  }

  /** With at least three characters left after stripping, `hex_to_rgb` parses the pieces in order. */
  lemma HexToRgbParsesPieces(value: string)
    requires |Stripped(value)| >= 3
    ensures HexToRgb(value) == ParseAll(Pieces(value))
  {
  }

  /** Three chunks of two hex digits parse to their three values, each below 256. */
  lemma ParseThreePairs(p0: string, p1: string, p2: string)
    requires |p0| == 2 && |p1| == 2 && |p2| == 2
    requires AllHexDigits(p0) && AllHexDigits(p1) && AllHexDigits(p2)
    ensures ParseAll([p0, p1, p2]) == Ok([DigitsValue(p0), DigitsValue(p1), DigitsValue(p2)])
    ensures DigitsValue(p0) < 256 && DigitsValue(p1) < 256 && DigitsValue(p2) < 256
  {
    var v0, v1, v2 := DigitsValue(p0), DigitsValue(p1), DigitsValue(p2);
    assert ParseHex(p0) == Ok(v0) && ParseHex(p1) == Ok(v1) && ParseHex(p2) == Ok(v2);
    assert ParseAll([]) == Ok([]);
    ParseOneMore(p2, [], v2, []);
    assert [p2] + [] == [p2] && [v2] + [] == [v2];
    ParseOneMore(p1, [p2], v1, [v2]);
    assert [p1] + [p2] == [p1, p2] && [v1] + [v2] == [v1, v2];
    ParseOneMore(p0, [p1, p2], v0, [v1, v2]);
    assert [p0] + [p1, p2] == [p0, p1, p2] && [v0] + [v1, v2] == [v0, v1, v2];
  }

  lemma ParseOneMore(chunk: string, rest: seq<string>, v: int, vs: seq<int>)
    requires ParseHex(chunk) == Ok(v) && ParseAll(rest) == Ok(vs)
    ensures ParseAll([chunk] + rest) == Ok([v] + vs)
  {
    assert ([chunk] + rest)[1..] == rest;
  }

  /** Stripping removes exactly the leading hashes in front of a string that starts with a hex digit. */
  lemma StrippedHashes(hashes: string, digits: string)
    requires AllHashes(hashes)
    requires |digits| > 0 && IsHexDigit(digits[0])
    ensures Stripped(hashes + digits) == digits
  {
    var value := hashes + digits;
    if |hashes| > 0 {
      StripHashesOfPrefix(hashes, digits);
    }
  }

  lemma {:induction false} StripHashesOfPrefix(hashes: string, digits: string)
    requires AllHashes(hashes)
    requires |digits| > 0 && IsHexDigit(digits[0])
    ensures StripHashes(hashes + digits) == digits
  {
    if |hashes| > 0 {
      assert (hashes + digits)[1..] == hashes[1..] + digits;
      StripHashesOfPrefix(hashes[1..], digits);
    } else {
      assert hashes + digits == digits;
    }
  }

  /** Three two-digit groups after one `#` parse to their three values. */
  lemma ParseGroups(a: string, b: string, c: string)
    requires |a| == 2 && |b| == 2 && |c| == 2
    requires AllHexDigits(a) && AllHexDigits(b) && AllHexDigits(c)
    ensures HexToRgb("#" + a + b + c) == Ok([DigitsValue(a), DigitsValue(b), DigitsValue(c)])
  {
    var digits := a + b + c;
    assert digits[0..2] == a && digits[2..4] == b && digits[4..6] == c;
    assert "#" + a + b + c == "#" + digits;
    SixDigitsParse("#", digits);
  }

  /** Round trip: parsing the formatted byte triple gives the triple back. */
  lemma HexToRgbOfRgbToHex(rgb: seq<int>)
    requires |rgb| == 3 && forall k :: 0 <= k < 3 ==> 0 <= rgb[k] <= 255
    ensures HexToRgb(RgbToHex(rgb).value) == Ok(rgb)
  {
    var a, b, c := Hex2(rgb[0]), Hex2(rgb[1]), Hex2(rgb[2]);
    Hex2OfByte(rgb[0]);
    Hex2OfByte(rgb[1]);
    Hex2OfByte(rgb[2]);
    assert RgbToHex(rgb).value == "#" + a + b + c;
    ParseFormattedBytes(rgb, a, b, c);
  }

  lemma ParseFormattedBytes(rgb: seq<int>, a: string, b: string, c: string)
    requires |rgb| == 3 && |a| == 2 && |b| == 2 && |c| == 2
    requires AllHexDigits(a) && AllHexDigits(b) && AllHexDigits(c)
    requires DigitsValue(a) == rgb[0] && DigitsValue(b) == rgb[1] && DigitsValue(c) == rgb[2]
    ensures HexToRgb("#" + a + b + c) == Ok(rgb)
  {
    TripleOfItsEntries(rgb, DigitsValue(a), DigitsValue(b), DigitsValue(c));
    ParseGroups(a, b, c);
  }

  lemma TripleOfItsEntries(rgb: seq<int>, x: int, y: int, z: int)
    requires |rgb| == 3 && rgb[0] == x && rgb[1] == y && rgb[2] == z
    ensures [x, y, z] == rgb
  {
  }

  /** The other direction: a lower-case `#rrggbb` string survives parsing and formatting unchanged. */
  lemma RgbToHexOfHexToRgb(digits: string)
    requires |digits| == 6 && AllLowerHexDigits(digits)
    ensures HexToRgb("#" + digits).Ok?
    ensures RgbToHex(HexToRgb("#" + digits).value) == Ok("#" + digits)
  {
    var a, b, c := digits[0..2], digits[2..4], digits[4..6];
    assert digits == a + b + c;
    assert "#" + digits == "#" + a + b + c;
    Hex2OfDigits(a);
    Hex2OfDigits(b);
    Hex2OfDigits(c);
    ParseGroups(a, b, c);
  }

  /**
    A `#` that reaches the server percent-encoded, as `%23`, is not stripped:
    the first chunk is `%23`, which is not a base-16 integer.
  */
  lemma PercentEncodedHashIsRefused(digits: string)
    requires |digits| == 6 && AllHexDigits(digits)
    ensures HexToRgb("%23" + digits) == Err(ValueError)
  {
    var value := "%23" + digits;
    assert Stripped(value) == value;
    assert Chunks(value, 3) == [value[..3]] + Chunks(value[3..], 3);
    assert Pieces(value)[0] == "%23";
    assert !IsHexDigit('%');
    assert ParseHex("%23").Err?;
  }
}
