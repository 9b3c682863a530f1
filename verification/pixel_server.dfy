/**
  The pure parts of the HTTP pixel server: the request that sets one pixel's
  configured value, the "clear all" request, and the `colorize` start-up show.
*/
module PixelServer {
  import opened Results
  import opened Text
  import HexCodec
  import opened StatusBoard

  /** The server's configuration: a pixel's decimal key to the value last parsed for it. */
  type Config = map<string, seq<int>>

  /** The query field that separates the pixel digit from the colour value. */
  const ValueField := "&value="

  /** `s.replace(pattern, "")`: every non-overlapping occurrence, scanning left to right, removed. */
  function RemoveAll(s: string, pattern: string): (r: string)
    requires |pattern| > 0
    ensures |r| <= |s|
    decreases |s|
  {
    if |s| < |pattern| then s
    else if s[..|pattern|] == pattern then RemoveAll(s[|pattern|..], pattern)
    else [s[0]] + RemoveAll(s[1..], pattern)
  }

  predicate OccursAt(s: string, pattern: string, i: int) {
    0 <= i <= |s| - |pattern| && s[i..i + |pattern|] == pattern
  }

  ghost predicate Occurs(s: string, pattern: string) {
    exists i :: OccursAt(s, pattern, i)
  }

  /** A string the pattern does not occur in comes back unchanged. */
  lemma {:induction false} RemoveAllWithoutOccurrence(s: string, pattern: string)
    requires |pattern| > 0 && !Occurs(s, pattern)
    ensures RemoveAll(s, pattern) == s
    decreases |s|
  {
    if |s| >= |pattern| {
      assert !OccursAt(s, pattern, 0);
      assert s[0..|pattern|] == s[..|pattern|];
      assert !Occurs(s[1..], pattern) by {
        forall i | 0 <= i <= |s[1..]| - |pattern|
          ensures !OccursAt(s[1..], pattern, i)
        {
          assert s[1..][i..i + |pattern|] == s[i + 1..i + 1 + |pattern|];
          assert !OccursAt(s, pattern, i + 1);
        }
      }
      RemoveAllWithoutOccurrence(s[1..], pattern);
      assert [s[0]] + s[1..] == s;
    }
  }

  /** A leading occurrence is removed and the rest, free of the pattern, is kept. */
  lemma RemoveLeadingPattern(pattern: string, v: string)
    requires |pattern| > 0 && !Occurs(v, pattern)
    ensures RemoveAll(pattern + v, pattern) == v
  {
    var s := pattern + v;
    assert s[..|pattern|] == pattern;
    assert s[|pattern|..] == v;
    RemoveAllWithoutOccurrence(v, pattern);
  }

  /** A pattern whose first character is absent from `v` does not occur in `v`. */
  lemma AbsentFirstCharacter(pattern: string, v: string)
    requires |pattern| > 0
    requires forall i :: 0 <= i < |v| ==> v[i] != pattern[0]
    ensures !Occurs(v, pattern)
  {
    forall i | 0 <= i <= |v| - |pattern|
      ensures !OccursAt(v, pattern, i)
    {
      assert v[i..i + |pattern|][0] == v[i] != pattern[0];
    }
  }

  /** The value part of a `pixel=D&value=V` query, with no `&` in V, is V. */
  lemma ValueFieldIsRemoved(v: string)
    requires forall i :: 0 <= i < |v| ==> v[i] != '&'
    ensures RemoveAll(ValueField + v, ValueField) == v
  {
    AbsentFirstCharacter(ValueField, v);
    RemoveLeadingPattern(ValueField, v);
  }

  /** `int(c)` for a single character: its digit value, `None` standing for `ValueError`. */
  function ParseDigit(c: char): (r: Option<nat>)
    ensures r.Some? <==> IsDecimalDigit(c)
    ensures r.Some? ==> r.value < 10 && DigitChar(r.value) == c
  {
    if IsDecimalDigit(c) then Some(c as int - '0' as int) else None
  }

  /**
    `set_board_pixel_color`'s update of the configuration. A `ValueError` from
    either parse is swallowed and leaves the configuration as it was; empty
    arguments make `arguments[0]` raise `IndexError`, which is not caught.
  */
  function SetBoardPixelColor(arguments: string, config: Config): (r: Result<Config>)
    ensures r.Err? <==> |arguments| == 0
    ensures r.Err? ==> r.error == IndexError
    ensures r.Ok? && !IsDecimalDigit(arguments[0]) ==> r.value == config
    ensures r.Ok? && HexCodec.HexToRgb(RemoveAll(arguments[1..], ValueField)).Err? ==> r.value == config
    ensures r.Ok? && IsDecimalDigit(arguments[0]) && HexCodec.HexToRgb(RemoveAll(arguments[1..], ValueField)).Ok? ==>
      && r.value.Keys == config.Keys + {[arguments[0]]}
      && r.value[[arguments[0]]] == HexCodec.HexToRgb(RemoveAll(arguments[1..], ValueField)).value
      && forall k :: k in config && k != [arguments[0]] ==> r.value[k] == config[k]
  {
    if |arguments| == 0 then Err(IndexError)
    else match ParseDigit(arguments[0])
      case None => Ok(config)
      case Some(pixel) =>
        match HexCodec.HexToRgb(RemoveAll(arguments[1..], ValueField))
        case Err(_) => Ok(config)
        case Ok(value) => Ok(config[Decimal(pixel) := value])
  }

  /** A well-formed request stores the three bytes under the pixel's key. */
  lemma SetPixelRequest(d: char, digits: string, config: Config)
    requires IsDecimalDigit(d)
    requires |digits| == 6 && HexCodec.AllHexDigits(digits)
    ensures var r := SetBoardPixelColor([d] + ValueField + digits, config);
      && r.Ok? && [d] in r.value && |r.value[[d]]| == 3
      && forall k :: 0 <= k < 3 ==> 0 <= r.value[[d]][k] <= 255
  {
    var arguments := [d] + ValueField + digits;
    assert arguments[1..] == ValueField + digits;
    assert forall i :: 0 <= i < |digits| ==> digits[i] != '&' by {
      forall i | 0 <= i < |digits| ensures digits[i] != '&' {
        assert HexCodec.IsHexDigit(digits[i]);
      }
    }
    ValueFieldIsRemoved(digits);
    HexCodec.SixDigitsParse([], digits);
    assert [] + digits == digits;
  }

  /** A value of fewer than three characters is a swallowed `ValueError`: the configuration is kept. */
  lemma ShortValueKeepsConfig(d: char, v: string, config: Config)
    requires |HexCodec.Stripped(v)| < 3
    requires forall i :: 0 <= i < |v| ==> v[i] != '&'
    ensures SetBoardPixelColor([d] + ValueField + v, config) == Ok(config)
  {
    assert ([d] + ValueField + v)[1..] == ValueField + v;
    ValueFieldIsRemoved(v);
  }

  /**
    A browser sends the `#` of a colour picker's value as `%23`. That value is
    not stripped, its first chunk fails to parse, and the swallowed
    `ValueError` leaves the configuration as it was.
  */
  lemma EncodedHashKeepsConfig(d: char, digits: string, config: Config)
    requires IsDecimalDigit(d)
    requires |digits| == 6 && HexCodec.AllHexDigits(digits)
    ensures SetBoardPixelColor([d] + ValueField + "%23" + digits, config) == Ok(config)
  {
    var value := "%23" + digits;
    assert ([d] + ValueField + "%23" + digits)[1..] == ValueField + value;
    forall i | 0 <= i < |value|
      ensures value[i] != '&'
    {
      if i >= 3 {
        assert value[i] == digits[i - 3] && HexCodec.IsHexDigit(digits[i - 3]);
      }
    }
    ValueFieldIsRemoved(value);
    HexCodec.PercentEncodedHashIsRefused(digits);
  }

  /** The keys `str(p)` for every pixel of a strip of `neopixels`. */
  function PixelKeys(neopixels: nat): set<string> {
    set p | 0 <= p < neopixels :: Decimal(p)
  }

  /** The configuration half of the "clear all" request: every pixel's key set to `[0, 0, 0]`. */
  function ClearConfig(config: Config, neopixels: nat): (r: Config)
    ensures r.Keys == config.Keys + PixelKeys(neopixels)
    ensures forall p :: 0 <= p < neopixels ==> r[Decimal(p)] == [0, 0, 0]
    ensures forall k :: k in config && k !in PixelKeys(neopixels) ==> r[k] == config[k]
  {
    if neopixels == 0 then config
    else
      assert PixelKeys(neopixels) == PixelKeys(neopixels - 1) + {Decimal(neopixels - 1)};
      ClearConfig(config, neopixels - 1)[Decimal(neopixels - 1) := [0, 0, 0]]
  }

  /** The configuration records the channels of every pixel on the board. */
  predicate Mirrors(config: Config, board: Board) {
    forall p :: 0 <= p < |board.pixels| ==>
      Decimal(p) in config && config[Decimal(p)] == [board.pixels[p].r, board.pixels[p].g, board.pixels[p].b]
  }

  /** The "clear all" request: `clear_all` on the board and the pixel keys reset in the configuration. */
  function Clear(board: Board, config: Config): (r: (Board, Config))
    ensures Mirrors(r.1, r.0)
    ensures r.0 == ClearAll(board)
    ensures forall k :: k in config && k !in PixelKeys(|board.pixels|) ==> k in r.1 && r.1[k] == config[k]
  {
    (ClearAll(board), ClearConfig(config, |board.pixels|))
  }

  // ---- colorize ----

  /** One pixel write of the show: `board.set_pixel_color(pixel, color)`. */
  datatype Write = Write(pixel: nat, color: string)

  /** The index of the first occurrence of `x`. */
  function IndexOf(names: seq<string>, x: string): (i: nat)
    requires x in names
    ensures i < |names| && names[i] == x
    ensures forall j :: 0 <= j < i ==> names[j] != x
  {
    if names[0] == x then 0 else 1 + IndexOf(names[1..], x)
  }

  /** `list.remove`: drops the first occurrence of `x`; an absent `x` raises `ValueError`. */
  function RemoveFirst(names: seq<string>, x: string): (r: Result<seq<string>>)
    ensures r.Ok? <==> x in names
    ensures r.Err? ==> r.error == ValueError
    ensures r.Ok? ==> r.value == names[..IndexOf(names, x)] + names[IndexOf(names, x) + 1..]
  {
    if |names| == 0 then Err(ValueError)
    else if names[0] == x then Ok(names[1..])
    else match RemoveFirst(names[1..], x)
      case Err(e) => Err(e)
      case Ok(rest) =>
        var i := IndexOf(names[1..], x);
        assert IndexOf(names, x) == i + 1;
        assert names[..i + 1] == [names[0]] + names[1..][..i];
        assert names[i + 2..] == names[1..][i + 1..];
        Ok([names[0]] + rest)
  }

  /** The colours `colorize` walks: the table's keys in order, `"nocolor"` removed. */
  function ShowColors(): seq<string> {
    assert ColorNames()[0] == "nocolor";
    RemoveFirst(ColorNames(), "nocolor").value
  }

  lemma ShowColorsAreTheLitColors()
    ensures ShowColors() == ["blue", "green", "cyan", "red", "magenta", "yellow", "white"]
    ensures forall k :: 0 <= k < |ShowColors()| ==> ShowColors()[k] != "nocolor" && IsColorName(ShowColors()[k])
  {
    assert ColorNames() == ["nocolor", "blue", "green", "cyan", "red", "magenta", "yellow", "white"];
    assert IndexOf(ColorNames(), "nocolor") == 0;
    assert ShowColors() == ColorNames()[1..];
    forall k | 0 <= k < |ShowColors()|
      ensures IsColorName(ShowColors()[k])
    {
      assert ColorTable[k + 1].0 == ShowColors()[k];
    }
  }

  /** One colour on every pixel in index order. */
  function Sweep(color: string, neopixels: nat): (r: seq<Write>)
    ensures |r| == neopixels
    ensures forall p :: 0 <= p < neopixels ==> r[p] == Write(p, color)
  {
    seq(neopixels, p requires 0 <= p => Write(p, color))
  }

  /** One round of the show: a sweep per colour, colours in order. */
  function Round(colors: seq<string>, neopixels: nat): (r: seq<Write>)
    ensures |r| == |colors| * neopixels
    ensures forall k :: 0 <= k < |r| ==> r[k].pixel < neopixels && r[k].color in colors
  {
    if |colors| == 0 then []
    else Sweep(colors[0], neopixels) + Round(colors[1..], neopixels)
  }

  /** Within a round, the `p`-th write of the `c`-th sweep puts colour `c` on pixel `p`. */
  lemma {:induction false} RoundOrder(colors: seq<string>, neopixels: nat, c: nat, p: nat)
    requires c < |colors| && p < neopixels
    ensures c * neopixels + p < |Round(colors, neopixels)|
    ensures Round(colors, neopixels)[c * neopixels + p] == Write(p, colors[c])
    decreases c
  {
    var rest := Round(colors[1..], neopixels);
    assert Round(colors, neopixels) == Sweep(colors[0], neopixels) + rest;
    if c > 0 {
      RoundOrder(colors[1..], neopixels, c - 1, p);
      assert c * neopixels + p == neopixels + ((c - 1) * neopixels + p);
    }
  }

  /** `count` copies of a block of writes, one after another. */
  function Repeat(block: seq<Write>, count: nat): (r: seq<Write>)
    ensures |r| == count * |block|
    ensures forall k :: 0 <= k < |r| ==> r[k] in block
  {
    if count == 0 then [] else block + Repeat(block, count - 1)
  }

  /** The writes of `colorize(count)`: `count` rounds over the lit colours. */
  function ColorizeWrites(count: nat, neopixels: nat): seq<Write> {
    Repeat(Round(ShowColors(), neopixels), count)
  }

  /** The writes in order; the first one that raises stops the rest. */
  function ApplyWrites(board: Board, writes: seq<Write>): Result<Board>
    decreases |writes|
  {
    if |writes| == 0 then Ok(board)
    else match SetPixelColor(board, writes[0].pixel, writes[0].color)
      case Err(e) => Err(e)
      case Ok(next) => ApplyWrites(next, writes[1..])
  }

  /** Writes of known colours to pixels on the strip never raise, and each flushes once. */
  lemma {:induction false} ApplyValidWrites(board: Board, writes: seq<Write>)
    requires forall k :: 0 <= k < |writes| ==> writes[k].pixel < |board.pixels| && IsColorName(ToLower(writes[k].color))
    ensures ApplyWrites(board, writes).Ok?
    ensures |ApplyWrites(board, writes).value.pixels| == |board.pixels|
    ensures ApplyWrites(board, writes).value.brightness == board.brightness
    ensures ApplyWrites(board, writes).value.flushes == board.flushes + |writes|
    decreases |writes|
  {
    if |writes| > 0 {
      var next := SetPixelColor(board, writes[0].pixel, writes[0].color).value;
      ApplyValidWrites(next, writes[1..]);
    }
  }

  /** Write `i·L + q` of `count` copies of a block of length `L` is write `q` of the block. */
  lemma {:induction false} RepeatOrder(block: seq<Write>, count: nat, i: nat, q: nat)
    requires i < count && q < |block|
    ensures i * |block| + q < |Repeat(block, count)|
    ensures Repeat(block, count)[i * |block| + q] == block[q]
    decreases i
  {
    assert Repeat(block, count) == block + Repeat(block, count - 1);
    if i > 0 {
      RepeatOrder(block, count - 1, i - 1, q);
      PeelOneBlock(i, |block|, q);
      ConcatSecond(block, Repeat(block, count - 1), (i - 1) * |block| + q);
    }
  }

  lemma SevenSweeps(count: nat, size: nat, neopixels: nat)
    requires size == 7 * neopixels
    ensures count * size == count * 7 * neopixels
  {
  }

  lemma ConcatSecond(a: seq<Write>, b: seq<Write>, j: nat)
    requires j < |b|
    ensures |a| + j < |a + b| && (a + b)[|a| + j] == b[j]
  {
  }

  lemma PeelOneBlock(i: nat, size: nat, q: nat)
    requires i > 0
    ensures i * size + q == size + ((i - 1) * size + q)
  {
  }

  /**
    Write `i·L + c·n + p` of `count` rounds over `colors` is round `i`,
    colour `c`, pixel `p`: rounds in order, within a round the colours in
    order, within a colour the pixels in order.
  */
  lemma RoundsOrder(colors: seq<string>, count: nat, neopixels: nat, i: nat, c: nat, p: nat)
    requires i < count && c < |colors| && p < neopixels
    ensures i * |Round(colors, neopixels)| + (c * neopixels + p) < |Repeat(Round(colors, neopixels), count)|
    ensures Repeat(Round(colors, neopixels), count)[i * |Round(colors, neopixels)| + (c * neopixels + p)]
         == Write(p, colors[c])
  {
    RoundOrder(colors, neopixels, c, p);
    RepeatOrder(Round(colors, neopixels), count, i, c * neopixels + p);
  }

  /** The same for the show itself: `colorize` walks the lit colours in this order, `count` times. */
  lemma ColorizeWritesOrder(count: nat, neopixels: nat, i: nat, c: nat, p: nat)
    requires i < count && c < |ShowColors()| && p < neopixels
    ensures i * |Round(ShowColors(), neopixels)| + (c * neopixels + p) < |ColorizeWrites(count, neopixels)|
    ensures ColorizeWrites(count, neopixels)[i * |Round(ShowColors(), neopixels)| + (c * neopixels + p)]
         == Write(p, ShowColors()[c])
  {
    RoundsOrder(ShowColors(), count, neopixels, i, c, p);
  }

  /** Every write of the show is to a pixel on the strip, with a colour the table knows. */
  lemma ColorizeWritesAreValid(board: Board, count: nat)
    ensures |ShowColors()| == 7
    ensures |ColorizeWrites(count, |board.pixels|)| == count * 7 * |board.pixels|
    ensures forall k :: 0 <= k < |ColorizeWrites(count, |board.pixels|)| ==>
      ColorizeWrites(count, |board.pixels|)[k].pixel < |board.pixels|
      && IsColorName(ToLower(ColorizeWrites(count, |board.pixels|)[k].color))
  {
    var round := Round(ShowColors(), |board.pixels|);
    var writes := ColorizeWrites(count, |board.pixels|);
    ShowColorsAreTheLitColors();
    forall k | 0 <= k < |writes|
      ensures writes[k].pixel < |board.pixels| && IsColorName(ToLower(writes[k].color))
    {
      var j :| 0 <= j < |round| && round[j] == writes[k];
      var c := writes[k].color;
      assert c in ShowColors();
      ToLowerOfLowerName(c);
    }
    SevenSweeps(count, |round|, |board.pixels|);
  }

  /**
    `colorize(count)`: the rounds of the show, then `clear_all`. It cannot
    raise, ends with every pixel off, and flushes once per write plus once.
  */
  function Colorize(board: Board, count: nat): (r: Result<Board>)
    ensures r.Ok?
    ensures |r.value.pixels| == |board.pixels|
    ensures forall j :: 0 <= j < |r.value.pixels| ==> r.value.pixels[j] == Off
    ensures r.value.brightness == board.brightness
    ensures r.value.flushes == board.flushes + count * 7 * |board.pixels| + 1
  {
    ColorizeWritesAreValid(board, count);
    ApplyValidWrites(board, ColorizeWrites(count, |board.pixels|));
    match ApplyWrites(board, ColorizeWrites(count, |board.pixels|))
    case Err(e) => Err(e)
    case Ok(shown) => Ok(ClearAll(shown))
  }

  /** The show's colour names are already lower case. */
  lemma ToLowerOfLowerName(c: string)
    requires c in ShowColors()
    ensures ToLower(c) == c
  {
    ShowColorsAreTheLitColors();
    LowerCaseIsFixed(c);
  }

  lemma LowerCaseIsFixed(c: string)
    requires c in ["blue", "green", "cyan", "red", "magenta", "yellow", "white"]
    ensures ToLower(c) == c
  {
    assert forall i :: 0 <= i < |c| ==> !IsUpper(c[i]);
    assert forall i :: 0 <= i < |c| ==> ToLower(c)[i] == c[i];
  }
}
