/**
  The StatusBoard pixel driver: a strip of RGB pixels, a brightness scalar,
  a fixed table of unit colours, and a flush counter standing in for the
  strip's blocking hardware write.
*/
module StatusBoard {
  import opened Results
  import opened Text

  /** One pixel value, one integer per channel. */
  datatype Rgb = Rgb(r: int, g: int, b: int)

  const Off := Rgb(0, 0, 0)

  /**
    The driver's state: the strip buffer (its length is the `neopixels`
    count), the current brightness, and how many times the buffer has been
    flushed to the hardware.
  */
  datatype Board = Board(pixels: seq<Rgb>, brightness: int, flushes: nat)

  /**
    Where a script that makes several driver calls ends up: the board after
    the calls that completed, and the exception that stopped it, if any.
  */
  datatype Outcome = Outcome(board: Board, raised: Option<Error>)

  /** The colour table, in declaration order. */
  const ColorTable: seq<(string, Rgb)> := [
    ("nocolor", Rgb(0, 0, 0)),
    ("blue",    Rgb(0, 0, 1)),
    ("green",   Rgb(0, 1, 0)),
    ("cyan",    Rgb(0, 1, 1)),
    ("red",     Rgb(1, 0, 0)),
    ("magenta", Rgb(1, 0, 1)),
    ("yellow",  Rgb(1, 1, 0)),
    ("white",   Rgb(1, 1, 1))
  ]

  /** The keys of the colour table, in declaration order. */
  function ColorNames(): (names: seq<string>)
    ensures |names| == |ColorTable|
    ensures forall k :: 0 <= k < |names| ==> names[k] == ColorTable[k].0
  {
    seq(|ColorTable|, k requires 0 <= k < |ColorTable| => ColorTable[k].0)
  }

  predicate IsColorName(key: string) {
    exists k :: 0 <= k < |ColorTable| && ColorTable[k].0 == key
  }

  predicate IsUnit(c: Rgb) {
    c.r in {0, 1} && c.g in {0, 1} && c.b in {0, 1}
  }

  predicate InByteRange(c: Rgb) {
    0 <= c.r <= 255 && 0 <= c.g <= 255 && 0 <= c.b <= 255
  }

  /** Search of the table from entry `from` onwards for an exact key. */
  function FindFrom(key: string, from: nat): (r: Option<Rgb>)
    requires from <= |ColorTable|
    ensures r.Some? <==> exists k :: from <= k < |ColorTable| && ColorTable[k].0 == key
    ensures r.Some? ==> exists k :: from <= k < |ColorTable| && ColorTable[k] == (key, r.value)
    decreases |ColorTable| - from
  {
    if from == |ColorTable| then None
    else if ColorTable[from].0 == key then Some(ColorTable[from].1)
    else FindFrom(key, from + 1)
  }

  /** `self.colors[color.lower()]`: `None` stands for the `KeyError`. */
  function Lookup(name: string): (r: Option<Rgb>)
    ensures r.Some? <==> IsColorName(ToLower(name))
    ensures r.Some? ==> exists k :: 0 <= k < |ColorTable| && ColorTable[k] == (ToLower(name), r.value)
  {
    FindFrom(ToLower(name), 0)
  }

  /** Every channel of a unit colour multiplied by the brightness. */
  function Scale(unit: Rgb, brightness: int): Rgb {
    Rgb(unit.r * brightness, unit.g * brightness, unit.b * brightness)
  }

  /** `_get_color_brightness`: table lookup, then scaling by the current brightness. */
  function ColorBrightness(board: Board, name: string): (r: Result<Rgb>)
    ensures r.Err? <==> !IsColorName(ToLower(name))
    ensures r.Err? ==> r.error == KeyError
    ensures r.Ok? ==> exists k :: 0 <= k < |ColorTable| && ColorTable[k].0 == ToLower(name)
                                  && r.value == Scale(ColorTable[k].1, board.brightness)
  {
    match Lookup(name)
    case None => Err(KeyError)
    case Some(unit) => Ok(Scale(unit, board.brightness))
  }

  /** The scaled colour depends on the board only through its brightness. */
  lemma SameBrightnessSameColor(board1: Board, board2: Board, name: string)
    requires board1.brightness == board2.brightness
    ensures ColorBrightness(board1, name) == ColorBrightness(board2, name)
  {
  }

  predicate ValidPixel(board: Board, pixel: int) {
    0 <= pixel < |board.pixels|
  }

  /** Store `c` at `pixel` and flush; an index outside the strip raises `IndexError`. */
  function Store(board: Board, pixel: int, c: Rgb): (r: Result<Board>)
    ensures r.Ok? <==> ValidPixel(board, pixel)
    ensures r.Err? ==> r.error == IndexError
    ensures r.Ok? ==> && |r.value.pixels| == |board.pixels|
                      && r.value.pixels[pixel] == c
                      && (forall j :: 0 <= j < |board.pixels| && j != pixel ==> r.value.pixels[j] == board.pixels[j])
                      && r.value.brightness == board.brightness
                      && r.value.flushes == board.flushes + 1
  {
    if ValidPixel(board, pixel) then
      Ok(board.(pixels := board.pixels[pixel := c], flushes := board.flushes + 1))
    else
      Err(IndexError)
  }

  /**
    `set_pixel_color`: the colour is looked up before the pixel is written,
    so an unknown name raises `KeyError` whatever the index.
  */
  function SetPixelColor(board: Board, pixel: int, name: string): (r: Result<Board>)
    ensures !IsColorName(ToLower(name)) ==> r == Err(KeyError)
    ensures IsColorName(ToLower(name)) && !ValidPixel(board, pixel) ==> r == Err(IndexError)
    ensures r.Ok? <==> IsColorName(ToLower(name)) && ValidPixel(board, pixel)
    ensures r.Ok? ==> && |r.value.pixels| == |board.pixels|
                      && r.value.pixels[pixel] == ColorBrightness(board, name).value
                      && (forall j :: 0 <= j < |board.pixels| && j != pixel ==> r.value.pixels[j] == board.pixels[j])
                      && r.value.brightness == board.brightness
                      && r.value.flushes == board.flushes + 1
  {
    match ColorBrightness(board, name)
    case Err(e) => Err(e)
    case Ok(c) => Store(board, pixel, c)
  }

  /** `clear_all`: every pixel off, one flush; brightness and the table are not consulted. */
  function ClearAll(board: Board): (r: Board)
    ensures |r.pixels| == |board.pixels|
    ensures forall j :: 0 <= j < |r.pixels| ==> r.pixels[j] == Off
    ensures r.brightness == board.brightness
    ensures r.flushes == board.flushes + 1
  {
    board.(pixels := seq(|board.pixels|, _ => Off), flushes := board.flushes + 1)
  }

  /**
    `color_all`: the same scaled colour on every pixel, one flush at the end.
    The lookup is made inside the loop, so a board with no pixels never
    looks the name up and an unknown name is not an error there.
  */
  function ColorAll(board: Board, name: string): (r: Result<Board>)
    ensures r.Err? <==> |board.pixels| > 0 && !IsColorName(ToLower(name))
    ensures r.Err? ==> r.error == KeyError
    ensures r.Ok? ==> && |r.value.pixels| == |board.pixels|
                      && (forall j :: 0 <= j < |board.pixels| ==> r.value.pixels[j] == ColorBrightness(board, name).value)
                      && r.value.brightness == board.brightness
                      && r.value.flushes == board.flushes + 1
  {
    if |board.pixels| == 0 then
      Ok(board.(flushes := board.flushes + 1))
    else
      match ColorBrightness(board, name)
      case Err(e) => Err(e)
      case Ok(c) => Ok(board.(pixels := seq(|board.pixels|, _ => c), flushes := board.flushes + 1))
  }

  /** `StatusBoard(pin, neopixels, brightness)`: allocate the strip, then `clear_all`. */
  function New(neopixels: nat, brightness: int): (r: Board)
    ensures |r.pixels| == neopixels
    ensures forall j :: 0 <= j < neopixels ==> r.pixels[j] == Off
    ensures r.brightness == brightness
    ensures r.flushes == 1
  {
    ClearAll(Board(seq(neopixels, _ => Off), brightness, 0))
  }

  /** Assignment to the `brightness` attribute. */
  function SetBrightness(board: Board, brightness: int): (r: Board)
    ensures r.pixels == board.pixels && r.flushes == board.flushes
    ensures r.brightness == brightness
  {
    board.(brightness := brightness)
  }

  /** The `for pixel in range(self.neopixels)` loop of `clear_all`, one pixel at a time. */
  method ClearAllLoop(board: Board) returns (r: Board)
    ensures r == ClearAll(board)
  {
    var pixels := board.pixels;
    var pixel := 0;
    while pixel < |pixels|
      invariant 0 <= pixel <= |pixels| == |board.pixels|
      invariant forall j :: 0 <= j < pixel ==> pixels[j] == Off
    {
      pixels := pixels[pixel := Off];
      pixel := pixel + 1;
    }
    r := board.(pixels := pixels, flushes := board.flushes + 1);
  }

  /**
    The loop of `color_all`, which calls `_get_color_brightness` on every
    iteration and so raises on the first one when the name is unknown.
  */
  method ColorAllLoop(board: Board, name: string) returns (r: Result<Board>)
    ensures r == ColorAll(board, name)
  {
    var pixels := board.pixels;
    var pixel := 0;
    while pixel < |pixels|
      invariant 0 <= pixel <= |pixels| == |board.pixels|
      invariant pixel > 0 ==> ColorBrightness(board, name).Ok?
      invariant forall j :: 0 <= j < pixel ==> pixels[j] == ColorBrightness(board, name).value
    {
      var c := ColorBrightness(board, name);
      if c.Err? {
        return Err(c.error);
      }
      pixels := pixels[pixel := c.value];
      pixel := pixel + 1;
    }
    if 0 < |pixels| {
      assert pixels == seq(|board.pixels|, _ => ColorBrightness(board, name).value);
    }
    r := Ok(board.(pixels := pixels, flushes := board.flushes + 1));
  }

  // ---- Properties of the driver ----

  /** Every table entry is a 0/1 triple, the keys are distinct, and all eight triples occur. */
  lemma TableIsUnitCube()
    ensures |ColorTable| == 8
    ensures forall k :: 0 <= k < |ColorTable| ==> IsUnit(ColorTable[k].1)
    ensures forall k, m :: 0 <= k < m < |ColorTable| ==> ColorTable[k].0 != ColorTable[m].0
    ensures forall k, m :: 0 <= k < m < |ColorTable| ==> ColorTable[k].1 != ColorTable[m].1
    ensures forall c: Rgb :: IsUnit(c) ==> exists k :: 0 <= k < |ColorTable| && ColorTable[k].1 == c
  {
    forall c: Rgb | IsUnit(c)
      ensures exists k :: 0 <= k < |ColorTable| && ColorTable[k].1 == c
    {
      var k := 4 * c.r + 2 * c.g + c.b;
      assert ColorTable[k].1 == c;
    }
  }

  /** A scaled channel is 0 or the brightness, so it is a byte whenever the brightness is. */
  lemma ScaledChannelsAreBytes(board: Board, name: string)
    requires 0 <= board.brightness <= 255
    requires ColorBrightness(board, name).Ok?
    ensures var c := ColorBrightness(board, name).value;
      && (c.r == 0 || c.r == board.brightness)
      && (c.g == 0 || c.g == board.brightness)
      && (c.b == 0 || c.b == board.brightness)
      && InByteRange(c)
  {
    var k :| 0 <= k < |ColorTable| && ColorTable[k].0 == ToLower(name)
              && ColorBrightness(board, name).value == Scale(ColorTable[k].1, board.brightness);
    TableEntriesAreUnits(k);
    ScaleOfUnit(ColorTable[k].1, board.brightness);
  }

  lemma ScaleOfUnit(unit: Rgb, brightness: int)
    requires IsUnit(unit)
    ensures var c := Scale(unit, brightness);
      && (c.r == 0 || c.r == brightness)
      && (c.g == 0 || c.g == brightness)
      && (c.b == 0 || c.b == brightness)
  {
  }

  lemma TableEntriesAreUnits(k: nat)
    requires k < |ColorTable|
    ensures IsUnit(ColorTable[k].1)
  {
  }

  /** Lower-case and upper-case spellings of a name produce the same buffer. */
  lemma LookupIgnoresCase(board: Board, pixel: int, s: string, t: string)
    requires ToLower(s) == ToLower(t)
    ensures SetPixelColor(board, pixel, s) == SetPixelColor(board, pixel, t)
    ensures ColorAll(board, s) == ColorAll(board, t)
  {
  }

  lemma RedInUpperCase(board: Board, pixel: int)
    ensures SetPixelColor(board, pixel, "RED") == SetPixelColor(board, pixel, "red")
    ensures SetPixelColor(board, pixel, "red").Ok? <==> ValidPixel(board, pixel)
  {
    assert ToLower("RED") == "red";
    assert ColorTable[4].0 == "red";
  }

  /** An unknown name fails both setters with the buffer untouched. */
  lemma PurpleIsUnknown(board: Board, pixel: int)
    requires |board.pixels| > 0
    ensures SetPixelColor(board, pixel, "purple") == Err(KeyError)
    ensures ColorAll(board, "purple") == Err(KeyError)
  {
    assert ToLower("purple") == "purple";
    assert !IsColorName("purple") by {
      forall k | 0 <= k < |ColorTable|
        ensures ColorTable[k].0 != "purple"
      {
        assert ColorTable[k].0[0] != 'p';
      }
    }
  }

  /** A brightness change leaves stored pixels alone; only the next write sees it. */
  lemma BrightnessIsNotRetroactive(board: Board, pixel: int, name: string, brightness: int)
    requires SetPixelColor(board, pixel, name).Ok?
    ensures var after := SetBrightness(SetPixelColor(board, pixel, name).value, brightness);
      && after.pixels[pixel] == ColorBrightness(board, name).value
      && SetPixelColor(after, pixel, name).value.pixels[pixel]
         == Scale(Lookup(name).value, brightness)
  {
  }

  /** Clearing after a colour write gives the same strip as clearing before it: that of a new board. */
  lemma ClearAllForgetsHistory(board: Board, pixel: int, name: string)
    requires SetPixelColor(board, pixel, name).Ok?
    ensures ClearAll(SetPixelColor(board, pixel, name).value).pixels == ClearAll(board).pixels
    ensures ClearAll(board).pixels == New(|board.pixels|, board.brightness).pixels
  {
  }

  /** The strip holds bytes: the brightness and every stored channel lie in 0..255. */
  predicate ByteBoard(board: Board) {
    && 0 <= board.brightness <= 255
    && forall j :: 0 <= j < |board.pixels| ==> InByteRange(board.pixels[j])
  }

  /** Every driver operation keeps the strip within bytes once the brightness is a byte. */
  lemma OperationsKeepBytes(board: Board, pixel: int, name: string, neopixels: nat)
    requires ByteBoard(board)
    ensures SetPixelColor(board, pixel, name).Ok? ==> ByteBoard(SetPixelColor(board, pixel, name).value)
    ensures ColorAll(board, name).Ok? ==> ByteBoard(ColorAll(board, name).value)
    ensures ByteBoard(ClearAll(board))
    ensures ByteBoard(New(neopixels, board.brightness))
  {
    if ColorBrightness(board, name).Ok? {
      ScaledChannelsAreBytes(board, name);
    }
  }

  /** Two named writes to different pixels: each pixel keeps its own colour and the rest are untouched. */
  lemma SetTwoPixels(board: Board, p: int, name1: string, q: int, name2: string)
    requires p != q && ValidPixel(board, p) && ValidPixel(board, q)
    requires IsColorName(ToLower(name1)) && IsColorName(ToLower(name2))
    ensures SetPixelColor(SetPixelColor(board, p, name1).value, q, name2).Ok?
    ensures var after := SetPixelColor(SetPixelColor(board, p, name1).value, q, name2).value;
      && |after.pixels| == |board.pixels|
      && after.pixels[p] == ColorBrightness(board, name1).value
      && after.pixels[q] == ColorBrightness(board, name2).value
      && (forall j :: 0 <= j < |board.pixels| && j != p && j != q ==> after.pixels[j] == board.pixels[j])
      && after.brightness == board.brightness
      && after.flushes == board.flushes + 2
  {
    var first := SetPixelColor(board, p, name1).value;
    SameBrightnessSameColor(board, first, name2);
  }

  /** Writing the same colour on every pixel one by one agrees with `color_all`, except for the flushes. */
  lemma ColorAllIsEverySetPixelColor(board: Board, name: string, pixel: int)
    requires ColorAll(board, name).Ok? && ValidPixel(board, pixel)
    ensures SetPixelColor(board, pixel, name).Ok?
    ensures SetPixelColor(board, pixel, name).value.pixels[pixel] == ColorAll(board, name).value.pixels[pixel]
  {
  }
}
