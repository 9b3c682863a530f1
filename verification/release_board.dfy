/**
  The operations only the release variant of the driver has: a random colour
  and raw, table-free access to one pixel. The variant's constructor, lookup,
  `set_pixel_color`, `clear_all` and `color_all` are the same code as the
  top-level driver and are the ones in StatusBoard.
*/
module ReleaseBoard {
  import opened Results
  import opened StatusBoard

  /**
    `_get_random_int`: the drawn value when it lies in 1..255, otherwise 0.
    The draw itself (`getrandbits(8)`) is a parameter.
  */
  function RandomInt(draw: int): (r: int)
    ensures 0 <= r <= 255
    ensures r == draw || r == 0
  {
    if 0 < draw < 256 then draw else 0
  }

  /** An 8-bit draw never reaches the fallback: the clamp is the identity on bytes. */
  lemma RandomIntKeepsBytes(draw: int)
    requires 0 <= draw <= 255
    ensures RandomInt(draw) == draw
  {
  }

  /** Out-of-range draws all collapse to channel value 0. */
  lemma RandomIntRejectsNonBytes(draw: int)
    requires draw < 0 || 255 < draw
    ensures RandomInt(draw) == 0
  {
  }

  /** `get_pixel_raw_color`: the stored triple, read without a flush. */
  function GetPixelRawColor(board: Board, pixel: int): (r: Result<Rgb>)
    ensures r.Ok? <==> ValidPixel(board, pixel)
    ensures r.Err? ==> r.error == IndexError
    ensures r.Ok? ==> r.value == board.pixels[pixel]
  {
    if ValidPixel(board, pixel) then Ok(board.pixels[pixel]) else Err(IndexError)
  }

  /** `set_pixel_raw_color`: store the triple as given, bypassing table and brightness, and flush. */
  function SetPixelRawColor(board: Board, pixel: int, color: Rgb): (r: Result<Board>)
    ensures r.Ok? <==> ValidPixel(board, pixel)
    ensures r.Err? ==> r.error == IndexError
    ensures r.Ok? ==> && |r.value.pixels| == |board.pixels|
                      && r.value.pixels[pixel] == color
                      && (forall j :: 0 <= j < |board.pixels| && j != pixel ==> r.value.pixels[j] == board.pixels[j])
                      && r.value.brightness == board.brightness
                      && r.value.flushes == board.flushes + 1
  {
    Store(board, pixel, color)
  }

  /**
    `set_pixel_random_color`: three draws, clamped, stored unscaled at `pixel`.
    The draws are taken (and clamped) before the pixel is written.
  */
  function SetPixelRandomColor(board: Board, pixel: int, drawR: int, drawG: int, drawB: int): (r: Result<Board>)
    ensures r.Ok? <==> ValidPixel(board, pixel)
    ensures r.Err? ==> r.error == IndexError
    ensures r.Ok? ==> && |r.value.pixels| == |board.pixels|
                      && InByteRange(r.value.pixels[pixel])
                      && (forall j :: 0 <= j < |board.pixels| && j != pixel ==> r.value.pixels[j] == board.pixels[j])
                      && r.value.brightness == board.brightness
                      && r.value.flushes == board.flushes + 1
  {
    var color := Rgb(RandomInt(drawR), RandomInt(drawG), RandomInt(drawB));
    SetPixelRawColor(board, pixel, color)
  }

  /** Reading a pixel right after a raw write returns what was written; other pixels read as before. */
  lemma GetAfterSetRaw(board: Board, pixel: int, color: Rgb, other: int)
    requires ValidPixel(board, pixel)
    ensures GetPixelRawColor(SetPixelRawColor(board, pixel, color).value, pixel) == Ok(color)
    ensures other != pixel ==>
      GetPixelRawColor(SetPixelRawColor(board, pixel, color).value, other) == GetPixelRawColor(board, other)
  {
  }

  /** Writing back what was just read changes nothing but the flush count. */
  lemma SetRawOfGetRaw(board: Board, pixel: int)
    requires ValidPixel(board, pixel)
    ensures SetPixelRawColor(board, pixel, GetPixelRawColor(board, pixel).value).value
         == board.(flushes := board.flushes + 1)
  {
  }

  /** The named setter is the raw setter applied to the looked-up, scaled colour. */
  lemma SetPixelColorIsRawOfScaled(board: Board, pixel: int, name: string)
    requires ColorBrightness(board, name).Ok?
    ensures SetPixelColor(board, pixel, name) == SetPixelRawColor(board, pixel, ColorBrightness(board, name).value)
  {
  }

  /** The random colour is not scaled: with byte draws it is the draws themselves, at any brightness. */
  lemma RandomColorIgnoresBrightness(board: Board, pixel: int, drawR: int, drawG: int, drawB: int, brightness: int)
    requires ValidPixel(board, pixel)
    requires 0 <= drawR <= 255 && 0 <= drawG <= 255 && 0 <= drawB <= 255
    ensures SetPixelRandomColor(board, pixel, drawR, drawG, drawB).value.pixels[pixel] == Rgb(drawR, drawG, drawB)
    ensures SetPixelRandomColor(SetBrightness(board, brightness), pixel, drawR, drawG, drawB).value.pixels
         == SetPixelRandomColor(board, pixel, drawR, drawG, drawB).value.pixels
  {
  }

  /** A random colour keeps the strip within bytes; a raw colour does exactly when it is itself a byte triple. */
  lemma ReleaseOperationsKeepBytes(board: Board, pixel: int, color: Rgb, drawR: int, drawG: int, drawB: int)
    requires ByteBoard(board) && ValidPixel(board, pixel)
    ensures ByteBoard(SetPixelRandomColor(board, pixel, drawR, drawG, drawB).value)
    ensures ByteBoard(SetPixelRawColor(board, pixel, color).value) <==> InByteRange(color)
  {
    var after := SetPixelRawColor(board, pixel, color).value;
    if ByteBoard(after) {
      assert InByteRange(after.pixels[pixel]);
    }
  }

  /** Construction of the release variant also leaves every pixel off, readable as (0,0,0). */
  lemma NewReadsOff(neopixels: nat, brightness: int, pixel: int)
    requires 0 <= pixel < neopixels
    ensures GetPixelRawColor(New(neopixels, brightness), pixel) == Ok(Off)
  {
  }
}
