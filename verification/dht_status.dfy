/**
  The temperature and humidity example: each reading picks a colour for
  pixel 0 from the temperature and one for pixel 2 from the humidity.
*/
module DhtStatus {
  import opened Results
  import opened Text
  import opened StatusBoard

  const MinTemp := 16
  const MaxTemp := 25
  const MinHum := 30
  const MaxHum := 50

  /**
    Pixel 0's colour as the script's branches compute it. The second branch
    only tests `temperature < max_temp`, so every reading at or below the
    minimum lands there.
  */
  function TemperatureColorAsWritten(temperature: int): (c: string)
    ensures MinTemp < temperature < MaxTemp ==> c == "green"
    ensures temperature <= MinTemp ==> c == "red"
    ensures MaxTemp <= temperature ==> c == "blue"
  {
    if MinTemp < temperature < MaxTemp then "green"
    else if temperature < MaxTemp then "red"
    else "blue"
  }

  /** The documented intent: hot is red, cold is blue, in between is green. */
  predicate TemperatureColorIntended(temperature: int, c: string) {
    && (MaxTemp < temperature ==> c == "red")
    && (temperature < MinTemp ==> c == "blue")
    && (MinTemp < temperature < MaxTemp ==> c == "green")
  }

  /** The branches as written swap the documented colours for hot and cold readings. */
  lemma TemperatureColorsSwapped()
    ensures TemperatureColorAsWritten(30) == "blue" && !TemperatureColorIntended(30, TemperatureColorAsWritten(30))
    ensures TemperatureColorAsWritten(10) == "red" && !TemperatureColorIntended(10, TemperatureColorAsWritten(10))
  {
  }

  /** Pixel 0's colour with the two outer branches' colours exchanged, as documented. */
  function TemperatureColor(temperature: int): (c: string)
    ensures TemperatureColorIntended(temperature, c)
    ensures temperature == MinTemp ==> c == "blue"
    ensures temperature == MaxTemp ==> c == "red"
  {
    if MinTemp < temperature < MaxTemp then "green"
    else if temperature < MaxTemp then "blue"
    else "red"
  }

  /** The corrected colour differs from the written one exactly outside the comfortable band. */
  lemma CorrectionOnlyOutsideBand(temperature: int)
    ensures TemperatureColor(temperature) == TemperatureColorAsWritten(temperature)
        <==> MinTemp < temperature < MaxTemp
  {
  }

  /** Pixel 2's colour: green strictly between the humidity limits, red otherwise, limits included. */
  function HumidityColor(humidity: int): (c: string)
    ensures c == "green" <==> MinHum < humidity < MaxHum
    ensures c == "red" <==> humidity <= MinHum || MaxHum <= humidity
  {
    if MinHum < humidity < MaxHum then "green" else "red"
  }

  /** The classification colours are all keys of the board's table. */
  lemma ReadingColorsAreBoardColors(temperature: int, humidity: int)
    ensures IsColorName(ToLower(TemperatureColor(temperature)))
    ensures IsColorName(ToLower(TemperatureColorAsWritten(temperature)))
    ensures IsColorName(ToLower(HumidityColor(humidity)))
  {
    assert ToLower("green") == "green" && ColorTable[2].0 == "green";
    assert ToLower("red") == "red" && ColorTable[4].0 == "red";
    assert ToLower("blue") == "blue" && ColorTable[1].0 == "blue";
  }

  /** `set_pixel_color(0, ...)` then `set_pixel_color(2, ...)`; a failing second call keeps the first. */
  function ShowPixels0And2(board: Board, color0: string, color2: string): (r: Outcome)
    ensures !IsColorName(ToLower(color0)) ==> r == Outcome(board, Some(KeyError))
    ensures IsColorName(ToLower(color0)) && IsColorName(ToLower(color2)) ==>
      && (r.raised.None? <==> |board.pixels| >= 3)
      && (r.raised.Some? ==> r.raised.value == IndexError)
      && (|board.pixels| == 0 ==> r.board == board)
      && (1 <= |board.pixels| < 3 ==> r.board == SetPixelColor(board, 0, color0).value)
    ensures r.raised.None? ==>
      && |r.board.pixels| == |board.pixels| >= 3
      && ColorBrightness(board, color0) == Ok(r.board.pixels[0])
      && ColorBrightness(board, color2) == Ok(r.board.pixels[2])
      && (forall j :: 0 <= j < |board.pixels| && j != 0 && j != 2 ==> r.board.pixels[j] == board.pixels[j])
      && r.board.brightness == board.brightness
      && r.board.flushes == board.flushes + 2
  {
    match SetPixelColor(board, 0, color0)
    case Err(e) => Outcome(board, Some(e))
    case Ok(shown0) =>
      SameBrightnessSameColor(board, shown0, color2);
      match SetPixelColor(shown0, 2, color2)
      case Err(e) => Outcome(shown0, Some(e))
      case Ok(shown2) => Outcome(shown2, None)
  }

  /** One reading shown as the script does it: pixel 0 from the branches as written, pixel 2 from the humidity. */
  function ShowReadingAsWritten(board: Board, temperature: int, humidity: int): (r: Outcome)
    ensures r.raised.None? <==> |board.pixels| >= 3
    ensures r.raised.Some? ==> r.raised.value == IndexError
    ensures r.raised.None? ==>
      && |r.board.pixels| == |board.pixels|
      && ColorBrightness(board, TemperatureColorAsWritten(temperature)) == Ok(r.board.pixels[0])
      && ColorBrightness(board, HumidityColor(humidity)) == Ok(r.board.pixels[2])
      && (forall j :: 0 <= j < |board.pixels| && j != 0 && j != 2 ==> r.board.pixels[j] == board.pixels[j])
      && r.board.flushes == board.flushes + 2
  {
    ReadingColorsAreBoardColors(temperature, humidity);
    ShowPixels0And2(board, TemperatureColorAsWritten(temperature), HumidityColor(humidity))
  }

  /** One reading shown with the documented temperature colours. */
  function ShowReading(board: Board, temperature: int, humidity: int): (r: Outcome)
    ensures r.raised.None? <==> |board.pixels| >= 3
    ensures r.raised.Some? ==> r.raised.value == IndexError
    ensures r.raised.None? ==>
      && |r.board.pixels| == |board.pixels|
      && ColorBrightness(board, TemperatureColor(temperature)) == Ok(r.board.pixels[0])
      && ColorBrightness(board, HumidityColor(humidity)) == Ok(r.board.pixels[2])
      && (forall j :: 0 <= j < |board.pixels| && j != 0 && j != 2 ==> r.board.pixels[j] == board.pixels[j])
      && r.board.flushes == board.flushes + 2
  {
    ReadingColorsAreBoardColors(temperature, humidity);
    ShowPixels0And2(board, TemperatureColor(temperature), HumidityColor(humidity))
  }

  /** A reading sets pixel 0 and pixel 2, one colour each, and leaves every other pixel as it was. */
  lemma ReadingSetsPixels0And2(board: Board, temperature: int, humidity: int)
    requires |board.pixels| >= 3
    ensures var r := ShowReading(board, temperature, humidity);
      && r.raised.None?
      && |r.board.pixels| == |board.pixels|
      && ColorBrightness(board, TemperatureColor(temperature)) == Ok(r.board.pixels[0])
      && ColorBrightness(board, HumidityColor(humidity)) == Ok(r.board.pixels[2])
      && (forall j :: 0 <= j < |board.pixels| && j != 0 && j != 2 ==> r.board.pixels[j] == board.pixels[j])
      && r.board.brightness == board.brightness
      && r.board.flushes == board.flushes + 2
  {
    ReadingColorsAreBoardColors(temperature, humidity);
    SetTwoPixels(board, 0, TemperatureColor(temperature), 2, HumidityColor(humidity));
  }

  /** The same for the script as written: pixel 0 takes the written temperature colour. */
  lemma ReadingAsWrittenSetsPixels0And2(board: Board, temperature: int, humidity: int)
    requires |board.pixels| >= 3
    ensures var r := ShowReadingAsWritten(board, temperature, humidity);
      && r.raised.None?
      && |r.board.pixels| == |board.pixels|
      && ColorBrightness(board, TemperatureColorAsWritten(temperature)) == Ok(r.board.pixels[0])
      && ColorBrightness(board, HumidityColor(humidity)) == Ok(r.board.pixels[2])
      && (forall j :: 0 <= j < |board.pixels| && j != 0 && j != 2 ==> r.board.pixels[j] == board.pixels[j])
      && r.board.brightness == board.brightness
      && r.board.flushes == board.flushes + 2
  {
    ReadingColorsAreBoardColors(temperature, humidity);
    SetTwoPixels(board, 0, TemperatureColorAsWritten(temperature), 2, HumidityColor(humidity));
  }

  /** As written, a hot reading turns pixel 0 blue and a cold one red. */
  lemma HotReadsBlueAsWritten(board: Board, humidity: int)
    requires |board.pixels| >= 3
    ensures ColorBrightness(board, "blue") == Ok(ShowReadingAsWritten(board, 30, humidity).board.pixels[0])
    ensures ColorBrightness(board, "red") == Ok(ShowReadingAsWritten(board, 10, humidity).board.pixels[0])
  {
    ReadingColorsAreBoardColors(30, humidity);
    ReadingColorsAreBoardColors(10, humidity);
  }
}
