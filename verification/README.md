# uStatusBoard in Dafny

A model of the uStatusBoard pixel driver (`StatusBoard`) and the pure logic
in its example scripts, with the driver's and the scripts' properties proved.

The board is an immutable record (`StatusBoard.Board`). It holds the strip
buffer as a sequence of RGB triples, a brightness integer and a flush counter.
The counter stands in for the strip's blocking `write()`. Every driver call is
a pure function of the board. A call that can raise returns a `Result`: a new
board, or for `get_pixel_raw_color` the stored triple. `clear_all`, the
constructor and a brightness assignment cannot raise and return the new board
itself. The Python exceptions become `Results.Error` values: `KeyError`,
`IndexError`, `ValueError` and `TypeError`.
The driver exists in two variants. `status_board.py` and lines 20-39 of
`release/status_board.py` are the same code, so `StatusBoard` models both. The
calls only the release variant has (raw read/write and random colour) are in
`ReleaseBoard`.

The example scripts contribute:

- `HexCodec`: `hex_to_rgb` and `rgb_to_hex` from the pixel server. They round-trip in both directions.
- `PixelServer`: the configuration update of `set_board_pixel_color`, the "clear all" request and the `colorize` show.
- `Jenkins`: the client's `auth` prefix and URL, the status→colour table, and one step of the polling loop.
- `DhtStatus`: the temperature and humidity classification, and the two pixel writes per reading.

Modelling decisions that follow the code rather than a looser reading of it:

- `set_pixel_color` evaluates the right-hand side first. The colour lookup therefore happens before the pixel is touched, and an unknown name raises `KeyError` even for a bad index. An index outside the strip raises `IndexError`. Both errors leave the buffer unchanged.
- `color_all` looks the colour up inside its loop. On a strip with no pixels it never looks up at all: an unknown name does not raise there, and the strip is still flushed once.
- `_get_random_int`'s clamp is kept as written, with the 8-bit draw as a parameter. `ReleaseBoard.RandomIntKeepsBytes` shows the clamp is the identity on real 8-bit draws.
- The table key for off is `nocolor`, as in the code.
- `set_board_pixel_color` only swallows `ValueError`. With empty arguments, `arguments[0]` raises `IndexError`, which escapes.
- The Jenkins polling step and the DHT reading make two driver calls each and return a `StatusBoard.Outcome`: the board after the calls that completed, plus the exception that stopped it. A failure on the second write therefore keeps the first.
- `colorize` returns a `Result<Board>`. Its contract states that it never raises, because every write it makes is to a pixel on the strip with a colour in the table.
- A `#` that a browser percent-encodes as `%23` is not stripped by `hex_to_rgb`. That request is refused and the configuration is kept (`PixelServer.EncodedHashKeepsConfig`).

## Model

| member | source | states |
|---|---|---|
| `Text.ToLower` | status_board.py:52 | `color.lower()`: same length, every character lowered, no upper-case letter left |
| `Text.Decimal` | examples/pixel_server.py:179-180 | `str(p)`: decimal digits whose value is `p`, one digit exactly for values below 10, no leading zero |
| `StatusBoard.Lookup` | status_board.py:52 | `self.colors[color.lower()]` finds an entry exactly when the lower-cased name is a table key, and returns that key's unit triple |
| `StatusBoard.ColorBrightness` | status_board.py:41-52 | `KeyError` exactly for an unknown lower-cased name; otherwise the key's unit triple times the current brightness |
| `StatusBoard.SameBrightnessSameColor` | status_board.py:52 | the scaled colour depends on the board only through its brightness |
| `StatusBoard.Store` | status_board.py:65-66 | writing a triple to one index: `IndexError` exactly off the strip; otherwise that index holds the triple, the rest is unchanged, one flush |
| `StatusBoard.SetPixelColor` | status_board.py:54-66 | unknown name → `KeyError` whatever the index; known name, bad index → `IndexError`; otherwise the pixel holds the scaled colour, every other pixel and the brightness are unchanged, and there is exactly one flush |
| `StatusBoard.ClearAll` | status_board.py:68-77 | every pixel (0,0,0), same length and brightness, exactly one flush |
| `StatusBoard.ColorAll` | status_board.py:79-91 | fails (`KeyError`) exactly when the strip is non-empty and the name unknown; otherwise every pixel holds the same scaled triple, with one flush |
| `StatusBoard.New` | status_board.py:24-39 | construction gives `neopixels` pixels all (0,0,0) whatever the brightness, that brightness, and the one flush of `clear_all` |
| `StatusBoard.ClearAllLoop` | status_board.py:75-77 | the pixel-by-pixel loop of `clear_all` computes `ClearAll` |
| `StatusBoard.ColorAllLoop` | status_board.py:89-91 | the loop that looks the colour up on every iteration computes `ColorAll`, including the first-iteration `KeyError` and the empty strip |
| `StatusBoard.TableIsUnitCube` | status_board.py:29-38 | eight entries, distinct keys, every triple 0/1, all eight 0/1 triples present |
| `StatusBoard.ScaledChannelsAreBytes` | status_board.py:52 | every scaled channel is 0 or the brightness, hence in [0,255] when the brightness is |
| `StatusBoard.LookupIgnoresCase` | status_board.py:52 | names equal after lower-casing give identical `set_pixel_color` and `color_all` results |
| `StatusBoard.RedInUpperCase` | status_board.py:52 | "RED" and "red" give the same buffer, and "red" succeeds on every valid index |
| `StatusBoard.PurpleIsUnknown` | status_board.py:52-91 | an unknown name ("purple") raises `KeyError` from both setters on a non-empty strip, so no buffer is produced |
| `StatusBoard.BrightnessIsNotRetroactive` | status_board.py:52-66 | after a brightness change the stored pixel keeps the old scaled value; the next write uses the new brightness |
| `StatusBoard.ClearAllForgetsHistory` | status_board.py:68-77 | clearing after a colour write gives the same pixels as clearing before it, which are those of a new board |
| `StatusBoard.ColorAllIsEverySetPixelColor` | status_board.py:79-91 | each pixel of `color_all` equals what `set_pixel_color` with the same name would store there |
| `StatusBoard.OperationsKeepBytes` | status_board.py:24-91 | with brightness in [0,255], construction, `set_pixel_color`, `clear_all` and `color_all` keep every channel in [0,255] |
| `StatusBoard.SetTwoPixels` | status_board.py:54-66 | two named writes to distinct valid pixels both succeed; each pixel keeps its colour, the rest are unchanged, two flushes |
| `ReleaseBoard.RandomInt` | release/status_board.py:40-45 | `_get_random_int` is always in [0,255] and is either the draw or 0 |
| `ReleaseBoard.RandomIntKeepsBytes` | release/status_board.py:40-45 | on any 8-bit draw the result is the draw itself |
| `ReleaseBoard.RandomIntRejectsNonBytes` | release/status_board.py:42-45 | a draw outside 0..255 yields 0 |
| `ReleaseBoard.GetPixelRawColor` | release/status_board.py:53-54 | `IndexError` exactly off the strip; otherwise the stored triple, with no board returned and so no flush |
| `ReleaseBoard.SetPixelRawColor` | release/status_board.py:55-57 | stores exactly the given triple at the index, ignoring table and brightness; the rest is unchanged; one flush |
| `ReleaseBoard.SetPixelRandomColor` | release/status_board.py:46-52 | on a valid index, stores a triple with every channel in [0,255]; other pixels and the brightness are unchanged; one flush |
| `ReleaseBoard.GetAfterSetRaw` | release/status_board.py:53-57 | reading right after a raw write returns what was written; other indices read as before |
| `ReleaseBoard.SetRawOfGetRaw` | release/status_board.py:53-57 | writing back the value just read changes nothing but the flush count |
| `ReleaseBoard.SetPixelColorIsRawOfScaled` | release/status_board.py:27-31 | the named setter is the raw setter applied to the looked-up, scaled triple |
| `ReleaseBoard.RandomColorIgnoresBrightness` | release/status_board.py:46-52 | with 8-bit draws the stored triple is the draws themselves, whatever the brightness |
| `ReleaseBoard.ReleaseOperationsKeepBytes` | release/status_board.py:46-57 | a random colour keeps every channel in [0,255]; a raw colour does so exactly when it is a byte triple |
| `ReleaseBoard.NewReadsOff` | release/status_board.py:20-35 | every pixel of a newly constructed release board reads back as (0,0,0) |
| `HexCodec.DigitChar` | examples/pixel_server.py:122 | the digit `%x` prints is lower-case, and reading it back gives its value |
| `HexCodec.DigitCharOfValue` | examples/pixel_server.py:122 | printing the value of a lower-case hex digit gives that digit |
| `HexCodec.HexString` | examples/pixel_server.py:122 | `%x`: lower-case hex digits whose base-16 value is `n`, one digit exactly below 16, no leading zero |
| `HexCodec.Hex2` | examples/pixel_server.py:122 | `%02x`: for `n ≥ 0`, at least two lower-case hex digits whose value is `n`, exactly two iff `n < 256`; for `n < 0`, `-` followed by hex digits whose value is `-n` |
| `HexCodec.RgbToHex` | examples/pixel_server.py:113-122 | `TypeError` exactly when the tuple does not have three entries; otherwise `#` and at least six more characters |
| `HexCodec.RgbToHexShape` | examples/pixel_server.py:113-122 | for a byte triple the result is `#` followed by exactly six lower-case hex digits |
| `HexCodec.StripHashes` | examples/pixel_server.py:105 | `lstrip("#")` removes only `#` characters, all of them at the front |
| `HexCodec.Stripped` | examples/pixel_server.py:104-105 | the value `hex_to_rgb` goes on to parse is exactly `value.lstrip("#")`, so it starts with no `#` |
| `HexCodec.StrippedHashes` | examples/pixel_server.py:104-105 | any number of leading `#` in front of a hex digit are all removed |
| `HexCodec.StripHashesOfPrefix` | examples/pixel_server.py:105 | `lstrip("#")` of a run of `#` and then a hex digit leaves exactly the digits |
| `HexCodec.Chunks` | examples/pixel_server.py:108-109 | the slices at `range(0, len, step)`: concatenated they give the string back; every one has length `step` except the last, which has 1..`step` |
| `HexCodec.ChunksOfSix` | examples/pixel_server.py:108-109 | six characters in steps of two split into the three pairs |
| `HexCodec.DigitsValue` | examples/pixel_server.py:109 | the base-16 value of at most two digits is below 256 |
| `HexCodec.ParseHex` | examples/pixel_server.py:109 | `int(chunk, 16)` succeeds exactly on hex digits of either case, optionally after one `+` or `-`; the value is the digits' base-16 value, negated after `-`; anything else (the empty chunk, `%`, `z`) raises `ValueError` |
| `HexCodec.ParseAll` | examples/pixel_server.py:108-110 | the tuple succeeds exactly when every chunk parses, and then holds each chunk's value in order |
| `HexCodec.HexToRgb` | examples/pixel_server.py:95-110 | fewer than three characters after stripping → `ValueError` (step 0); otherwise success exactly when every chunk of length len//3 parses, giving one value per chunk |
| `HexCodec.Hex2OfByte` | examples/pixel_server.py:122 | `%02x` of a byte is two lower-case hex digits whose base-16 value is the byte |
| `HexCodec.Hex2OfDigits` | examples/pixel_server.py:122 | `%02x` of the value of two lower-case hex digits gives those digits |
| `HexCodec.SixDigitsParse` | examples/pixel_server.py:104-110 | six hex digits of either case, after any number of `#`, parse to exactly three values in [0,255], one per pair |
| `HexCodec.ParseGroups` | examples/pixel_server.py:104-110 | `#` and three two-digit groups parse to the three groups' values |
| `HexCodec.HexToRgbOfRgbToHex` | examples/pixel_server.py:95-122 | `hex_to_rgb(rgb_to_hex(c)) == c` for every byte triple |
| `HexCodec.RgbToHexOfHexToRgb` | examples/pixel_server.py:95-122 | `rgb_to_hex(hex_to_rgb("#" + d)) == "#" + d` for six lower-case hex digits `d` |
| `HexCodec.PercentEncodedHashIsRefused` | examples/pixel_server.py:104-110 | `%23` and six hex digits is not stripped; its first chunk `%23` fails, so `ValueError` is raised |
| `PixelServer.RemoveAll` | examples/pixel_server.py:134 | `replace("&value=", "")` never lengthens the string; its content on the strings the server sees is given by the three lemmas below |
| `PixelServer.RemoveAllWithoutOccurrence` | examples/pixel_server.py:134 | a string in which the pattern does not occur is returned unchanged |
| `PixelServer.RemoveLeadingPattern` | examples/pixel_server.py:134 | a leading occurrence is dropped and a pattern-free rest is kept |
| `PixelServer.AbsentFirstCharacter` | examples/pixel_server.py:134 | a pattern whose first character is absent from a string does not occur in it |
| `PixelServer.ValueFieldIsRemoved` | examples/pixel_server.py:134 | `"&value=" + v`, with no `&` in `v`, becomes `v` |
| `PixelServer.ParseDigit` | examples/pixel_server.py:133 | `int(c)` of one character succeeds exactly on a decimal digit, and `str` of the result is that character |
| `PixelServer.SetBoardPixelColor` | examples/pixel_server.py:125-139 | empty arguments → uncaught `IndexError`; a non-digit pixel or an unparsable value → configuration unchanged; otherwise the key `str(pixel)` maps to the parsed tuple and every other key is kept |
| `PixelServer.SetPixelRequest` | examples/pixel_server.py:132-139 | `D&value=` followed by six hex digits stores three bytes under key `D` |
| `PixelServer.ShortValueKeepsConfig` | examples/pixel_server.py:132-139 | a value shorter than three characters makes `range` step 0; the `ValueError` is swallowed and the configuration is unchanged |
| `PixelServer.EncodedHashKeepsConfig` | examples/pixel_server.py:132-139 | a value of `%23` and six hex digits fails to parse; the `ValueError` is swallowed and the configuration is unchanged |
| `PixelServer.ClearConfig` | examples/pixel_server.py:179-180 | the keys gain exactly `str(p)` for `p` in `range(neopixels)`; each maps to `[0, 0, 0]`; every other key keeps its value |
| `PixelServer.Clear` | examples/pixel_server.py:177-181 | the board is `clear_all`ed, the configuration then records every pixel's channels, and unrelated keys are kept |
| `PixelServer.IndexOf` | examples/pixel_server.py:85 | the index `list.remove` looks for: an occurrence of the entry with none before it |
| `PixelServer.RemoveFirst` | examples/pixel_server.py:85 | `list.remove`: `ValueError` exactly when the entry is absent; otherwise the list with its first occurrence, and only that, removed |
| `PixelServer.ShowColorsAreTheLitColors` | examples/pixel_server.py:84-85 | the show's colours are the seven table keys other than `nocolor`, in table order |
| `PixelServer.Round` | examples/pixel_server.py:87-89 | one round has a write per colour and pixel; every write is on the strip with one of the round's colours |
| `PixelServer.RoundOrder` | examples/pixel_server.py:87-89 | write `c·n + p` of a round puts colour `c` on pixel `p`: colours in order, and for each colour the pixels in order |
| `PixelServer.Repeat` | examples/pixel_server.py:83 | the outer `count` loop: `count · |block|` writes, each one a write of the repeated block |
| `PixelServer.RepeatOrder` | examples/pixel_server.py:83 | write `i·|block| + q` of `count` repetitions is write `q` of the block: the repetitions follow one another unchanged |
| `PixelServer.RoundsOrder` | examples/pixel_server.py:83-89 | in `count` rounds over `colors` and `n` pixels, write `i·L + c·n + p` (`L` the length of one round) puts colour `c` on pixel `p` |
| `PixelServer.ColorizeWritesOrder` | examples/pixel_server.py:83-89 | write `i·L + c·n + p` of `colorize` is colour `c` of the lit colours on pixel `p`: rounds in order, colours in table order, pixels in index order |
| `PixelServer.ColorizeWritesAreValid` | examples/pixel_server.py:83-89 | seven lit colours; every write of the show is to a pixel on the strip with a colour the table knows |
| `PixelServer.ApplyValidWrites` | examples/pixel_server.py:87-89 | writes of known colours to pixels on the strip never raise, and flush once each |
| `PixelServer.Colorize` | examples/pixel_server.py:76-92 | `colorize` never raises and ends with every pixel (0,0,0) and the same brightness, after `count · 7 · n + 1` flushes |
| `PixelServer.ToLowerOfLowerName` | examples/pixel_server.py:84-89 | the show's colour names are already lower case |
| `Jenkins.Authorization` | examples/jenkins_demo.py:48-64 | empty exactly when user or password is `None`; otherwise the user, `:`, the password, `@` |
| `Jenkins.SetAuthorization` | examples/jenkins_demo.py:48-64 | `set_authorization` replaces `auth` and nothing else, so the URL is left alone |
| `Jenkins.LastBuildUrl` | examples/jenkins_demo.py:32 | the URL is `http://`, auth, host, job and `/lastBuild/api/json` laid end to end |
| `Jenkins.SetUrl` | examples/jenkins_demo.py:66-73 | `_set_url` rebuilds the URL from the current auth, host and job and changes nothing else |
| `Jenkins.NewClient` | examples/jenkins_demo.py:39-46 | the constructor keeps user, password, host and job, and sets auth before building the URL from it |
| `Jenkins.NewClientUrl` | examples/jenkins_demo.py:39-46 | a new client's URL is `http://`, user, `:`, password, `@`, host, job and `/lastBuild/api/json`; the four credential parts are absent when either credential is `None` |
| `Jenkins.UrlIsStaleUntilRebuilt` | examples/jenkins_demo.py:48-73 | a later `set_authorization` leaves the URL as it was until `_set_url` runs again |
| `Jenkins.GetStatusColor` | examples/jenkins_demo.py:75-85 | `KeyError` exactly for a status that is not a key of the status table; otherwise that key's colour |
| `Jenkins.StatusTable` | examples/jenkins_demo.py:33-37 | FAILURE→red, SUCCESS→yellow, UNSTABLE→green; the match is case-sensitive |
| `Jenkins.StatusColorsAreBoardColors` | examples/jenkins_demo.py:33-37 | every colour a status maps to is a key of the board's colour table |
| `Jenkins.ShowingAStatusSucceeds` | examples/jenkins_demo.py:126-127 | showing a known status on a pixel of the strip cannot raise |
| `Jenkins.ShowStatuses` | examples/jenkins_demo.py:124-127 | completes exactly when both statuses are known and the strip has two pixels; an unknown status raises `KeyError` before any pixel changes |
| `Jenkins.ShowStatusesShowsBoth` | examples/jenkins_demo.py:124-127 | pixel 0 shows the first job's scaled colour and pixel 1 the second's; the rest are unchanged; two flushes |
| `Jenkins.OnePixelStripShowsFirstJob` | examples/jenkins_demo.py:126-127 | on a one-pixel strip the first job is shown and flushed before the second write raises `IndexError` |
| `DhtStatus.TemperatureColorAsWritten` | examples/dht_status.py:48-55 | green strictly between 16 and 25; red at or below 16; blue at or above 25 |
| `DhtStatus.TemperatureColorsSwapped` | examples/dht_status.py:48-55 | as written, a hot reading (30) gives blue and a cold one (10) red, against the documented colours |
| `DhtStatus.TemperatureColor` | examples/dht_status.py:9-12 | corrected: above 25 red, below 16 blue, strictly between green; blue at 16, red at 25 |
| `DhtStatus.CorrectionOnlyOutsideBand` | examples/dht_status.py:48-55 | the corrected and written colours agree exactly when the temperature is strictly inside (16, 25) |
| `DhtStatus.HumidityColor` | examples/dht_status.py:58-64 | green exactly when 30 < humidity < 50; red otherwise, both limits included |
| `DhtStatus.ReadingColorsAreBoardColors` | examples/dht_status.py:48-64 | every colour the classification picks is a key of the board's table |
| `DhtStatus.ShowPixels0And2` | examples/dht_status.py:48-64 | an unknown first colour raises `KeyError` with no change; with known colours, completes exactly on strips of at least three pixels, and on one or two pixels pixel 0 is already set when `IndexError` is raised; on completion pixels 0 and 2 hold the two scaled colours, every other pixel is unchanged, two flushes |
| `DhtStatus.ShowReadingAsWritten` | examples/dht_status.py:48-64 | the script's reading completes exactly on strips of at least three pixels, else `IndexError`; on completion pixel 0 holds the written temperature colour and pixel 2 the humidity colour, the rest unchanged, two flushes |
| `DhtStatus.ShowReading` | examples/dht_status.py:48-64 | the corrected reading completes exactly on strips of at least three pixels, else `IndexError`; on completion pixel 0 holds the documented temperature colour and pixel 2 the humidity colour, the rest unchanged, two flushes |
| `DhtStatus.ReadingAsWrittenSetsPixels0And2` | examples/dht_status.py:48-64 | as written, a reading on three or more pixels sets pixel 0 to the written temperature colour and pixel 2 to the humidity colour; pixels 1, 3 and the rest are unchanged; two flushes |
| `DhtStatus.ReadingSetsPixels0And2` | examples/dht_status.py:48-64 | a reading sets pixel 0 to the temperature colour and pixel 2 to the humidity colour; pixels 1, 3 and the rest are unchanged; two flushes |
| `DhtStatus.HotReadsBlueAsWritten` | examples/dht_status.py:51-55 | on the board, as written, 30 degrees shows blue on pixel 0 and 10 degrees shows red |

## Findings

| source | as written | input that shows it | evidently intended | confidence | as-written member | corrected member |
|---|---|---|---|---|---|---|
| examples/dht_status.py:48-55 | `elif temperature < max_temp` → `'red'`, else `'blue'` | temperature 30 → blue; temperature 10 → red | above `max_temp` red, below `min_temp` blue, as the module docstring (lines 9-12) and the branch comments (lines 50, 53) say | high; not executed | `DhtStatus.TemperatureColorAsWritten` (with `DhtStatus.TemperatureColorsSwapped`) | `DhtStatus.TemperatureColor` (used by `DhtStatus.ShowReading`) |

`DhtStatus.ShowReadingAsWritten` keeps the script's own behaviour. At the boundaries 16 and 25 the docstring names no colour. The correction swaps the two outer colours, so 16 shows blue and 25 shows red.

## Left out

- Hardware: the pin, the `neopixel` strip and its byte encoding and timing are not part of this model. `write()` is "one more flush". The strip stores bytes, but the model stores each channel as the integer the driver computes. What the strip does with a value outside 0..255 is not modelled. Neither is Python's negative indexing: the model raises `IndexError` for any index outside 0..n-1. Construction failing because the pin cannot be claimed is not modelled either. `status_board.py:27` spells the class `neopixel.Neopixel`, while the release variant uses `NeoPixel`; which one the firmware provides is outside this model.
- Randomness: `urandom.getrandbits(8)` is replaced by the three draws passed to `ReleaseBoard.SetPixelRandomColor`.
- Case folding: `Text.ToLower` folds ASCII letters only. Python's `str.lower` also folds non-ASCII letters.
- `int(...)` parsing: `PixelServer.ParseDigit` accepts ASCII digits only. `HexCodec.ParseHex` accepts an optional sign followed by hex digits. Other forms that `int` accepts (surrounding whitespace, non-ASCII digits, a `0x` prefix, underscores) are modelled as `ValueError`.
- RemoveAll: the contract of `PixelServer.RemoveAll` does not describe `str.replace` on every input, only that the result is no longer. Its content is proved for the strings the request handler builds, by `RemoveAllWithoutOccurrence`, `RemoveLeadingPattern` and `ValueFieldIsRemoved`. Overlapping and repeated occurrences are not characterised.
- `PixelServer.SetBoardPixelColor`: models the configuration update only. `save_config` is file I/O. The `board.set_pixel_raw_color(pixel, value)` that follows is not composed in: the parsed tuple can have other than three entries, and the strip decides what that means. Either can raise after the configuration has already changed.
- `PixelServer.Clear`: `save_config(default_config)` is file I/O and is not modelled.
- Pixel server `main`: the socket accept loop, HTTP line reading (including `msg[1][:-11]`), HTML rendering, `load_config`, `save_config` and `machine.reset` are network and file I/O.
- `colorize`: `time.sleep_ms` is dropped. The show's colour order is the table's declaration order, which assumes insertion-ordered dictionaries. The "every lit colour, every pixel" properties do not depend on that order.
- `Jenkins.get_build_status` and the polling loop's `time.sleep` are an HTTP client and an endless wait. `Jenkins.ShowStatuses` starts from the two fetched statuses. User and password are modelled as strings or `None`, so other objects that `str.format` would print are not covered.
- The DHT sensor reads and the sleep loop in `dht_status.py` are not modelled; the readings are parameters.
- `examples/random_led.py` (a button-interrupt callback drawing a random index) and `examples/module_usage.py` (a demo sequence of driver calls with sleeps and prints) have no logic of their own beyond the driver calls modelled here.
