# WPlace drawing bot, modelled in Dafny

The repository holds two variants of a bot that is pasted into the browser
console of wplace.live. It places an image on the canvas, one pixel at a time.

- **wplace-bot.js** keeps a list of `{x, y, color}` pixels and a cursor. For
  each pixel, `start` selects the nearest palette element, waits, clicks the
  canvas at the start position plus the pixel's offsets, and waits again. The
  pixels come from a 7 by 7 preset, from `loadImageFromData`, or from the RGBA
  walk of `processImageToPixels`.
- **pow.js** keeps rows of `[r, g, b, a]` entries. `start` walks them row by
  row. It skips transparent entries and entries the canvas already shows. For
  the rest it draws with the index of the nearest palette colour.

The model covers the parts of both bots that compute and change state:

| File | Module | Covers |
|---|---|---|
| `common.dfy` | `Common` | The JavaScript primitives involved: `match(/\d+/g)`, `parseInt`, `Number.prototype.toString(16)`, the 32-bit `<<`, and squared colour distance. |
| `codec.dfy` | `ColorCodec` | The colour string codecs and their round trips. |
| `nearest.dfy` | `Nearest` | The shared argmin scan, `findClosestColor` and `getClosestColor`. |
| `wplace_images.dfy` | `WPlaceImages` | The image side of wplace-bot.js: `loadSimpleImage`, the presets, the validation of `loadImageFromData`, and the loop of `processImageToPixels`. |
| `wplace_bot.dfy` | `WPlaceBot` | The `WPlaceBot` object of wplace-bot.js as a class, and its run as a function `Run`. |
| `pow_images.dfy` | `PowImages` | The presets of pow.js and the row packing of `loadImageFromUrl`. |
| `pow_bot.dfy` | `PowBot` | The `WPlaceBot` object of pow.js as a class, and its run as a function `Walk`. |

Effects on the page are recorded in a ghost `trace` of actions:

- wplace-bot.js: a palette selection, a canvas click, a sleep, or a stop.
- pow.js: a draw, a sleep, or a stop.

A sleep is the only point where other console code can run. The one such
call the model follows is `stop()`. Where it lands is an input: a set
`stops` of sleep numbers, counted from 0 within one run.

Each `start` method is proved against a function of the state it reads
(`Run`, `Walk`). What each run does is then proved about that function.

In three places the model follows the code where it departs from the documented intent:

- **Null entries.** In wplace-bot.js, `loadImageFromData` passes a `null`
  entry through `typeof pixel === 'object'`, and then throws while reading
  its `x`. This outcome is modelled as `ThrewTypeError`; it does not return
  `false`.
- **Short colour strings.** `rgbToHex` turns a colour string with one or two
  numbers into `"#aN"`.
- **`getClosestColor`.** In pow.js it throws on a palette colour without
  digits (see Findings). `Bot.Start` calls it as written. With such a palette,
  `start` throws at the first entry that needs drawing. Nothing has been drawn
  by then, and `running` stays true, so every later `start` is refused. The
  function `Walk`, which states what a run that does not throw does, uses the
  corrected scan.

## Model

| member | source | states |
|---|---|---|
| Common.SqDist | wplace-bot.js:97-101 | The squared RGB distance, which has the same argmin as the square-root distance, is 0 exactly when the two colours are equal. |
| Common.DigitRuns | wplace-bot.js:125 | Every match of `/\d+/g` is a non-empty run of decimal digits. |
| Common.DecimalRoundTrip | wplace-bot.js:129-131 | `parseInt` of the decimal writing of n gives back n. |
| Common.Int32 | wplace-bot.js:80 | The 32-bit conversion applied by `<<` lies in the signed 32-bit range and agrees with its input modulo 2^32. |
| Common.ToHexAppendByte | wplace-bot.js:80 | `toString(16)` of hi·256+lo, for hi ≥ 1 and lo a byte, is the writing of hi followed by the two digits of lo. |
| ColorCodec.HexToRgb | wplace-bot.js:114-121 | An accepted string has length 6 or 7, and its three components are bytes. |
| ColorCodec.HexToRgbAccepts | wplace-bot.js:115 | `hexToRgb` returns a colour exactly when the string is six hex digits of either case, optionally after one `#`; otherwise it returns `null`. |
| ColorCodec.HexByte | wplace-bot.js:401-404 | The padded per-channel encoding of a byte is exactly its high and low lower-case hex digits. |
| ColorCodec.HexColor | wplace-bot.js:401-404 | The encoded colour is `#` followed by six lower-case hex digits. |
| ColorCodec.HexColorRoundTrip | wplace-bot.js:401-404 | `hexToRgb` of the encoded colour gives back the byte triple. |
| ColorCodec.HexToRgbCanonical | wplace-bot.js:114-121 | Re-encoding what `hexToRgb` accepted gives `#` followed by the input's six digits in lower case. |
| ColorCodec.RgbStringToObject | wplace-bot.js:124-133 | The result is `null` exactly when the string has fewer than three digit runs; otherwise the components are non-negative. |
| ColorCodec.CssRgbRoundTrip | wplace-bot.js:124-133 | The result reads back every colour written as `rgb(R, G, B)`. |
| ColorCodec.RgbToHex | wplace-bot.js:75-81 | A string with no digits gives `#000000`. One or two digit runs give `#aN`. The result always starts with `#`. |
| ColorCodec.RgbToHexOfBytes | wplace-bot.js:80 | When the first three runs are bytes, the shifted sum written in base 16 without its leading `1` is the per-channel encoding of those bytes. |
| ColorCodec.RgbToHexRoundTrip | wplace-bot.js:75-81 | For byte components, the result is `#` plus six hex digits, and `hexToRgb` of it equals what `rgbStringToObject` reads from the input. |
| ColorCodec.CssRgbToHex | wplace-bot.js:75-81 | `rgb(R, G, B)` with byte components converts to its `#rrggbb` form. |
| Nearest.ParseAll | wplace-bot.js:95 | Entry i of the parsed palette is `rgbStringToObject` of colour i. |
| Nearest.ScanCorrect | wplace-bot.js:94-108 | From any accumulator state consistent with the entries seen, the `forEach` ends at the first-seen nearest parsed entry, or at the default 0 when nothing parses. |
| Nearest.ClosestIndexSpec | wplace-bot.js:94-108 | When any entry parses, the scan returns the nearest parsed entry with no equally near parsed entry before it, and it is the only such index. Otherwise it returns 0. |
| Nearest.FindClosestColor | wplace-bot.js:84-111 | The result is `null` exactly when the palette is empty, and is otherwise an entry of the palette. |
| Nearest.FindClosestColorFallback | wplace-bot.js:91-92 | A target that is not a `#rrggbb` string gets the first entry. |
| Nearest.FindClosestColorNearest | wplace-bot.js:94-110 | For a valid target, the result is the first-seen nearest entry among those whose colour parses. It is entry 0 when no colour parses. |
| Nearest.FindClosestColorExact | wplace-bot.js:84-111 | When the palette holds the target colour at index i, the result is an entry of exactly that colour at an index ≤ i. |
| Nearest.GetClosestColor | pow.js:71-83 | The returned index is in range for a non-empty palette, and is 0 for an empty one. |
| Nearest.GetClosestColorNearest | pow.js:71-83 | The returned index is the first-seen nearest parsed palette colour, or 0 when none parses. |
| Nearest.ScanAsWrittenAgrees | pow.js:74-81 | From position i, the scan as written throws exactly when a later colour has no digits; otherwise it returns what the corrected scan returns. |
| Nearest.GetClosestColorAsWrittenSpec | pow.js:75 | `getClosestColor` as written throws exactly when some palette colour has no digit; otherwise it agrees with `GetClosestColor`. |
| Nearest.GetClosestColorThrowsOnEmptyStyle | pow.js:75 | On the palette `["", "rgb(0, 0, 0)"]` and target black, the code as written throws. The corrected version returns 1. |
| WPlaceImages.SimpleImageLayout | wplace-bot.js:174-191 | `loadSimpleImage(data, w, h)` keeps min(w·h, \|data\|) cells, or none when w or h is not positive. Entry i lies at x = i mod w, y = i div w, inside the grid, with y·w + x = i and colour data[i]. |
| WPlaceImages.HeartMapColors | wplace-bot.js:205-210 | Every glyph of the heart preset maps to red or white. |
| WPlaceImages.SmileyMapColors | wplace-bot.js:226-232 | Every glyph of the smiley preset maps to yellow, black or white. |
| WPlaceImages.HeartPreset | wplace-bot.js:194-212 | The heart preset has 49 pixels: (0,0) is `#FFFFFF`, (1,0) is `#FF0000`, and every pixel is red or white. |
| WPlaceImages.SmileyPreset | wplace-bot.js:215-234 | The smiley preset has 49 pixels: (2,0) is yellow, (2,2) is black, and every pixel is yellow, black or white. |
| WPlaceImages.Validate | wplace-bot.js:310-315 | An accepted array consists only of `{x: number, y: number, color: string}` records. |
| WPlaceImages.ValidateSpec | wplace-bot.js:310-315 | The validation in `loadImageFromData` accepts exactly the arrays of such records. It throws exactly when a `null` entry precedes every other bad entry. |
| WPlaceImages.FromPixelsRoundTrip | wplace-bot.js:310-322 | Any pixel list written as records passes validation and is stored unchanged. |
| WPlaceImages.RasterPrefixSound | wplace-bot.js:390-408 | After n cells, every emitted pixel is an opaque cell among them, inside the row, with that cell's `#rrggbb` colour. |
| WPlaceImages.RasterPrefixOrdered | wplace-bot.js:390-408 | The pixels are emitted in strictly increasing row-major order. |
| WPlaceImages.RasterPrefixComplete | wplace-bot.js:390-408 | After n cells, every cell among them with alpha ≥ 128 has been emitted. |
| WPlaceImages.RasterPixelsSpec | wplace-bot.js:389-410 | The walk emits, in row-major order, exactly the grid cells with alpha ≥ 128. Each is inside the grid and carries the padded hex colour of its first three channels. |
| WPlaceImages.ProcessImageToPixels | wplace-bot.js:389-410 | The nested loop returns exactly `RasterPixels` of the buffer. |
| WPlaceImages.ProcessRow | wplace-bot.js:391-407 | The inner loop extends the pixels of the earlier rows by exactly the kept cells of row y. |
| WPlaceBot.PlanIndex | wplace-bot.js:258-268 | With a palette, pixel k is selected at position 2k and clicked at position 2k+1 of the placements. |
| WPlaceBot.StepCounters | wplace-bot.js:252-272 | One pass advances the cursor by exactly 1 and uses two sleeps, or one when selection fails. It stays running exactly when no stop landed in them, and it remembers the pixel's colour. |
| WPlaceBot.StepPlacements | wplace-bot.js:258-268 | One pass adds the pixel's selection and then its click at start plus offset when selection succeeds, and nothing otherwise. |
| WPlaceBot.StepAfterStop | wplace-bot.js:258-271 | Without a stop a pass records no `Stopped`. After a stop, at most that pass's own pending click follows. |
| WPlaceBot.RunSpec | wplace-bot.js:252-272 | From an undisturbed state the loop ends as `Finished` states: the cursor stops after the last pixel, or after the first pixel during whose sleeps a stop landed. The placements are the plan up to the cursor, and after the stop there is at most one click. |
| WPlaceBot.RunOfStart | wplace-bot.js:248-275 | A run from cursor 0 on a loaded image ends as `Finished` states. |
| WPlaceBot.RunWithoutStop | wplace-bot.js:252-272 | When no stop lands, the cursor ends at \|pixels\| and every pixel is selected and clicked in order. |
| WPlaceBot.StopEndsRun | wplace-bot.js:252-272 | A stop landing during pixel k ends the run with the cursor at most k+1. |
| WPlaceBot.GridRun | wplace-bot.js:252-272 | A row-major image of width w, drawn without stops, clicks pixel k at (startX + k mod w, startY + k div w). |
| WPlaceBot.HeartRun | wplace-bot.js:194-212 | The heart drawn from (10, 20) makes 49 selections and 49 clicks: pixel k's selection, then its click at (10 + k mod 7, 20 + k div 7), from (10, 20) to (16, 26). |
| WPlaceBot.Bot.constructor | wplace-bot.js:12-22 | The constructor's defaults are: not running, delay 1000, cursor 0, no pixels, start (0, 0), selected colour `#000000`. |
| WPlaceBot.Bot.SetStartPosition | wplace-bot.js:290-294 | Sets the start position. |
| WPlaceBot.Bot.SetDelay | wplace-bot.js:297-300 | Sets the delay. |
| WPlaceBot.Bot.Stop | wplace-bot.js:279-282 | Clears `isRunning`. |
| WPlaceBot.Bot.SelectColor | wplace-bot.js:136-145 | Succeeds exactly when the palette is non-empty. On success it clicks the element of `findClosestColor` and remembers the requested colour. On failure nothing changes. |
| WPlaceBot.Bot.ClickCanvas | wplace-bot.js:148-171 | Records one click at (x, y). |
| WPlaceBot.Bot.Pause | wplace-bot.js:285-287 | Records one sleep. `isRunning` is cleared when a stop lands in it. |
| WPlaceBot.Bot.LoadSimpleImage | wplace-bot.js:174-191 | The nested loop leaves exactly `SimpleImage(data, width, height)` in `pixels`. |
| WPlaceBot.Bot.LoadHeartImage | wplace-bot.js:194-212 | Loads the 7 by 7 heart. |
| WPlaceBot.Bot.LoadSmileyImage | wplace-bot.js:215-234 | Loads the 7 by 7 smiley. |
| WPlaceBot.Bot.LoadImageFromData | wplace-bot.js:303-335 | A non-array is refused. Otherwise the outcome is that of the validation. Only a fully valid array replaces `pixels`, with the same records in the same order. |
| WPlaceBot.Bot.LoadImageFromUrl | wplace-bot.js:345-353 | A raster of width or height 0 makes `getImageData` throw: the promise is rejected and `pixels` is unchanged. Otherwise the pixels of `processImageToPixels` always pass validation, and they become `pixels`. |
| WPlaceBot.Bot.Start | wplace-bot.js:237-276 | When already running or with nothing loaded, no state changes and nothing is done. Otherwise the loop's cursor, selected colour and trace are exactly those of `Run` from cursor 0, and `isRunning` ends false. |
| WPlaceBot.Bot.Pass | wplace-bot.js:253-271 | One iteration of the loop body changes the state exactly as `Step` does. |
| PowImages.HeartShape | pow.js:158-166 | The heart is 3 by 3, and its only entry with alpha 0 is (1,1), so 8 entries are opaque. |
| PowImages.SmileyShape | pow.js:168-176 | The smiley is 3 by 3: yellow, with a black centre. |
| PowImages.CellsRoundTrip | pow.js:201-204 | A row of n 4-tuples from cell o flattens back to bytes 4o to 4(o+n) of the buffer. |
| PowImages.CellRowsRoundTrip | pow.js:199-206 | Consecutive rows of cells flatten back to the bytes they were read from. |
| PowImages.PackedRoundTrip | pow.js:198-208 | Packing loses nothing: flattening the `height` rows of `width` tuples gives back the buffer. |
| PowImages.PackRows | pow.js:198-206 | The nested loop builds `height` rows of `width` tuples, tuple (x, y) being bytes (y·w+x)·4 to (y·w+x)·4+3. |
| PowBot.Targets | pow.js:114-121 | The entries to draw from (y, x) on are inside the image. Each is opaque and differs from the canvas at its offset position. None lies before (y, x), and they come in strictly row-major order. |
| PowBot.TargetsComplete | pow.js:114-121 | No entry that needs drawing is missing from the targets. |
| PowBot.TargetsOpaque | pow.js:118 | There are at most as many targets as opaque entries. |
| PowBot.TargetsStep | pow.js:114-121 | The targets follow the loops: at a row's end they continue on the next row, an entry that needs no drawing is skipped, and an entry that needs drawing is the first target. |
| PowBot.WantedStep | pow.js:114-125 | The wanted draws follow the loops: they move to the next row at a row's end, and skip an entry that needs no drawing. |
| PowBot.WalkFrame | pow.js:114-127 | The loops only append to the actions. |
| PowBot.WalkIdle | pow.js:116 | Once `running` is false the loops do nothing more. |
| PowBot.VisitStep | pow.js:117-125 | A visit that does not throw moves the walk on to the next column. With a palette that would throw, such a visit draws nothing and leaves the remaining targets unchanged. |
| PowBot.WalkSpec | pow.js:114-127 | The loops sleep once per draw. Their draws are a prefix of the wanted draws, and all of them while running. When they stop, the stop landed in the last sleep and no earlier one. `Stopped` is recorded exactly then, as the last action. |
| PowBot.PowRun | pow.js:114-127 | A run draws a prefix of the wanted draws, and all of them when no stop lands in that many sleeps. It ends stopped exactly when `Stopped` is recorded. A stop in sleep k allows at most k+1 draws. |
| PowBot.PowRunDraws | pow.js:120-124 | Draw i of a run is target i, at (startX + x, startY + y), with the nearest palette index. |
| PowBot.HeartRun | pow.js:158-166 | A run over the heart preset draws at most 8 pixels. |
| PowBot.Bot.constructor | pow.js:13-18 | The constructor's defaults are: start (0, 0), delay 10, no image, not running, with the page's palette. |
| PowBot.Bot.Stop | pow.js:134-138 | Clears `running`. |
| PowBot.Bot.SetStartPosition | pow.js:144-150 | Sets the start position. |
| PowBot.Bot.SetDelay | pow.js:152-156 | Sets the delay. |
| PowBot.Bot.LoadHeartImage | pow.js:158-166 | Stores the heart preset. |
| PowBot.Bot.LoadSmileyImage | pow.js:168-176 | Stores the smiley preset. |
| PowBot.Bot.LoadImageFromData | pow.js:178-181 | Stores its argument unchanged, without any check. |
| PowBot.Bot.LoadImageFromUrl | pow.js:194-212 | A raster of width or height 0 makes `getImageData` throw, and the `catch` leaves `imageData` unchanged. Otherwise it stores the packed rows, whose flattening is the buffer. |
| PowBot.Bot.DrawPixel | pow.js:85-100 | Records one draw at (x, y) with the palette index. |
| PowBot.Bot.Pause | pow.js:140-142 | Records one sleep. `running` is cleared when a stop lands in it. |
| PowBot.Bot.Start | pow.js:102-132 | When already running, nothing changes. When a palette colour has no digit and some entry needs drawing, the run throws: the trace is unchanged and `running` stays true. Otherwise the trace grows by exactly the actions of `Walk` from (0, 0), and `running` ends false. |
| PowBot.Bot.DrawRow | pow.js:115-126 | The inner loop over row y continues `Walk` from (y, 0) to (y+1, 0). It throws only with a palette that throws and a pending target, before any action. |
| PowBot.Bot.VisitPixel | pow.js:117-125 | One iteration after the cancellation check throws exactly when the entry needs drawing and a palette colour has no digit; then nothing changes. Otherwise it changes the state exactly as `Visit` does: it skips transparent entries and entries the canvas shows, and else draws and sleeps. |

## Left out

- Finding the page: `findCanvas`, `findColorPalette`, `extractColorPalette`, `createControlPanel`, the file-input handlers and `window.open` are DOM plumbing. The palette is an input: a list of entries (an element handle and its CSS colour) in wplace-bot.js, and a list of colour strings in pow.js.
- Mouse events: the dispatch inside `clickCanvas` and `drawPixel` and the `.click()` inside `selectColor` are recorded as actions in the ghost trace, not carried out.
- Timing: `sleep`, `setTimeout` and `async` are only points where a `stop()` may land. Other console calls that could run during a sleep, such as a loader replacing the image mid-run, are not modelled.
- Loading from a URL: image decoding, the scaling arithmetic (`Math.min`, `Math.floor`, `drawImage`) and the `Promise` wrapping of `loadImageFromUrl` are floating point over browser APIs. The scaled width, the scaled height and the RGBA bytes are inputs. The one error of `getImageData` that these inputs decide, a width or height of 0, is modelled; an image that fails to decode is not.
- `Math.sqrt` is replaced by the squared distance, which has the same argmin.
- `parseInt` of strings other than digit runs (NaN, signs, fractions) is not modelled. Every input reaching it here is a digit run.
- Common.DecimalValue: the value is the exact integer. JavaScript numbers are doubles, so `parseInt` and `Number` are exact only below 2^53 and give `Infinity` past about 309 digits. The model does not capture that rounding.
- ColorCodec.RgbToHex: components above 2^53 are read exactly here, while the code rounds them first (for example `rgb(0, 0, 9007199254740993)`). The round-trip lemmas are about byte components, where the two agree.
- Nearest.Scan: distances are exact integers. Past 2^53 the code's double distances can round to a tie, or to `Infinity`, that the model does not have. Byte components, as on a real palette, stay far below that.
- Nearest.ScanAsWritten: it uses the same exact distances as `Nearest.Scan`.
- WPlaceImages.JsValue: `JsNumber` holds an integer. `typeof v === 'number'` also accepts fractions, `NaN` and `Infinity`, which the model does not represent.
- WPlaceImages.ColorOf: the colour map is a Dafny map. A lookup of an inherited object property such as `toString` is not modelled. The lemmas look up only the glyphs of the presets.
- Logging: console output, `updateStatus`, and the dimension and unique-colour logging of `loadImageFromData` (`Math.max`, `Set`) are left out.
- The pow.js constructor's unqualified `createControlPanel()` call, and its early return when no canvas is found, are left out. The constructor is modelled from its field defaults, with the palette as a parameter.
- PowBot.Bot.Start: the start position and delay that `start` reads from the panel inputs with `parseInt` are parameters. The link from `setStartPosition`/`setDelay` to those inputs is not modelled.
- PowBot.Bot.Start: the canvas read `getImageData` is a function `probe` from coordinates to a colour. Each coordinate is read at most once per run, so this covers every canvas.
- PowImages: an `imageData` entry that is not a four-number array (for data passed to `loadImageFromData`) is not modelled. Entries are `Rgba` records.
- Aliasing: the loaded arrays are values here, so a caller mutating an array after loading it is not captured.
- ColorCodec.HexToRgb: its own contract holds only the length and byte facts. The exact acceptance is stated by `HexToRgbAccepts`, and the values by `HexColorRoundTrip` and `HexToRgbCanonical`.
- WPlaceBot.RunConfig.pick: the run is stated with an abstract colour-to-element choice. `Bot.Config` sets it to the element `findClosestColor` returns.
- WPlaceBot.Bot.SelectColor: every palette entry carries its element, so selection fails only for an empty palette.
- Nearest.GetClosestColor: the `forEach` with mutable accumulators is modelled as a recursive scan function, not as a method with a loop.

## Findings

| source | as written | input that shows it | evidently intended | confidence | as-written member | corrected member |
|---|---|---|---|---|---|---|
| pow.js:75 | `color.match(/\d+/g).map(Number)` calls `.map` on `null` when a palette colour has no digit, so `getClosestColor` throws a `TypeError`. | Palette `["", "rgb(0, 0, 0)"]` (a swatch without an inline background colour) and target (0, 0, 0). | Pass over colours that do not hold three numbers, as `findClosestColor` does, and return index 1 here. | not executed | Nearest.GetClosestColorAsWritten, Nearest.GetClosestColorThrowsOnEmptyStyle, PowBot.Bot.VisitPixel | Nearest.GetClosestColor, Nearest.GetClosestColorNearest |
