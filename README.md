# LED matrix clock: request decoding, state and rendering

This project models the control logic of a small firmware for an LED
matrix panel driven by a microcontroller with a Wi-Fi coprocessor
(`src/main.cpp`). The panel shows either the time (`HH:MM`) or a
temperature (`<value>F`). An HTTP client switches between the two screens
and sets the value with a request line such as
`GET /screen?mode=1&temp=23 HTTP/1.1`.

The model covers:

- **Request decoding** (module `Request`). The route check uses `startsWith`.
  Each of `mode=` and `temp=` is found with `indexOf`. Its field runs up to
  the first `&` after the key, or when there is none, up to the first space.
  The field is cut out with `substring` and converted with `toInt`. These are
  the Arduino `String` operations, modelled in `ArduinoString`. They include
  `indexOf` refusing a start position at or past the end, `substring` swapping and
  clamping its bounds, the end position -1 passed on as the largest unsigned
  value, and `toInt` being `atol` (white space, sign, digits, saturation at
  the 32-bit `long` bounds, 0 when there are no digits).
- **The two globals and `handleClient`** (module `Controller`). The class
  `Display` holds `screenMode` and `tempValue`. `HandleClient` updates them
  in place and returns the bytes sent back: the fixed status lines and
  headers, then `Mode=<m>, Temp=<v>`.
- **Rendering** (module `Render`). Mode 0 gives `sprintf("%02d:%02d")` of the
  time; any other mode gives `sprintf("%dF")` of the value. `drawCentered`
  computes a cursor of `((width - w) / 2, (height - h) / 2)`. This uses C's
  truncating division and the conversion to `int16_t`.
- **One pass of `loop`** (`Controller.Display.Tick`, specified by
  `Controller.Step`): handle a waiting request, take the time, draw the
  frame from the updated settings.

The integer behaviour of the 32-bit target is in `Machine`. Decimal
printing, and its relation to `toInt`, is in `Format`.

The time and the font metrics are parameters. `Tick` takes the hours and
minutes the time client reports. `bounds` stands for `getTextBounds`. A
waiting client is an `Option` holding its request line.

Three consequences of the code are worth stating:

- A field ends at the first `&` at or after its key. Only when no `&`
  follows the key does the code look for the first space after it. A space
  before a later `&` does not end the field, and a `&` before the key plays
  no part: in `GET /screen?x=1&mode=2 HTTP/1.1` the mode field ends at the
  space (`Request.FieldTextDelimited`).
- The temperature is a 32-bit `int`. `toInt` saturates at the 32-bit
  bounds, so `temp=3000000000` stores 2147483647
  (`ArduinoString.ToIntSignedRun`, `ArduinoString.ToIntSaturatesHigh`).
- The mode is any 32-bit integer, not one of two values. Every non-zero
  mode selects the temperature screen (`Render.RenderText`).

## Model

| member | source | states |
|---|---|---|
| Machine.ToUnsigned | src/main.cpp:60-62 | the `int` end position passed to `substring` becomes an unsigned value below 2^32; a non-negative one is kept and -1 becomes 2^32-1 |
| Machine.ToInt16 | src/main.cpp:40-41 | the cursor coordinate is the `int` reduced to `int16_t`: unchanged in range, congruent modulo 2^16 otherwise |
| Machine.CDiv2 | src/main.cpp:40-41 | `/ 2` truncates toward zero: the remainder is 0 or 1 for a non-negative dividend and 0 or -1 for a negative one |
| ArduinoString.IndexOfChar | src/main.cpp:60-61 | `indexOf(c, from)` is -1 exactly when no `c` is at or after `from`, otherwise the position of the first such `c` |
| ArduinoString.FindFrom | src/main.cpp:57 | the scan finds the first position at or after `i` where the key occurs, or -1 when it occurs nowhere after `i` |
| ArduinoString.IndexOf | src/main.cpp:57 | `indexOf(pat, from)` is -1 exactly when `from` is at or past the end or the key does not occur after it, otherwise the first occurrence |
| ArduinoString.Substring | src/main.cpp:62 | `substring(left, right)` is the slice between the bounds, with the two swapped when `left > right` and both clamped to the length |
| ArduinoString.SkipSpace | src/main.cpp:62 | what `atol` skips is a run of C white space, and the rest does not start with white space |
| ArduinoString.Saturate | src/main.cpp:62 | the magnitude is kept inside the 32-bit range and clamped to its bounds outside it |
| ArduinoString.LeadingDigitsOfRun | src/main.cpp:62 | the leading digits of a digit run followed by a non-digit are exactly the run |
| ArduinoString.SkipSpaceRun | src/main.cpp:62 | `atol` skips exactly a leading run of white space, up to the first character that is not white space |
| ArduinoString.StripSignBeforeDigit | src/main.cpp:62 | before a digit, an optional `+` or `-` is dropped, and the text is negative exactly for `-` |
| ArduinoString.SignificandOfSignedRun | src/main.cpp:62 | after white space and an optional sign, `atol` reads from the digit run, negative exactly for `-` |
| ArduinoString.ToIntSignedRun | src/main.cpp:62 | `toInt` of white space, an optional sign, a digit run of value `m` and a non-digit is `m`, negated for `-`, saturated at the 32-bit bounds; leading zeros and `+` make no difference |
| ArduinoString.ToIntSkipsSignAndZeros | src/main.cpp:62 | `" +007x"` converts to 7 |
| ArduinoString.ToIntSaturatesHigh | src/main.cpp:70 | `"3000000000"` converts to 2147483647 |
| ArduinoString.ToInt | src/main.cpp:62 | `toInt` gives 0 for text that does not start a number and for text with no digit, and a negative result only after a minus sign |
| Format.DigitChar | src/main.cpp:80 | each digit value prints as a digit character with that value |
| Format.NatDigits | src/main.cpp:80 | the digits of a natural number are non-empty, all digits, denote the number and have no leading zero |
| Format.Decimal | src/main.cpp:80 | `print(int)` and `%d` give digits denoting the number, with a leading minus sign exactly for a negative number; the text is canonical: `0` for zero and no leading zero otherwise |
| Format.Pad2 | src/main.cpp:128-130 | `%02d` of 0..99 is two digits denoting the number; outside 0..9 it is the plain decimal text |
| Format.NatDigitsFit | src/main.cpp:135-136 | a number has at most `k` digits exactly when it is below 10^k |
| Format.DecimalInt32Length | src/main.cpp:135-136 | every 32-bit value prints in at most 11 characters |
| Format.ToIntDecimal | src/main.cpp:62 | `toInt` reads back what `print` wrote, for every 32-bit value and whatever non-digit follows |
| Request.KeysAreKeys | src/main.cpp:57-66 | `mode=` and `temp=` are five characters long (the offset added to the index) and contain neither delimiter |
| Request.FieldEnd | src/main.cpp:60-61 | the end of a field is -1 or the position of a `&` or a space at or after the start of the key |
| Request.FieldTextDelimited | src/main.cpp:59-62 | the field text starts right after the key and holds no `&`; it stops at the first `&`, or when none follows the key, at the first space, or at the end of the line |
| Request.FieldStopsAtAmp | src/main.cpp:60 | with a `&` after the key, the field text stops at the first `&` |
| Request.FieldWithoutAmp | src/main.cpp:61 | with no `&` after the key, the field text holds no space and stops at the first space or at the end |
| Request.FieldTextBounds | src/main.cpp:59-62 | the field text is a stretch of the line after the key, ending at the end, at a `&` or at a space |
| Request.ParseField | src/main.cpp:57-71 | a field is absent exactly when its key does not occur in the line |
| Request.ReadField | src/main.cpp:57-71 | the decoding block reports the key found exactly when it occurs, and the value it reads is the decoded field |
| Request.Apply | src/main.cpp:55-72 | a line off the route changes nothing; a missing field keeps its setting |
| Request.ResponseBodyReadsBack | src/main.cpp:79-82 | the number after `Mode=` converts back to the mode and the one after `, Temp=` to the value |
| Request.BodyModeReadsBack | src/main.cpp:79-80 | the number after `Mode=` converts back to the mode |
| Request.BodyTempReadsBack | src/main.cpp:81-82 | the number after `, Temp=` converts back to the value |
| Request.ApplyIdempotent | src/main.cpp:55-72 | handling the same line twice leaves the settings as after once |
| Request.FieldTextAfterRun | src/main.cpp:59-62 | a field beginning with a run free of delimiters reads as that run followed by a prefix of what comes after it |
| Request.FieldTextCoversRun | src/main.cpp:59-62 | the field text covers a leading run that holds no delimiter |
| Request.ParseFieldAt | src/main.cpp:57-62 | a key first found after `pre`, followed by a printed number and a non-digit, decodes to that number |
| Request.FieldValueAt | src/main.cpp:62 | the field text after a key holding a printed number converts to that number |
| Request.ToIntOfRunPrefix | src/main.cpp:62 | a printed number followed by a prefix of non-numeric text converts to the number |
| Request.KeyRightAfterRoute | src/main.cpp:55-57 | a key right after the route is first found there |
| Request.FirstFieldAt | src/main.cpp:55-62 | a field right after the route holding a printed number decodes to that number |
| Request.QueryModeField | src/main.cpp:57-62 | in `mode=<m>&temp=<v>` the mode field decodes to `m` |
| Request.QueryTempField | src/main.cpp:66-70 | in `mode=<m>&temp=<v>` the temp field decodes to `v` |
| Request.RoundTrip | src/main.cpp:51-82 | `mode=<m>&temp=<v>` sets the settings to exactly `(m, v)` from any state, and the response reports `m` and `v` |
| Request.QueryLinesOnRoute | src/main.cpp:55 | both orders of the query line pass the route check |
| Request.SwappedTempField | src/main.cpp:66-70 | in `temp=<v>&mode=<m>` the temp field decodes to `v` |
| Request.SwappedModeField | src/main.cpp:57-62 | in `temp=<v>&mode=<m>` the mode field decodes to `m`, although `temp` contains an `m` |
| Request.SwappedModeKeyLate | src/main.cpp:57 | in `temp=<v>&mode=<m>` the key `mode=` is not found before the `&` |
| Request.RoundTripSwapped | src/main.cpp:55-72 | the order of the two fields makes no difference |
| Request.ModeOnlyKeepsValue | src/main.cpp:55-72 | a request with only `mode=<m>` sets the mode and keeps the last temperature |
| Request.UnanchoredKey | src/main.cpp:57 | the key search is not anchored at a parameter boundary: `foomode=1` sets the mode |
| Request.ToIntOfWord | src/main.cpp:70 | text starting with something other than white space, a sign or a digit converts to 0 |
| Request.NonNumericIsZero | src/main.cpp:66-71 | `temp=<word>` where the word does not start a number sets the value to 0, and keeps the mode whenever `mode=` does not occur in the line |
| Request.NonNumericField | src/main.cpp:66-70 | the temp field of `temp=<word>` decodes to 0 |
| Render.RenderText | src/main.cpp:125-138 | mode 0 gives five characters `HH:MM` whose digits denote the time; any other mode gives `%dF` of the value: a minus sign exactly for a negative value, then digits that denote the value's magnitude, with no leading zero (`0F` for zero), then `F`, reading back as the value; both fit their buffers when the temperature buffer has 13 bytes |
| Render.TempTextFitsSourceBuffer | src/main.cpp:135-136 | the 8-byte buffer holds the temperature text exactly for values from -99999 to 999999 |
| Render.CenterCoordinate | src/main.cpp:40-41 | the coordinate centers the text, with margins differing by at most one, and is negative exactly when the text is two or more pixels larger than the panel |
| Render.CenterOrigin | src/main.cpp:40-41 | both coordinates of the cursor are centered in this sense |
| Render.DrawCentered | src/main.cpp:37-43 | the frame shows the given text at a cursor centered on the panel in both directions |
| Render.DrawCenteredIgnoresOffsets | src/main.cpp:38-41 | two bounding boxes of the same size give the same frame, whatever their offsets |
| Controller.AfterClient | src/main.cpp:47-72 | with no client waiting, or a request off the route, the settings stay |
| Controller.Step | src/main.cpp:120-141 | the frame of a pass is the centered rendering of the settings left by that pass's request; a response reporting those settings is sent exactly when a client was waiting |
| Controller.Display.constructor | src/main.cpp:33-34 | both globals start at 0: the clock screen, temperature 0 |
| Controller.Display.HandleClient | src/main.cpp:47-84 | the globals become the settings the request line gives, and the response reports the new settings; with no client, nothing changes and nothing is sent |
| Controller.Display.Tick | src/main.cpp:120-141 | the new state, response and frame are those of `Step` on the old state |
| Controller.QueryShownSameTick | src/main.cpp:120-138 | after `mode=<m>&temp=<v>` with `m` not 0, the same pass shows the value followed by `F` and reports `m` and `v` |
| Controller.ClockSelectedSameTick | src/main.cpp:125-131 | after `mode=0&temp=<v>` the pass shows the time and keeps `v` |
| Controller.TempKeptAcrossModeSwitch | src/main.cpp:62-70 | switching to the clock and back shows the value held before |
| Controller.OtherPathChangesNothing | src/main.cpp:55-83 | a request for another path changes nothing and is still answered with both settings |
| Controller.IdleTick | src/main.cpp:48-49 | with no client waiting, nothing changes and nothing is sent |
| Controller.RepeatedRequest | src/main.cpp:120-121 | the same request in two passes leaves state, response and frame as after the first |
| Controller.SourceBufferOverrunFromRequest | src/main.cpp:135-136 | `mode=1&temp=1000000` makes the next frame's text `1000000F`, which does not fit the 8-byte buffer |

## Left out

- Wi-Fi connection, credentials and the IP printout are network set-up with no logic to model.
- The NTP client is left out; `Tick` takes the hours and minutes it reports as inputs.
- The Protomatter driver is left out: pins, colour, `fillScreen`, `show`, and `print` to the panel. A frame is the text together with its cursor.
- Font metrics are left out: `getTextBounds` is the parameter `bounds`.
- The halt loop after a failed panel start, `Serial` and `delay` are outside the logic.
- Sockets are left out: `server.available`, `readStringUntil` of the request line, the header skip, `println`, `stop`. The client is an optional request line and the response is a string.
- The loop's one-second cadence is not modelled; the model covers one pass at a time.
- An embedded NUL in the request line is not modelled. `indexOf` (through `strchr` and `strstr`) and `toInt` work on the underlying C string and would stop there; the model treats NUL as an ordinary character.
- A request line of more than 2^31 - 1 characters is outside the model. There an index would no longer fit the `int` that `indexOf` returns and `handleClient` stores. The decoding lemmas require lines of at most 2^31 - 1 characters.
- Render.CenterCoordinate: centering is proved only when `width - w` is at least -65537. From -65538 down, the quotient is below -32768 and the `int16_t` conversion wraps around; there only the congruence of `Machine.ToInt16` is stated.
- Render.CenterOrigin: the same bound applies to each coordinate.
- Render.DrawCentered: the same bound applies to each coordinate.

## Findings

| source | as written | input that shows it | evidently intended | confidence | as-written member | corrected member |
|---|---|---|---|---|---|---|
| src/main.cpp:135-136 | the temperature text is written with `sprintf` into `char buf[8]`, which holds at most seven characters and the NUL | `GET /screen?mode=1&temp=1000000 HTTP/1.1` makes the text `1000000F` (nine bytes with the NUL); `temp=-100000` overruns it as well | a buffer of at least 13 bytes, enough for a sign, ten digits, `F` and the NUL for every 32-bit value | high; not executed | Render.TempTextFitsSourceBuffer | Render.RenderText |
