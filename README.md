# ESP32 status web servers — request handling model

This project models the request handling of two MicroPython web servers for an ESP32 board, IOT_PROJECT/Apmain.py and IOT_PROJECT/developer.py. Each server accepts one connection at a time, reads the request text, updates a small amount of board state, reads the DHT11 sensor and answers with a fixed HTML page.

- **Apmain** is the access-point server that sets the board's single NeoPixel from `GET /?r=R&g=G&b=B`.
  - Every request resets the locals `r, g, b` to `0, 0, 0`.
  - When the request contains `GET /?`, the server cuts the request text with `split(" ")[1]`, then `split("?")[1]`, then `split("&")`.
  - It reads the value after `=` in each of the first three pieces, in order, with `int`. Key names are never looked at.
  - The first missing piece, missing `=` or failed conversion abandons the remaining assignments. The bare `except` swallows the error.
  - The LED is written only when all three values convert. The OLED shows the per-request locals. The page shows only the sensor reading.
- **Developer** is the buzzer alarm server. A process-wide flag `alarm_active` starts false.
  - A request containing `GET /?alarm=on` sets the flag. This test comes first.
  - Otherwise, a request containing `GET /?alarm=off` clears the flag.
  - Every other request leaves the flag unchanged.
  - On every request the buzzer is driven to 1 exactly when the flag is set and the temperature is above 30 or the humidity is above 80. Both comparisons are strict.
  - The OLED and the page show the readings and the alarm state.
- **Http** holds what both servers share: the fixed response header, the connection record (request text, temperature, humidity) and the two OLED lines that show the reading (`TempLine`, `HumLine`).
- **PyStr** models the Python built-ins the handlers use:
  - `in` on strings;
  - `str.split` with a one-character separator, which keeps empty pieces;
  - base-10 `int`;
  - `str` on integers.

The per-connection state that outlives a request lives in two classes:
- `Apmain.Board` holds the colour last handed to the NeoPixel driver as a one-element array and the OLED lines.
- `Developer.AlarmBoard` holds the alarm flag, the buzzer level and the OLED lines.

Their `HandleRequest` methods mirror the source's statements one by one. Their `Serve` methods run the `while True` loop over a finite sequence of connections. Each method is proved against pure functions that state its effect: `ParseRequest`, `LedAfter`, `NextAlarm`, `AlarmAfter`, `BuzzerLevel`, `Page`. The lemmas state what the source promises about those functions.

Three consequences of the code are worth noting:
- The code does not clamp or check the range of `r`, `g` and `b`. Any integer `int` accepts is passed to `set_rgb_color`, including negative values and values above 255.
- On a failed or absent command, the OLED line shows the per-request locals, not the colour the LED keeps. A request without a command shows `R0 G0 B0` while the LED keeps its last colour. A partial command shows the values assigned before the failure.
- The RGB server's page contains only the temperature and the humidity. It never contains the colour.

As written, IOT_PROJECT/developer.py does not compile. Its `global alarm_active` at line 147 stands at module level, after the module-level assignment at line 34, and Python rejects a name declared global after it has been assigned in the same scope. The Developer module describes the program with line 147 removed. The loop runs at module level, so every other statement already reads and writes the module's `alarm_active`.

## Model

| member | source | states |
|---|---|---|
| PyStr.Split | IOT_PROJECT/Apmain.py:155-156 | `str.split(sep)` yields at least one piece and no piece contains the separator |
| PyStr.SplitJoin | IOT_PROJECT/Apmain.py:155 | splitting pieces joined by a separator they do not contain gives back exactly those pieces, empty ones included |
| PyStr.JoinSplit | IOT_PROJECT/Apmain.py:155 | joining the pieces of a split with the same separator restores the text |
| PyStr.SplitAtFirst | IOT_PROJECT/Apmain.py:155 | the first separator ends the first piece and the rest is split independently |
| PyStr.TrimStart | IOT_PROJECT/Apmain.py:156 | the leading whitespace `int` skips is removed, and what remains does not start with whitespace |
| PyStr.TrimEnd | IOT_PROJECT/Apmain.py:156 | the trailing whitespace `int` skips is removed, and what remains does not end with whitespace |
| PyStr.ParseSigned | IOT_PROJECT/Apmain.py:156-158 | the unpadded conversion succeeds if and only if the text is an optional `+` or `-` followed by one or more digits and nothing else; a negative result comes from a leading `-` |
| PyStr.ParseInt | IOT_PROJECT/Apmain.py:156-158 | `int` fails (ValueError) on any text holding a character that is not whitespace, a digit or a sign, such as `1.5` or `1a2`; it succeeds only on text containing a digit; on text not padded by whitespace it is the unpadded conversion |
| PyStr.ParseIntPadded | IOT_PROJECT/Apmain.py:156-158 | whitespace on either side of a number does not change what `int` reads |
| PyStr.NatToString | IOT_PROJECT/Apmain.py:119 | `str` of a natural number is a non-empty run of decimal digits without leading zeros, and is `0` exactly for zero |
| PyStr.Str | IOT_PROJECT/Apmain.py:119-120 | `str(n)` starts with `-` exactly when n < 0, every later character is a digit, and there are no leading zeros |
| PyStr.StrRoundTrip | IOT_PROJECT/Apmain.py:156-158 | `int(str(n)) == n` for every integer |
| PyStr.LeadingZerosValue | IOT_PROJECT/Apmain.py:156-158 | leading zeros do not change the value of a run of digits |
| PyStr.SignedValue | IOT_PROJECT/Apmain.py:156-158 | an optional `+` or `-`, any number of leading zeros and the digits of `v` convert to `v`, negated after `-`; so `05` and `+5` give 5 and `-007` gives -7 |
| PyStr.PaddedValue | IOT_PROJECT/Apmain.py:156-158 | the same text with whitespace on either side converts to the same value, so `int(" +05 ")` is 5 |
| PyStr.ContainsInside | IOT_PROJECT/developer.py:148 | text placed anywhere inside a request is found by `in` |
| Http.RespondFraming | IOT_PROJECT/Apmain.py:171 | the response is the fixed header followed by the page unchanged |
| Http.RespondKeeps | IOT_PROJECT/developer.py:167 | every piece of the page reappears in the response, shifted by the header's length |
| Http.Spliced | IOT_PROJECT/developer.py:119-124 | each value spliced into a template sits right after the text before it |
| Http.ReadingLines | IOT_PROJECT/developer.py:46-47 | the temperature line is `Temp: `, then `str(temp)`, then ` C`, and the humidity line is `Humidity: `, then `str(hum)`, then `%`, each part at its own offset and nothing else in the line |
| Http.Labelled | IOT_PROJECT/developer.py:46-47 | a label, a value and a unit written one after another each sit at their own offset |
| Http.SplicedText | IOT_PROJECT/Apmain.py:49 | the fixed text before each value of a three-value template sits right after the previous value |
| Apmain.Assign | IOT_PROJECT/Apmain.py:155-160 | the three assignments never leave the "no command" state; an abort always leaves `b` at 0; completion needs at least three pieces |
| Apmain.ParseRequest | IOT_PROJECT/Apmain.py:152-161 | the step does nothing exactly when `GET /?` is absent; an aborted step never assigns `b`; a complete step had at least three query pieces |
| Apmain.LedAfterIsLastSet | IOT_PROJECT/Apmain.py:145-161 | after any run of requests the LED holds the colour of the newest complete command, or its starting colour if there was none |
| Apmain.QueryPiecesOf | IOT_PROJECT/Apmain.py:153-155 | a request line `GET /?<pieces joined by &> <rest>` contains the marker and is cut back into exactly its pieces |
| Apmain.PieceValueOf | IOT_PROJECT/Apmain.py:156 | a piece `key=<str(v)>` converts to `v`, whatever the key is |
| Apmain.PieceWithoutEquals | IOT_PROJECT/Apmain.py:156 | a piece without `=` fails at `split("=")[1]` |
| Apmain.PositionalQuery | IOT_PROJECT/Apmain.py:155-159 | the first three pieces give r, g and b in that order whatever their keys, later pieces are ignored, and the step completes |
| Apmain.FailedAssignment | IOT_PROJECT/Apmain.py:156-160 | when the first, second or third field is missing or does not convert, the values before it stay assigned, the later ones stay 0, and the LED is not written |
| Apmain.FailedField | IOT_PROJECT/Apmain.py:154-161 | the same partial assignment seen from the whole request line |
| Apmain.ColorRequestSets | IOT_PROJECT/Apmain.py:155-159 | the form's request `GET /?r=R&g=G&b=B HTTP/1.1` sets the locals and the LED to exactly (R, G, B), for any integers, with no clamping |
| Apmain.ColorIsSticky | IOT_PROJECT/Apmain.py:152-161 | a colour once set stays on the LED through a following request without a command, whose locals are back to (0, 0, 0) |
| Apmain.FormColorIsSticky | IOT_PROJECT/Apmain.py:152-161 | setting a colour through the form and then loading the plain page leaves that colour on the LED |
| Apmain.RgbLine | IOT_PROJECT/Apmain.py:49 | the OLED colour line starts with `RGB: R`, then shows `str(r)`, then ` G`, `str(g)`, ` B` and `str(b)`, each at its own offset, with no other characters between or after them |
| Apmain.OledLines | IOT_PROJECT/Apmain.py:45-50 | the OLED gets three lines: the temperature line, which starts with `Temp: ` and shows the temperature right after it; the humidity line, which starts with `Humidity: ` and shows the humidity right after it; and the colour line of the per-request locals |
| Apmain.PlainRequestShowsZero | IOT_PROJECT/Apmain.py:152-167 | a request without `GET /?` leaves the LED unchanged and shows `RGB: R0 G0 B0`, whatever the LED holds |
| Apmain.PageLayout | IOT_PROJECT/Apmain.py:119-120 | the page shows `str(temp)` and `str(hum)` at their interpolation points |
| Apmain.ResponseShowsReadings | IOT_PROJECT/Apmain.py:170-171 | every response starts with the fixed header and shows both readings; the page takes no colour argument |
| Apmain.Replies | IOT_PROJECT/Apmain.py:170-171 | one response per connection, each the framed page for that connection's reading |
| Apmain.Board.constructor | IOT_PROJECT/Apmain.py:30 | the LED array has one entry, initially `(0, 0, 0)`, and the OLED is blank |
| Apmain.Board.SetRgbColor | IOT_PROJECT/Apmain.py:33-35 | pixel 0 becomes (r, g, b) and no other pixel changes |
| Apmain.Board.UpdateOled | IOT_PROJECT/Apmain.py:45-50 | the display holds the three lines for the reading and the locals |
| Apmain.Board.HandleRequest | IOT_PROJECT/Apmain.py:149-171 | the locals are those of `ParseRequest`, the LED changes only on a complete command, the OLED shows the locals, and the response is the framed page |
| Apmain.Board.Serve | IOT_PROJECT/Apmain.py:145-172 | after a run of connections the LED holds `LedAfter` of the requests, the responses are `Replies`, and the OLED shows the last connection's locals |
| Developer.NextAlarm | IOT_PROJECT/developer.py:148-151 | a request with `GET /?alarm=on` arms the alarm even if it also carries `off`; one with only `off` disarms it; any other request keeps the flag |
| Developer.AlarmAfterIsLastCommand | IOT_PROJECT/developer.py:140-151 | after any run of requests the flag is set by the newest request carrying a command, or is the starting flag if none did |
| Developer.AlarmAfterIdempotent | IOT_PROJECT/developer.py:148-151 | serving the same requests again, or the same request twice in a row, leaves the flag where the first pass put it |
| Developer.OffRequestClears | IOT_PROJECT/developer.py:150-151 | the OFF button's request disarms the alarm from any state, unless the rest of the request itself carries the ON command |
| Developer.BuzzerLevel | IOT_PROJECT/developer.py:157-160 | the level is 0 or 1, 1 exactly when the alarm is armed and temp > 30 or hum > 80 (strict), and 0 whenever the alarm is off |
| Developer.StatusLine | IOT_PROJECT/developer.py:48-51 | the OLED status line is `ALARM ON!` exactly when the alarm is armed and `System Normal` exactly when it is not |
| Developer.OledLines | IOT_PROJECT/developer.py:44-52 | the OLED gets three lines: the temperature line, which starts with `Temp: ` and shows the temperature right after it; the humidity line, which starts with `Humidity: ` and shows the humidity right after it; and the status line, which says `ALARM ON!` exactly when the alarm is armed and `System Normal` exactly when it is not |
| Developer.StatusFragment | IOT_PROJECT/developer.py:124 | the page's status is the ON badge exactly when armed and `OFF` exactly when not |
| Developer.PageLayout | IOT_PROJECT/developer.py:119-124 | both readings and the status fragment sit at their interpolation points |
| Developer.OffIsNotBadge | IOT_PROJECT/developer.py:124 | where `OFF` is written the ON badge is not |
| Developer.ResponseShowsReadings | IOT_PROJECT/developer.py:166-167 | every response starts with the fixed header and shows both readings |
| Developer.ResponseShowsStatus | IOT_PROJECT/developer.py:124 | the response shows the ON badge at the status position if and only if the alarm is armed |
| Developer.AlarmOnScenario | IOT_PROJECT/developer.py:148-167 | `GET /?alarm=on` with 35 degrees and 50 percent arms the alarm from any state, sounds the buzzer and shows the ON badge |
| Developer.TraceSnoc | IOT_PROJECT/developer.py:140-168 | one more connection adds its own buzzer level and response, computed from the flag the earlier connections left |
| Developer.QuietWithoutOn | IOT_PROJECT/developer.py:157-160 | starting disarmed, if no request carries the ON command then every connection drives the buzzer to 0 |
| Developer.AlarmBoard.constructor | IOT_PROJECT/developer.py:34 | the alarm starts disarmed |
| Developer.AlarmBoard.ActivateBuzzer | IOT_PROJECT/developer.py:55-59 | the pin is driven to 1 for true and 0 for false |
| Developer.AlarmBoard.UpdateOled | IOT_PROJECT/developer.py:44-52 | the display holds the three lines for the reading and the flag |
| Developer.AlarmBoard.HandleRequest | IOT_PROJECT/developer.py:147-167 | the flag moves by `NextAlarm`, the returned and stored buzzer level is `BuzzerLevel` of the new flag, the OLED shows the new flag, and the response is the framed page |
| Developer.AlarmBoard.Serve | IOT_PROJECT/developer.py:140-168 | after a run of connections the flag is `AlarmAfter` of the requests and the outputs are exactly `Trace` of the connections |

## Left out

- WiFi bring-up (Apmain.py:13-18, developer.py:13-20) is not modelled. It consists of calls into the network driver and an unbounded busy wait.
- The socket lifecycle is not modelled: `bind`, `listen`, `accept`, `recv(1024).decode()`, `send` and `close`. The request is an already-received string. `recv` may truncate it to a prefix of 1024 bytes, and UTF-8 decoding is not modelled.
- The peripheral drivers are not modelled: DHT11 `measure`, SSD1306 `fill`/`text`/`show`, NeoPixel `write` and the buzzer pin. Readings are integer inputs, the OLED is its list of text lines, and the pixel positions of those lines are not modelled.
- Apmain.Board.SetRgbColor: `led[0]` is the `(r, g, b)` tuple handed to the NeoPixel driver at Apmain.py:34, not the bytes the driver stores. The driver packs the tuple into its byte buffer during that assignment. How it truncates values outside 0..255 is not modelled. A value too large for a machine word may raise there, inside the `try`, and that error is not modelled either.
- Apmain.ColorRequestSets: the colour it proves for the LED is the tuple passed to the driver. For values outside 0..255, what the pixel buffer then holds is not stated.
- `get_sensor_data` has no error handling in either server. The model has no failed-read case.
- The CSS and HTML bulk of both pages is not modelled. The page constants keep the tags and text that lie between the `<h1>` heading and the interpolation points, including the `div` tags that open and close the cards, and an ellipsis stands for the rest: the document head, the style sheet, the container `div`, the colour form and the buttons. They drop the newlines and indentation between those tags.
- PyStr.ParseInt: reads every accepted text as decimal. MicroPython's one-argument `int` may parse a string with base 0, so it may also accept the prefixes `0x`, `0o` and `0b` (`r=0x10` giving 16), where the model fails. The model also does not accept underscores between digits or non-ASCII digits and whitespace. It skips only space and `\t` through `\r` around the number, which is the set MicroPython treats as whitespace. The failure cases its row lists are those of the model.
- PyStr.Split: handles only a one-character separator, the only kind the servers use.
- Developer.AlarmBoard.constructor: the buzzer pin's level before the first request is taken as 0. The source does not set it.
- The compile error in IOT_PROJECT/developer.py is not modelled. The module-level `global alarm_active` at developer.py:147 comes after the assignment at developer.py:34, so the module as written does not compile. The model describes the program with line 147 removed.
- The `while True` loops are modelled as `Serve` over a finite sequence of connections.
- Lab3-Homework/task.py is not part of this model. Its only logic is a flag set by an interrupt handler and cleared by a polling loop.
- iot_lab5errorresolved/12ccode.py is not part of this model. It is a one-shot I2C bus scan.
- IOT_LAB6/boot.py is not part of this model. It is WiFi bring-up only.
