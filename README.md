# ESP32 MFA display: scheduler and secrets loading

A Dafny model of the logic in `src/main.cpp` of the ESP32 MFA display, a
device that shows TOTP codes for a list of services. Three parts of that file
are modelled:

- **The regeneration scheduler** (`loop()`), in `scheduler.dfy`, module
  `Scheduler`. The two persistent statics `nextTrigger` and `previousSecond`
  are the fields of the class `RegenerationScheduler`. Its `Tick` method is one
  pass of `loop()`. It builds the millisecond-of-hour reading
  `now = (minute * 60 + second) * 1000` and fires a regeneration
  (`generate_totps` then `refresh_totp_labels`) when `now >= nextTrigger`. It
  then moves `nextTrigger` to the next multiple of `TOTP_PERIOD` (30000). It
  fires a countdown refresh (`refresh_counter_bars`) when the second read
  differs from `previousSecond`. The callees are opaque: `Tick` returns which
  ones it called. The pure function `Step` states the same pass on a `State`
  value, and `Run` chains passes, so that lemmas can speak of many passes.
- **Secret decoding** (`decode_encoded_base32_secret`), in `decoding.dfy`,
  module `SecretDecoding`. The method copies the secret's characters into a
  fresh byte array, passes that buffer to the Base32 decoder and builds the
  returned record from the decoder's result. The decoder is a function
  parameter.
- **The secrets-file loop** (`init_secrets`), in `secrets.dfy`, module
  `Secrets`. The file is its contents string. `Lines` splits it into lines the
  way repeated `readStringUntil('\n')` calls do. `ParseLine` splits a line at
  its first comma. The method `InitSecrets` runs the loop and returns the
  upserts it issues, in order.

What the proofs show about the code as written:

- The first pass always regenerates (`nextTrigger` starts at 0).
- After a regeneration at `now`, `nextTrigger` is the next multiple of 30000
  above `now`. So, across any run of passes, the next regeneration comes at
  the first pass whose reading falls in a later 30-second slot of the hour
  (`NextRegenerationOnLaterSlot`). Two regenerations of a run never share a
  slot (`NoTwoRegenerationsInOneSlot`).
- `now` counts from the start of the hour, so it is never above 3599000. A
  pass at 59:30 or later sets `nextTrigger` to 3600000, and no later reading
  reaches that value. From then on `loop()` never regenerates again
  (`LastSlotStalls`, `StalledForever`). Over the device's whole uptime,
  `loop()` regenerates at most 120 times (`LifetimeRegenerations`). The
  comment at `src/main.cpp:150` promises a regeneration every 30 seconds; that
  holds only until the end of the first hour.
- `previousSecond` also starts at 0. So if the first pass reads second 0, it
  does not refresh the countdown (`CounterRefreshOnSecondEdge` with `k = 0`).
- `init_secrets` issues exactly one upsert per line that has a comma, in file
  order. The service name is the text before the first comma and has no comma
  in it. The secret is everything after that comma, so a `\r` from a CRLF file
  stays in the secret.

- The schedule counts milliseconds from the start of the hour (minute and
  second), not epoch time steps. This causes the stall above.
- `init_secrets` upserts the decoder's result for every line with a comma,
  whatever length the decoder returned. A secret that fails to decode is not
  skipped.

## Model

| member | source | states |
|---|---|---|
| `Scheduler.ClockReading` | src/main.cpp:151 | `now` is a multiple of 1000 below 3600000, and the minute and second can be read back from it |
| `Scheduler.NextTrigger` | src/main.cpp:156 | the new trigger is a multiple of `TOTP_PERIOD` (30000) in (`now`, `now` + 30000] |
| `Scheduler.Step` | src/main.cpp:151-165 | one pass as a value: afterwards the reading just taken lies below `nextTrigger`, `nextTrigger` never decreases, and `previousSecond` holds the second just read |
| `Scheduler.Run` | src/main.cpp:149-168 | successive passes of `loop()`, each on the statics the previous one left; one event per reading |
| `Scheduler.RegenerationScheduler.constructor` | src/main.cpp:152-160 | both statics start at 0, which satisfies the state invariant |
| `Scheduler.RegenerationScheduler.Tick` | src/main.cpp:149-168 | regenerates iff `now >= nextTrigger`, and then `nextTrigger` becomes `NextTrigger(now)`; otherwise it is unchanged. Refreshes the countdown iff the second differs from `previousSecond`, which afterwards equals that second. The pass equals `Step`, and the invariant is kept |
| `Scheduler.FirstTickRegenerates` | src/main.cpp:152-156 | from the initial statics, the first pass regenerates at any clock reading |
| `Scheduler.StepPreservesValid` | src/main.cpp:153-157 | one pass keeps `nextTrigger` a multiple of 30000 no larger than 3600000, and `previousSecond` below 60 |
| `Scheduler.StepAdvancesTrigger` | src/main.cpp:153-157 | a regeneration moves `nextTrigger` forward by at least one period; without one it is unchanged |
| `Scheduler.RegeneratesOncePerSlot` | src/main.cpp:150-157 | after a regeneration at reading r1, the next pass at r2 regenerates iff r2 is in a later 30-second slot |
| `Scheduler.RegenerationReachesTrigger` | src/main.cpp:151-157 | a regenerating pass of a run reads a clock at or past the `nextTrigger` the run started from |
| `Scheduler.QuietRunWaitsForTrigger` | src/main.cpp:151-157 | while no pass of a run has regenerated, pass k regenerates iff its reading has reached the starting `nextTrigger` |
| `Scheduler.NoTwoRegenerationsInOneSlot` | src/main.cpp:150-157 | any two regenerating passes i < j of a run lie in strictly increasing 30-second slots |
| `Scheduler.NextRegenerationOnLaterSlot` | src/main.cpp:150-157 | after a regenerating pass i, with no regeneration between, pass j regenerates iff its slot is later than pass i's |
| `Scheduler.LastSlotStalls` | src/main.cpp:151-156 | from a valid state, a pass at 59:30 or later leaves `nextTrigger` at 3600000 |
| `Scheduler.StalledForever` | src/main.cpp:150-157 | once `nextTrigger` is at least 3600000, no later pass regenerates and `nextTrigger` stays put |
| `Scheduler.RegenerationsBounded` | src/main.cpp:151-157 | from a valid state, regenerations times 30000 are at most 3600000 minus `nextTrigger`, and the state stays valid |
| `Scheduler.LifetimeRegenerations` | src/main.cpp:150-157 | from power-on, any sequence of passes regenerates at most 120 times |
| `Scheduler.CounterRefreshOnSecondEdge` | src/main.cpp:159-165 | pass k refreshes the countdown iff its second differs from the second read on pass k-1 (from the initial `previousSecond` when k = 0) |
| `SecretDecoding.ByteOf` | src/main.cpp:71 | storing a character into a byte keeps its value when it fits in eight bits |
| `SecretDecoding.CBytes` | src/main.cpp:67-72 | the buffer has one byte per character, and each character below 256 keeps its value |
| `SecretDecoding.Decoded` | src/main.cpp:74-85 | definition: the record holds the decoder's key length and output buffer for the secret's bytes |
| `SecretDecoding.CBytesCopies` | src/main.cpp:67-72 | the buffer has `strlen(secret)` bytes, and byte k is character k of the secret |
| `SecretDecoding.DecodeEncodedBase32Secret` | src/main.cpp:61-90 | the returned `length` and `value` are the decoder's key length and buffer for exactly the secret's bytes |
| `Secrets.IndexOf` | src/main.cpp:114 | -1 iff the character is absent; otherwise an index holding it with no earlier occurrence |
| `Secrets.ReadLine` | src/main.cpp:112 | the line has no newline; with a newline present, input = line + newline + rest; without one, the line is the whole input and nothing remains |
| `Secrets.Lines` | src/main.cpp:111-112 | definition: repeated line reads while unread text remains |
| `Secrets.LinesHaveNoNewline` | src/main.cpp:111-112 | no line read contains a newline |
| `Secrets.LinesRoundTrip` | src/main.cpp:111-112 | joining the lines with newline terminators gives back the contents, plus a final newline if it was missing |
| `Secrets.JoinLinesRoundTrip` | src/main.cpp:111-112 | newline-free lines written with terminators are read back unchanged |
| `Secrets.LinesAppend` | src/main.cpp:111-112 | the lines of newline-terminated text followed by more text are the lines of each part, in order |
| `Secrets.ParseLine` | src/main.cpp:114-118 | no entry iff the line has no comma; otherwise the service has no comma and service + "," + secret is the line |
| `Secrets.LineEntries` | src/main.cpp:114-118 | a line yields at most one entry, and none exactly when it has no comma |
| `Secrets.ParseLines` | src/main.cpp:111-124 | a list of lines yields at most one entry per line |
| `Secrets.Entries` | src/main.cpp:111-124 | definition: the entries of the lines read from the file |
| `Secrets.UpsertOf` | src/main.cpp:121 | definition: the upsert of an entry's service with the decoder's result for its secret |
| `Secrets.ParseLinesCount` | src/main.cpp:111-124 | a list of lines gives as many entries as it has lines containing a comma |
| `Secrets.ParseLinesAppend` | src/main.cpp:111-124 | the entries of two blocks of lines are those of the first block, then those of the second |
| `Secrets.EntriesAppend` | src/main.cpp:111-124 | entries come in file order: a leading block of whole lines contributes its entries first |
| `Secrets.EntriesOfLine` | src/main.cpp:114-118 | one line yields no entry without a comma, and exactly one split at its first comma with one |
| `Secrets.EntriesCount` | src/main.cpp:111-124 | a file has one entry per line containing a comma |
| `Secrets.InitSecrets` | src/main.cpp:110-125 | one upsert per entry, in order, each with the entry's service and the decoder's result for its secret |

## Left out

- WiFi connection and NTP time synchronisation (`init_wifi`, `sync_time`): network I/O with busy-wait loops.
- The SD card steps of `init_secrets`: mounting, the existence check, opening and closing the file, and the early returns when one fails. These are file-system I/O; the model starts from the contents of an opened file.
- `Base32::fromBase32`: its source is not part of this model. It is a function parameter returning a key length and a buffer.
- `generate_totps`, `refresh_totp_labels` and `refresh_counter_bars`: mfa.hpp and the UI code are not part of this model. A pass only reports which of them it called.
- `upsert_decoded_base32_secret` and the service map in totp-map.h: not part of this model. `InitSecrets` returns the sequence of upsert calls, not the resulting map.
- `setup()`: its ordering of the steps, including its own first `generate_totps` call before the first `loop()` pass, is not modelled.
- `lv_timer_handler`, LVGL and display setup, Serial logging, and touch and storage initialisation (`src/touch.hpp`, `src/storage.hpp` only declare functions): UI and hardware with no logic to model.
- `strdup`, `new[]` and `delete[]`: memory management. The model keeps the copy loop into a fresh array but not the allocation failure or the release of the buffers.
- The RTC object: its three reads in a pass are parameters of `Tick`, each in 0..59 as the RTC returns them.
- `unsigned long` width: fields are unbounded naturals. Reachable values stay at or below 3600000, so 32-bit wrap-around never happens.
- `InitSecrets`: treats a NUL character as an ordinary character. The C string handoff (`c_str`, `strdup`, `strlen`) would cut a line at its first NUL.
- `ReadLine`: does not model the stream timeout of `readStringUntil`. The timeout only delays the final read; it never changes the line returned.
- `CBytes`: one character of the contents stands for one byte of the file, so every character is below 256. `ByteOf`'s value for larger characters models nothing.
