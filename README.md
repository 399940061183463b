# LoRa GPS forwarder, modelled in Dafny

This project models the forwarding loop of the LoRaGPS firmware (Rust, `no_std`): the
loop in `main` that reads the GPS receiver's serial output one byte at a time, frames
NMEA sentences in an 80-byte `heapless::Vec`, cuts the latitude and longitude out of
`$GPRMC` sentences at fixed byte offsets, composes an outgoing frame in a second 80-byte
`Vec` (`buf2`), hands it to the SX127x LoRa radio and decides, for each radio result,
whether to carry on, print and carry on, or panic.

The repository has three variants of that loop, and each is modelled as its own module
on top of one shared framer:

| binary | error byte | RMC guard | frames per sentence | radio errors |
|---|---|---|---|---|
| `src/bin/monitor_gps.rs` | `b'x'` (120) | `len > 45` and tag | one: `id ++ " " ++ lat ++ " " ++ lon`, or `id ++ " " ++ sentence` | printed; only the delay panics |
| `src/bin/send_gps.rs` | 9 | tag only | raw sentence, then `id ++ "  " ++ lat ++ "   " ++ lon` for RMC | all panic |
| `src/bin/lora_spi_gps.rs` | 9 | tag only | raw sentence, then `lat ++ "   " ++ lon` (28 bytes) for RMC | all panic |

Modules:

- `Common`: the `byte` type (a `u8`), the constants 80, `$` = 36, `\r` = 13 and space,
  `Option`/`Result`, and `Fault`: the panics and printed failures a cycle can produce.
- `HeaplessVec`: class `Vec80`, the `heapless::Vec<u8, 80>`, an array of 80 bytes and a
  length. `Push` fails on a full vector. `PushAll` is the `for v in .. { push(*v).unwrap() }`
  loop; it reports whether the `unwrap` would panic.
- `Framing`: the framer as a pure state machine (`Step`, `Run`) with its invariant and the
  lemmas about it, and class `Framer`, the `buffer`/`good` loop state, whose `Feed` is
  proved to follow `Step`.
- `Compose`: a composer is a list of push loops (`Piece`: a literal or a slice
  `buffer[lo..hi]`). `Build` runs them on values, `ComposeInto` runs them on the real
  `buf2` and is proved to agree with `Build`, and `BuildMeans` says what `Build` computes.
- `Radio`: the radio's answers in one cycle (`TxReplies`), the verdict on each answer under
  the two error policies, and the record of a cycle (`CycleResult`: the frames handed to
  `start_transmit`, the printed soft failures, and the panic that ended it, if any).
- `Rmc`: the `$GPRMC` tag, the field offsets [19, 31) and [32, 45), and the two example
  sentences quoted in the source's comments.
- `MonitorGps`, `SendGps`, `LoraSpiGps`: for each binary, its composer, its cycle as a
  function (`Cycle`), and a class holding the loop state. The class's `Next` method is one
  pass of `loop { .. }`, proved to equal the framer's `Step` followed by `Cycle`.

Behaviour of the code that the model keeps as written:

- In `monitor_gps.rs` a failed `start_transmit` or `check_transmit` is only printed (the
  `panic!` lines are commented out). It is not fatal there.
- Only `monitor_gps.rs` has the `len > 45` guard. In `send_gps.rs` and `lora_spi_gps.rs` a
  framed sentence shorter than 6 bytes (for example `$\r`) panics on `buffer[0..6]`. So does
  an RMC sentence shorter than 45 bytes, such as the void report from the comments, on
  `buffer[19..31]` or `buffer[32..45]`. This happens after the raw sentence was handed to the
  radio. The model states this as a `SliceOutOfRange` fatal outcome, not as a precondition,
  because the framer does emit such sentences (`SendGps.VoidReportPanics`).
- The separators differ per binary (one space; two and three spaces; three spaces and no id).
- An overflow of `buf2` is possible: the `unwrap` panics. For
  `monitor_gps.rs` this happens whenever `|id| + 1 + |sentence| > 80` on a pass-through
  sentence, so an 80-byte truncated sentence that is not an RMC fix always panics
  (`MonitorGps.PassThroughAborts`). A truncated RMC fix is longer than 45 bytes, so its
  fields are extracted and, with an id of at most 53 bytes, it is framed without a panic
  (`MonitorGps.FixFrame`).
- A sentence cut at 80 bytes is forwarded like a complete one. No "truncated" flag exists.
  `Framing.Step` emits a cut sentence as the full buffer, which by the framer's invariant
  holds no `\r`, and a complete one as the buffer followed by `\r`. So an emitted sentence
  that does not end in `\r` was cut at 80 bytes.

The `buffer.clear(); good = false;` at the end of a cycle is done by `Framer.Feed` in the
same step that emits the sentence. Between the emission and that clear, the loop reads the
buffer only as the emitted sentence, and a panic in between ends the loop anyway.

## Model

| member | source | states |
|---|---|---|
| HeaplessVec.Vec80.constructor | src/bin/monitor_gps.rs:152-153 | a new vector has capacity 80 and is empty |
| HeaplessVec.Vec80.Clear | src/bin/monitor_gps.rs:155-156 | `clear` empties the vector |
| HeaplessVec.Vec80.Push | src/bin/monitor_gps.rs:177 | `push` succeeds iff fewer than 80 bytes are held; on success it appends the byte, on failure the contents are unchanged |
| HeaplessVec.Vec80.PushAll | src/bin/monitor_gps.rs:182-184 | the push-and-unwrap loop succeeds iff the bytes fit in the room left, and then appends exactly them in order |
| Framing.ByteOf | src/bin/monitor_gps.rs:164-167 | a failed serial read becomes the binary's error byte; a received byte is used as is |
| Framing.Step | src/bin/monitor_gps.rs:169-177 | one byte: a sentence is emitted iff the byte is not `$`, a capture is running, and the byte is `\r` or the buffer is full; the sentence emitted is the full buffer when the push fails and the buffer followed by `\r` otherwise; after an emission the framer is idle; `$` always restarts the capture with `[$]`; an idle framer ignores other bytes; the invariant (at most 80 bytes, one leading `$`, no `\r`) is kept, and every emitted sentence is well framed |
| Framing.Run | src/bin/monitor_gps.rs:161-177 | feeding a byte stream to the framer emits at most one sentence per byte |
| Framing.RunAppend | src/bin/monitor_gps.rs:161-177 | feeding `a ++ b` equals feeding `a` and then `b` from the resulting state, with the emitted sentences concatenated |
| Framing.RunKeepsInv | src/bin/monitor_gps.rs:152-177 | for every input stream the buffer never exceeds 80 bytes, and every emitted sentence starts with its only `$`, has `\r` at most as its last byte, and ends with `\r` unless it has exactly 80 bytes |
| Framing.CaptureBody | src/bin/monitor_gps.rs:175-177 | while capturing, bytes other than `$` and `\r` that fit are appended and nothing is emitted |
| Framing.LineRoundTrip | src/bin/monitor_gps.rs:169-177 | a complete sentence of at most 80 bytes, fed from any state (even mid-capture), is emitted exactly once and unchanged, and the framer ends idle; the discarded partial sentence is never emitted |
| Framing.FramingIdempotent | src/bin/monitor_gps.rs:161-177 | the same complete sentence fed twice is emitted twice, identical |
| Framing.IdleDiscards | src/bin/monitor_gps.rs:175 | while idle, bytes other than `$` are dropped and nothing is emitted |
| Framing.OverlongTruncated | src/bin/monitor_gps.rs:152-177 | a sentence with no `\r` in its first 80 bytes is emitted as exactly its first 80 bytes; the 81st byte and the rest of that sentence are discarded |
| Framing.Framer.constructor | src/bin/monitor_gps.rs:155-159 | the loop starts with an empty buffer, not capturing, with the given error byte |
| Framing.Framer.Feed | src/bin/monitor_gps.rs:164-177 | one read on the real buffer: the new state and the emitted sentence are those of `Step` on the substituted byte, and the invariant is kept |
| Compose.Build | src/bin/send_gps.rs:91-106 | the push loops yield a frame of at most 80 bytes that extends what `buf2` held, or stop with an overflow or an out-of-range slice |
| Compose.BuildMeans | src/bin/send_gps.rs:91-106 | composition succeeds iff every slice lies in the sentence and the total fits in 80 bytes; the frame is then the old contents followed by the pieces' bytes, and with all slices in range only an overflow can stop it |
| Compose.BuildOk | src/bin/send_gps.rs:91-106 | push loops that finish never sliced out of range and left exactly the old contents followed by every piece's bytes |
| Compose.BuildInRange | src/bin/send_gps.rs:91-106 | with every slice in range the push loops finish iff the whole frame fits in 80 bytes, and otherwise stop on an overflow |
| Compose.FitsOnlySliceFails | src/bin/send_gps.rs:91-106 | if the pieces fit in the room left, composition can only fail on a slice past the end of the sentence |
| Compose.ComposeInto | src/bin/monitor_gps.rs:180-215 | the push loops on the real `buf2` stop at the first panic, with the same fault as `Build`; on success `buf2` holds exactly the built frame |
| Radio.StartVerdict | src/bin/send_gps.rs:78-84 | a successful `start_transmit` continues; a failed one is fatal under the panicking policy and a printed soft failure under monitor_gps's policy |
| Radio.CheckVerdict | src/bin/send_gps.rs:128-139 | `Ok(true)` continues; `Ok(false)` is always only a printed soft failure (`TX not complete` in send_gps and lora_spi_gps, `x` in monitor_gps); `Err` is fatal exactly under the panicking policy |
| Radio.DelayVerdict | src/bin/monitor_gps.rs:309-315 | a failed pacing delay is fatal, a successful one continues |
| Radio.Then | src/bin/send_gps.rs:128-150 | handling one radio answer never changes the frames sent; after a panic nothing more happens; a fatal verdict becomes the panic, a soft failure is appended to the printed ones, and `Continue` changes nothing |
| Radio.Finish | src/bin/send_gps.rs:128-150 | after the transmits, the cycle panics iff the delay fails or, under the panicking policy, `check_transmit` errs; otherwise it records exactly the soft failure of the check, if any; an earlier panic is kept and no frame is added |
| Rmc.HasRmcTag | src/bin/send_gps.rs:88 | a tagged sentence has at least 6 bytes and starts with `$`; the tag depends only on the first 6 bytes, so cutting a sentence anywhere after them (as the framer does at 80 bytes) keeps or lacks the tag exactly as the whole sentence does |
| Rmc.ExamplesFields | src/bin/monitor_gps.rs:192-193 | the fix report carries the tag, and its bytes [19, 31) and [32, 45) are `4523.74241,N` and `07540.61255,W`; the void report carries the tag but has only 39 bytes |
| MonitorGps.IsRmcFix | src/bin/monitor_gps.rs:194 | a sentence is cut into fields iff it is tagged `$GPRMC` and longer than 45 bytes; both field slices then lie inside it |
| MonitorGps.Recipe | src/bin/monitor_gps.rs:182-214 | the push loops (id, space, then either the two fields around a space or the whole sentence) never slice outside the sentence |
| MonitorGps.Payload | src/bin/monitor_gps.rs:194-215 | the payload of an RMC fix is its two fields and a space, 26 bytes; any other sentence is passed whole |
| MonitorGps.RecipeSpells | src/bin/monitor_gps.rs:180-215 | the push loops never slice out of range and spell `id ++ " " ++ payload` |
| MonitorGps.Frame | src/bin/monitor_gps.rs:180-215 | the frame is `id ++ " " ++ payload` iff that fits in 80 bytes; otherwise the cycle panics on an overflow, never on a slice |
| MonitorGps.FixFrame | src/bin/monitor_gps.rs:194-203 | for an RMC sentence longer than 45 bytes and an id of at most 53 bytes, the frame is `id ++ " " ++ buffer[19..31] ++ " " ++ buffer[32..45]`, of length `|id| + 27` |
| MonitorGps.PassThroughAborts | src/bin/monitor_gps.rs:211-214 | a passed-through sentence panics iff `|id| + 1 + |sentence| > 80`, so an 80-byte sentence panics with any id |
| MonitorGps.FixExampleFramed | src/bin/monitor_gps.rs:193 | the fix report from the comment, fed from any framer state, is emitted exactly as it is |
| MonitorGps.ExampleFrames | src/bin/monitor_gps.rs:191-193 | with an id of at most 40 bytes, the fix report becomes `id 4523.74241,N 07540.61255,W` and the void report is forwarded whole after `id ` |
| MonitorGps.Cycle | src/bin/monitor_gps.rs:180-315 | a cycle sends exactly the composed frame, or nothing if composing overflows; once composed it panics iff the 5000 ms delay fails; a failed start, a failed check and `Ok(false)` are recorded as printed soft failures |
| MonitorGps.Monitor.constructor | src/bin/monitor_gps.rs:152-159 | the loop starts with both buffers empty and the framer idle |
| MonitorGps.Monitor.Next | src/bin/monitor_gps.rs:161-318 | one pass of the loop equals the framer's `Step` on the substituted byte, followed by `Cycle` when a sentence is emitted; the loop halts iff the cycle panicked; `buf2` then holds the sent frame |
| SendGps.RecipeInRange | src/bin/send_gps.rs:98-106 | the slices of the second frame lie in the sentence iff it has at least 45 bytes |
| SendGps.RecipeSpells | src/bin/send_gps.rs:91-106 | on a sentence of at least 45 bytes the push loops spell `id ++ "  " ++ buffer[19..31] ++ "   " ++ buffer[32..45]` |
| SendGps.Recipe | src/bin/send_gps.rs:91-106 | the push loops of the second frame (id, two spaces, latitude, three spaces, longitude) push `|id| + 30` bytes |
| SendGps.FieldsFrame | src/bin/send_gps.rs:88-106 | the second frame exists iff the sentence has at least 45 bytes and `|id| <= 50`, and is then `id ++ "  " ++ lat ++ "   " ++ lon` of length `|id| + 30`; with such an id a shorter sentence panics on a slice |
| SendGps.Cycle | src/bin/send_gps.rs:78-150 | the raw sentence is always handed over first; a second frame follows iff the first transmit succeeded, the tag matches and the second frame can be built; the cycle survives iff both transmits succeed, the sentence has at least 6 bytes, an RMC sentence yields its frame, `check_transmit` does not err and the delay succeeds; `Ok(false)` is then the only possible soft failure; a sentence shorter than 6 bytes panics on its tag slice |
| SendGps.VoidReportPanics | src/bin/send_gps.rs:88-106 | the void report from the comments is framed as it is, sent raw, and then panics on its slices |
| SendGps.FixReportFrames | src/bin/send_gps.rs:78-117 | with every radio call succeeding, the fix report from the comments is sent raw and then as `id  4523.74241,N   07540.61255,W` |
| SendGps.Sender.constructor | src/bin/send_gps.rs:40-51 | the loop starts with both buffers empty and the framer idle |
| SendGps.Sender.Next | src/bin/send_gps.rs:58-153 | one pass of the loop equals the framer's `Step` on the substituted byte, followed by `Cycle` when a sentence is emitted; the loop halts iff the cycle panicked; otherwise `buf2` is empty again |
| LoraSpiGps.RecipeInRange | src/bin/lora_spi_gps.rs:96-104 | the slices of the second frame lie in the sentence iff it has at least 45 bytes |
| LoraSpiGps.RecipeSpells | src/bin/lora_spi_gps.rs:96-104 | on a sentence of at least 45 bytes the push loops spell `buffer[19..31] ++ "   " ++ buffer[32..45]` |
| LoraSpiGps.Recipe | src/bin/lora_spi_gps.rs:96-104 | the push loops of the second frame (latitude, three spaces, longitude) push exactly 28 bytes |
| LoraSpiGps.FieldsFrame | src/bin/lora_spi_gps.rs:93-104 | the second frame exists iff the sentence has at least 45 bytes, and is then `lat ++ "   " ++ lon`, exactly 28 bytes, with no sender id; otherwise the cycle panics on a slice, never on an overflow |
| LoraSpiGps.Cycle | src/bin/lora_spi_gps.rs:83-148 | the raw sentence is always handed over first; a second frame follows iff the first transmit succeeded, the tag matches and the sentence has at least 45 bytes; the cycle survives iff both transmits succeed, the sentence has at least 6 bytes, an RMC sentence has at least 45, `check_transmit` does not err and the delay succeeds; `Ok(false)` is then the only possible soft failure |
| LoraSpiGps.VoidReportPanics | src/bin/lora_spi_gps.rs:93-104 | the void report from the comments is framed as it is, sent raw, and then panics on its slices |
| LoraSpiGps.FixReportFrames | src/bin/lora_spi_gps.rs:83-115 | with every radio call succeeding, the fix report from the comments is sent raw and then as `4523.74241,N   07540.61255,W` |
| LoraSpiGps.Forwarder.constructor | src/bin/lora_spi_gps.rs:45-56 | the loop starts with both buffers empty and the framer idle |
| LoraSpiGps.Forwarder.Next | src/bin/lora_spi_gps.rs:63-151 | one pass of the loop equals the framer's `Step` on the substituted byte, followed by `Cycle` when a sentence is emitted; the loop halts iff the cycle panicked; otherwise `buf2` is empty again |

## Left out

- Peripheral set-up (`setup()`, `gps_usart::setup()`, `lora_spi::setup()`), the radio
  configuration constants, and the radio driver itself. The radio appears only as the values
  its calls return (`TxReplies`), and the serial port only as the result of each read
  (`SerialRead`).
- The blocking of `block!(rx_gps.read())` and all timing. The 5000 ms pacing delay is
  modelled only by its result. The `let _ = lora.try_delay_ms(2)` and `(300)` calls of
  `monitor_gps.rs` discard their results, so they cannot change the outcome and are not modelled.
- Output only: the LED blinks and the semihosting prints (`hprint!`, `hprintln!`). The
  printed soft failures are recorded in `CycleResult.warnings`; the text is not. The
  prints need semihosting, that is a debugger host attached
  (`src/bin/monitor_gps.rs:233-235`); the model treats printing as always succeeding.
- The OLED `display` function, the I2C bus and the ADC reads, range toggling and scaling in
  `monitor_gps.rs` (lines 45-83, 97-147, 254-305). They do not influence what is framed or
  sent. An ADC read happens between `check_transmit` and the buffer clear, and the
  `unwrap` calls on `set_full_scale_range`, on the `write!` of each display line inside
  `display` (lines 63-71) and on `disp.flush()` (line 305) can panic; the model does not
  include those panics. The results of the drawing calls are discarded.
- `option_env!("SENDER_ID").expect("")`: the id is a constructor parameter. A missing id
  (a panic at start-up) is not modelled.
- What happens after a panic: the process halts or resets. Each `Next` method requires the
  loop not to have halted, and no restart is modelled.
- The other binaries (`lora_spi_send.rs`, `send_spi.rs`, `lora_spi_receive.rs`,
  `receive_spi.rs`), `src/lib.rs`, and the per-MCU set-up files `src/gps_usart.rs` and
  `src/lora_spi_gps_usart.rs`. They hold no framing or composition logic.
- Integer widths: every length in the loop is at most 80, so `usize` arithmetic cannot
  wrap and plain integers are exact.
