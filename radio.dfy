/** The transmit side of a forwarding cycle. The radio driver is not modelled:
    only the values its calls return in one cycle are, and what the loop does
    with each of them. */
module Radio {
  import opened Common

  /** The result of `lora.start_transmit(..)` or `lora.try_delay_ms(5000)`. */
  datatype Status = Success | Failure

  /** The result of `lora.check_transmit()`: `Ok(true)`, `Ok(false)`, `Err`. */
  datatype Poll = Complete | Incomplete | PollError

  /** What the radio answers during one cycle: `first` and `second` answer the
      cycle's first and second `start_transmit` (only send_gps and
      lora_spi_gps make a second), `check` the one `check_transmit`, `delay`
      the pacing `try_delay_ms(5000)`. */
  datatype TxReplies = TxReplies(first: Status, second: Status, check: Poll, delay: Status)

  /** What the loop makes of one radio result: carry on, print and carry on,
      or panic ("should reset in release mode"). */
  datatype Verdict = Continue | SoftFail(fault: Fault) | Fatal(fault: Fault)

  /** monitor_gps only prints on radio errors (`Lenient`); send_gps and
      lora_spi_gps panic on them (`Strict`). */
  datatype Policy = Lenient | Strict

  /** The handling of a `start_transmit` result. */
  function StartVerdict(p: Policy, st: Status): (v: Verdict)
    ensures st == Success <==> v == Continue
    ensures v.Fatal? <==> p == Strict && st == Failure
    ensures v != Continue ==> v.fault == StartTransmitFailed
  {
    match st
    case Success => Continue
    case Failure => if p == Strict then Fatal(StartTransmitFailed) else SoftFail(StartTransmitFailed)
  }

  /** The handling of a `check_transmit` result: `Ok(false)` is only ever
      printed, never fatal. */
  function CheckVerdict(p: Policy, poll: Poll): (v: Verdict)
    ensures poll == Complete <==> v == Continue
    ensures poll == Incomplete <==> v == SoftFail(TxNotComplete)
    ensures v.Fatal? <==> p == Strict && poll == PollError
    ensures poll == PollError ==> v.fault == CheckTransmitFailed
  {
    match poll
    case Complete => Continue
    case Incomplete => SoftFail(TxNotComplete)
    case PollError => if p == Strict then Fatal(CheckTransmitFailed) else SoftFail(CheckTransmitFailed)
  }

  /** The handling of the pacing delay's result: an error panics in all three
      binaries. */
  function DelayVerdict(st: Status): (v: Verdict)
    ensures st == Success <==> v == Continue
    ensures st == Failure <==> v == Fatal(DelayFailed)
  {
    match st
    case Success => Continue
    case Failure => Fatal(DelayFailed)
  }

  /** What one forwarding cycle did: the frames handed to `start_transmit`,
      in order, the soft failures it printed, and the panic that ended it,
      if any. */
  datatype CycleResult = CycleResult(frames: seq<seq<byte>>, warnings: seq<Fault>, fatal: Option<Fault>)

  /** Applying the verdict of the next radio call to a cycle so far; once a
      cycle has panicked nothing after it happens. */
  function Then(c: CycleResult, v: Verdict): (r: CycleResult)
    ensures r.frames == c.frames
    ensures c.fatal.Some? ==> r == c
    ensures c.fatal.None? && v.Fatal? ==> r.fatal == Some(v.fault) && r.warnings == c.warnings
    ensures c.fatal.None? && v.SoftFail? ==> r.fatal.None? && r.warnings == c.warnings + [v.fault]
    ensures v == Continue ==> r == c
  {
    if c.fatal.Some? then c
    else match v
      case Continue => c
      case SoftFail(f) => c.(warnings := c.warnings + [f])
      case Fatal(f) => c.(fatal := Some(f))
  }

  /** The end of every cycle: poll `check_transmit`, then the pacing delay.
      Under `Lenient` only the delay can panic; under `Strict` any radio
      error panics. `Ok(false)` is a soft failure under both. */
  function Finish(p: Policy, c: CycleResult, tx: TxReplies): (r: CycleResult)
    ensures r.frames == c.frames
    ensures c.fatal.Some? ==> r == c
    ensures c.fatal.None? ==>
              (r.fatal.None? <==> (p == Strict ==> tx.check != PollError) && tx.delay == Success)
    ensures c.fatal.None? && r.fatal.None? ==>
              r.warnings == c.warnings + match tx.check
                case Complete => []
                case Incomplete => [TxNotComplete]
                case PollError => [CheckTransmitFailed]
  {
    Then(Then(c, CheckVerdict(p, tx.check)), DelayVerdict(tx.delay))
  }
}
