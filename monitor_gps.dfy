/** src/bin/monitor_gps.rs: forwards each framed sentence as one frame
    `id ++ " " ++ payload`, where the payload of a long enough RMC sentence is
    its latitude and longitude fields and of any other sentence the sentence
    itself. Radio errors are only printed; only the pacing delay can panic. */
module MonitorGps {
  import opened Common
  import opened HeaplessVec
  import opened Framing
  import opened Compose
  import opened Radio
  import opened Rmc

  /** `b'x'` replaces a failed serial read. */
  const ErrorByte: byte := 120

  /** The guard of the field extraction: longer than 45 bytes and tagged
      `$GPRMC`. A shorter RMC sentence (a void fix) is passed through. The
      guard is strict: a tagged sentence that ends exactly at the end of the
      longitude field is not cut, although both fields would fit. */
  predicate IsRmcFix(s: seq<byte>): (r: bool)
    ensures r <==> HasRmcTag(s) && LonEnd < |s|
    ensures r ==> InRange([Slice(LatStart, LatEnd), Slice(LonStart, LonEnd)], s)
  {
    |s| > 45 && HasRmcTag(s)
  }

  /** The payload after id and space: the two coordinate fields separated by
      a space, or the whole sentence. */
  function Payload(s: seq<byte>): (p: seq<byte>)
    ensures IsRmcFix(s) ==> |p| == 26
    ensures !IsRmcFix(s) ==> p == s
  {
    if IsRmcFix(s) then s[LatStart..LatEnd] + [Space] + s[LonStart..LonEnd] else s
  }

  /** The push loops of lines 182-214, after `buf2.clear()`. Thanks to the
      guard, no slice reaches past the end of the sentence. */
  function Recipe(id: seq<byte>, s: seq<byte>): (r: seq<Piece>)
    ensures InRange(r, s)
  {
    var head := [Lit(id), Lit([Space])];
    var tail := if IsRmcFix(s) then [Slice(LatStart, LatEnd), Lit([Space]), Slice(LonStart, LonEnd)]
                else [Slice(0, |s|)];
    HeadSpells(id, s);
    if IsRmcFix(s) then
      FixTailSpells(s);
      InRangeAppend(head, tail, s);
      head + tail
    else
      ExpandOne(Slice(0, |s|), s);
      InRangeAppend(head, tail, s);
      head + tail
  }

  /** The fixed head of every recipe, `id ++ " "`. */
  lemma HeadSpells(id: seq<byte>, s: seq<byte>)
    ensures InRange([Lit(id), Lit([Space])], s)
    ensures Expand([Lit(id), Lit([Space])], s) == id + [Space]
  {
    ExpandOne(Lit(id), s);
    ExpandOne(Lit([Space]), s);
    ExpandAppend([Lit(id)], [Lit([Space])], s);
    assert [Lit(id), Lit([Space])] == [Lit(id)] + [Lit([Space])];
  }

  /** The tail of a fix report's recipe spells its two fields around a
      space. */
  lemma FixTailSpells(s: seq<byte>)
    requires IsRmcFix(s)
    ensures InRange([Slice(LatStart, LatEnd), Lit([Space]), Slice(LonStart, LonEnd)], s)
    ensures Expand([Slice(LatStart, LatEnd), Lit([Space]), Slice(LonStart, LonEnd)], s) == Payload(s)
  {
    var lat, space, lon := [Slice(LatStart, LatEnd)], [Lit([Space])], [Slice(LonStart, LonEnd)];
    ExpandOne(Slice(LatStart, LatEnd), s);
    ExpandOne(Lit([Space]), s);
    ExpandOne(Slice(LonStart, LonEnd), s);
    ExpandAppend(space, lon, s);
    ExpandAppend(lat, space + lon, s);
    assert [Slice(LatStart, LatEnd), Lit([Space]), Slice(LonStart, LonEnd)] == lat + (space + lon);
  }

  /** Every slice of the recipe is inside the sentence, and its pieces
      spell `id ++ " " ++ payload`. */
  lemma RecipeSpells(id: seq<byte>, s: seq<byte>)
    ensures InRange(Recipe(id, s), s)
    ensures Expand(Recipe(id, s), s) == id + [Space] + Payload(s)
  {
    var head := [Lit(id), Lit([Space])];
    HeadSpells(id, s);
    if IsRmcFix(s) {
      var tail := [Slice(LatStart, LatEnd), Lit([Space]), Slice(LonStart, LonEnd)];
      FixTailSpells(s);
      ExpandAppend(head, tail, s);
      assert Recipe(id, s) == head + tail;
    } else {
      ExpandOne(Slice(0, |s|), s);
      ExpandAppend(head, [Slice(0, |s|)], s);
      assert Recipe(id, s) == head + [Slice(0, |s|)];
    }
  }

  /** The outgoing frame composed from sentence `s`: `id ++ " " ++ payload`
      whenever that fits in the 80-byte `buf2`; otherwise an `unwrap` panics.
      The slices never go out of range, thanks to the length guard. */
  function Frame(id: seq<byte>, s: seq<byte>): (r: Result<seq<byte>>)
    ensures r.Ok? <==> |id| + 1 + |Payload(s)| <= Capacity
    ensures r.Ok? ==> r.value == id + [Space] + Payload(s)
    ensures r.Err? ==> r.fault == FrameOverflow
  {
    var empty: seq<byte> := [];
    RecipeSpells(id, s);
    BuildMeans(Recipe(id, s), s, empty);
    assert empty + Expand(Recipe(id, s), s) == Expand(Recipe(id, s), s);
    Build(Recipe(id, s), s, empty)
  }

  /** A fix report is forwarded as `id ++ " " ++ latitude ++ " " ++
      longitude`, `|id| + 27` bytes, whenever the id has at most 53 bytes. */
  lemma FixFrame(id: seq<byte>, s: seq<byte>)
    requires IsRmcFix(s) && |id| <= 53
    ensures Frame(id, s).Ok?
    ensures Frame(id, s).value == id + [Space] + s[LatStart..LatEnd] + [Space] + s[LonStart..LonEnd]
    ensures |Frame(id, s).value| == |id| + 27
  {
  }

  /** A sentence passed through aborts the cycle exactly when `id`, the space
      and the sentence exceed 80 bytes; in particular a sentence cut at 80
      bytes always aborts, whatever the id. */
  lemma PassThroughAborts(id: seq<byte>, s: seq<byte>)
    requires !IsRmcFix(s)
    ensures Frame(id, s).Err? <==> |id| + 1 + |s| > Capacity
    ensures |s| == Capacity ==> Frame(id, s) == Err(FrameOverflow)
  {
  }

  /** The source's fix report is framed as it is from the serial line,
      whatever was being captured before. */
  lemma FixExampleFramed(st: FramerState)
    ensures Run(st, FixExample).1 == [FixExample]
  {
    assert Line(FixExample);
    LineRoundTrip(st, FixExample);
  }

  /** The source's two example sentences: the fix is reduced to its
      coordinates, the void report is forwarded whole. */
  lemma ExampleFrames(id: seq<byte>)
    requires |id| <= 40
    ensures Frame(id, FixExample) == Ok(id + [Space] + FixLatitude + [Space] + FixLongitude)
    ensures Frame(id, VoidExample) == Ok(id + [Space] + VoidExample)
  {
    ExamplesFields();
    FixFrame(id, FixExample);
  }

  /** One forwarding cycle for sentence `s`: compose, `start_transmit`,
      `check_transmit`, the 5000 ms delay. */
  function Cycle(id: seq<byte>, s: seq<byte>, tx: TxReplies): (r: CycleResult)
    ensures Frame(id, s).Err? ==> r == CycleResult([], [], Some(FrameOverflow))
    ensures Frame(id, s).Ok? ==> r.frames == [Frame(id, s).value]
    ensures Frame(id, s).Ok? ==> (r.fatal.None? <==> tx.delay == Success)
    ensures r.fatal.Some? ==> r.fatal == Some(FrameOverflow) || r.fatal == Some(DelayFailed)
    ensures Frame(id, s).Ok? ==>
              r.warnings == (if tx.first == Failure then [StartTransmitFailed] else [])
                            + match tx.check
                              case Complete => []
                              case Incomplete => [TxNotComplete]
                              case PollError => [CheckTransmitFailed]
  {
    match Frame(id, s)
    case Err(f) => CycleResult([], [], Some(f))
    case Ok(frame) =>
      var started := Then(CycleResult([frame], [], None), StartVerdict(Lenient, tx.first));
      Finish(Lenient, started, tx)
  }

  /** The loop state of `main`: the framer (`buffer`, `good`), `buf2`, and
      the sender id; `halted` records a panic, after which the loop is gone. */
  class Monitor {
    const id: seq<byte>
    const framer: Framer
    const buf2: Vec80
    var halted: bool

    ghost predicate Valid()
      reads this, framer, framer.buffer, framer.buffer.data, buf2, buf2.data
    {
      && framer.Valid() && buf2.Valid()
      && framer.buffer != buf2 && framer.buffer.data != buf2.data
      && framer.errorByte == ErrorByte
    }

    /** The set-up before the loop: both buffers cleared, not capturing. */
    constructor (id: seq<byte>)
      ensures Valid() && !halted && this.id == id
      ensures framer.State() == Idle && buf2.Contents() == []
    {
      this.id := id;
      framer := new Framer(ErrorByte);
      buf2 := new Vec80();
      halted := false;
    }

    /** One pass of `loop`: read a byte and, if it completes a sentence, run
        one forwarding cycle. */
    method Next(read: SerialRead, tx: TxReplies) returns (r: Option<CycleResult>)
      requires Valid() && !halted
      modifies this, framer, framer.buffer, framer.buffer.data, buf2, buf2.data
      ensures Valid()
      ensures framer.State() == Framing.Step(old(framer.State()), ByteOf(read, ErrorByte)).0
      ensures var e := Framing.Step(old(framer.State()), ByteOf(read, ErrorByte)).1;
              r == if e.Some? then Some(Cycle(id, e.value, tx)) else None
      ensures halted <==> r.Some? && r.value.fatal.Some?
      ensures r.None? ==> buf2.Contents() == old(buf2.Contents())
      ensures r.Some? && r.value.fatal.None? ==> buf2.Contents() == r.value.frames[0]
    {
      var emitted := framer.Feed(read);
      if emitted.None? {
        return None;
      }
      var s := emitted.value;
      buf2.Clear();
      var fault := ComposeInto(buf2, Recipe(id, s), s);
      var c: CycleResult;
      if fault.Some? {
        c := CycleResult([], [], fault);
      } else {
        c := CycleResult([buf2.Contents()], [], None);
        c := Then(c, StartVerdict(Lenient, tx.first));
        c := Then(c, CheckVerdict(Lenient, tx.check));
        c := Then(c, DelayVerdict(tx.delay));
      }
      halted := c.fatal.Some?;
      r := Some(c);
    }
  }
}
