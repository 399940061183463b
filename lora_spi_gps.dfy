/** src/bin/lora_spi_gps.rs: transmits every framed sentence verbatim and,
    when it is tagged `$GPRMC`, a second frame `latitude ++ "   " ++
    longitude` of 28 bytes, cut at fixed offsets with no length guard and no
    sender id. Every radio error panics; `check_transmit` answering
    `Ok(false)` is only printed. */
module LoraSpiGps {
  import opened Common
  import opened HeaplessVec
  import opened Framing
  import opened Compose
  import opened Radio
  import opened Rmc

  /** The byte 9 replaces a failed serial read. */
  const ErrorByte: byte := 9

  /** The push loops of lines 96-104 (into a `buf2` that is empty). */
  function Recipe(): (r: seq<Piece>)
    ensures Size(r) == 28
  {
    var pieces := [Slice(LatStart, LatEnd), Lit(Spaces(3)), Slice(LonStart, LonEnd)];
    assert pieces[2..][1..] == [];
    assert Size(pieces[2..]) == 13 + Size(pieces[2..][1..]);
    assert Size(pieces[1..]) == 3 + Size(pieces[2..]) by { assert pieces[1..][1..] == pieces[2..]; }
    assert Size(pieces) == 12 + Size(pieces[1..]);
    pieces
  }

  /** The recipe's slices are in range exactly when the sentence reaches the
      end of the longitude field. */
  lemma RecipeInRange(s: seq<byte>)
    ensures InRange(Recipe(), s) <==> |s| >= LonEnd
  {
    if InRange(Recipe(), s) {
      assert Recipe()[2].Slice? && Recipe()[2].hi == LonEnd;
    }
  }

  /** On a sentence that reaches byte 45 the recipe spells the coordinates
      frame. */
  lemma RecipeSpells(s: seq<byte>)
    requires |s| >= LonEnd
    ensures InRange(Recipe(), s)
    ensures Expand(Recipe(), s) == s[LatStart..LatEnd] + Spaces(3) + s[LonStart..LonEnd]
  {
    var a, b, c := [Recipe()[0]], [Recipe()[1]], [Recipe()[2]];
    ExpandOne(Recipe()[0], s);
    ExpandOne(Recipe()[1], s);
    ExpandOne(Recipe()[2], s);
    ExpandAppend(b, c, s);
    ExpandAppend(a, b + c, s);
    assert Recipe() == a + (b + c);
    AppendAssoc(s[LatStart..LatEnd], Spaces(3), s[LonStart..LonEnd]);
  }

  /** The second frame, built in `buf2`: it exists exactly when the sentence
      reaches byte 45, and it is then `latitude ++ "   " ++ longitude`,
      exactly 28 bytes, which always fits; a shorter sentence panics on its
      slices. */
  function FieldsFrame(s: seq<byte>): (r: Result<seq<byte>>)
    ensures r.Ok? <==> |s| >= LonEnd
    ensures r.Ok? ==> r.value == s[LatStart..LatEnd] + Spaces(3) + s[LonStart..LonEnd]
    ensures r.Ok? ==> |r.value| == 28
    ensures r.Err? ==> r.fault == SliceOutOfRange
  {
    var empty: seq<byte> := [];
    RecipeInRange(s);
    BuildMeans(Recipe(), s, empty);
    FitsOnlySliceFails(Recipe(), s, empty);
    if |s| >= LonEnd then
      RecipeSpells(s);
      assert empty + Expand(Recipe(), s) == Expand(Recipe(), s);
      Build(Recipe(), s, empty)
    else
      Build(Recipe(), s, empty)
  }

  /** One forwarding cycle for sentence `s` (lines 83-148): the raw sentence
      first, then the coordinates frame of an RMC sentence, then
      `check_transmit` and the 5000 ms delay; any radio error panics. */
  function Cycle(s: seq<byte>, tx: TxReplies): (r: CycleResult)
    ensures 1 <= |r.frames| <= 2 && r.frames[0] == s
    ensures |r.frames| == 2 <==> tx.first == Success && HasRmcTag(s) && FieldsFrame(s).Ok?
    ensures |r.frames| == 2 ==> r.frames[1] == FieldsFrame(s).value
    ensures r.fatal.None? <==>
              && tx.first == Success && |s| >= 6
              && (HasRmcTag(s) ==> FieldsFrame(s).Ok? && tx.second == Success)
              && tx.check != PollError && tx.delay == Success
    ensures r.fatal.None? ==> r.warnings == if tx.check == Incomplete then [TxNotComplete] else []
    ensures tx.first == Success && |s| < 6 ==> r.fatal == Some(SliceOutOfRange)
  {
    var raw := Then(CycleResult([s], [], None), StartVerdict(Strict, tx.first));
    if raw.fatal.Some? then raw
    else if |s| < 6 then raw.(fatal := Some(SliceOutOfRange))
    else if !HasRmcTag(s) then
      Finish(Strict, raw, tx)
    else
      match FieldsFrame(s)
      case Err(f) => raw.(fatal := Some(f))
      case Ok(frame) =>
        var both := Then(raw.(frames := [s, frame]), StartVerdict(Strict, tx.second));
        if both.fatal.Some? then both
        else
          Finish(Strict, both, tx)
  }

  /** The void report of the source's comment is framed as it is and then
      panics the loop on its slices, although the raw sentence went out. */
  lemma VoidReportPanics(st: FramerState, tx: TxReplies)
    requires tx.first == Success
    ensures Run(st, VoidExample).1 == [VoidExample]
    ensures Cycle(VoidExample, tx).frames == [VoidExample]
    ensures Cycle(VoidExample, tx).fatal == Some(SliceOutOfRange)
  {
    ExamplesFields();
    assert Line(VoidExample);
    LineRoundTrip(st, VoidExample);
  }

  /** The fix report of the source's comment is sent raw and then as its
      coordinates. */
  lemma FixReportFrames(tx: TxReplies)
    requires tx == TxReplies(Success, Success, Complete, Success)
    ensures Cycle(FixExample, tx) ==
              CycleResult([FixExample, FixLatitude + Spaces(3) + FixLongitude], [], None)
  {
    ExamplesFields();
  }

  /** The loop state of `main`: the framer (`buffer`, `good`) and `buf2`;
      `halted` records a panic. Between cycles `buf2` is
      empty: it is cleared at start-up and at the end of every cycle. */
  class Forwarder {
    const framer: Framer
    const buf2: Vec80
    var halted: bool

    ghost predicate Valid()
      reads this, framer, framer.buffer, framer.buffer.data, buf2, buf2.data
    {
      && framer.Valid() && buf2.Valid()
      && framer.buffer != buf2 && framer.buffer.data != buf2.data
      && framer.errorByte == ErrorByte
      && (!halted ==> buf2.Contents() == [])
    }

    /** The set-up before the loop: both buffers cleared, not capturing. */
    constructor ()
      ensures Valid() && !halted && framer.State() == Idle
    {
      framer := new Framer(ErrorByte);
      buf2 := new Vec80();
      halted := false;
    }

    /** One pass of `loop`: read a byte and, if it completes a sentence, run
        one forwarding cycle. */
    method Next(read: SerialRead, tx: TxReplies) returns (r: Option<CycleResult>)
      requires Valid() && !halted
      modifies this, framer, framer.buffer, framer.buffer.data, buf2, buf2.data
      ensures Valid()
      ensures framer.State() == Framing.Step(old(framer.State()), ByteOf(read, ErrorByte)).0
      ensures var e := Framing.Step(old(framer.State()), ByteOf(read, ErrorByte)).1;
              r == if e.Some? then Some(Cycle(e.value, tx)) else None
      ensures halted <==> r.Some? && r.value.fatal.Some?
    {
      var emitted := framer.Feed(read);
      if emitted.None? {
        return None;
      }
      var s := emitted.value;
      var c := Then(CycleResult([s], [], None), StartVerdict(Strict, tx.first));
      if c.fatal.Some? {
        halted := true;
        return Some(c);
      }
      if |s| < 6 {
        halted := true;
        return Some(c.(fatal := Some(SliceOutOfRange)));
      }
      if HasRmcTag(s) {
        var fault := ComposeInto(buf2, Recipe(), s);
        if fault.Some? {
          halted := true;
          return Some(c.(fatal := fault));
        }
        c := Then(c.(frames := [s, buf2.Contents()]), StartVerdict(Strict, tx.second));
        if c.fatal.Some? {
          halted := true;
          return Some(c);
        }
      }
      c := Then(c, CheckVerdict(Strict, tx.check));
      if c.fatal.Some? {
        halted := true;
        return Some(c);
      }
      buf2.Clear();
      c := Then(c, DelayVerdict(tx.delay));
      halted := c.fatal.Some?;
      r := Some(c);
    }
  }
}
