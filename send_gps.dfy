/** src/bin/send_gps.rs: transmits every framed sentence verbatim and, when
    it is tagged `$GPRMC`, a second frame `id ++ "  " ++ latitude ++ "   " ++
    longitude` cut at fixed offsets with no length guard. Every radio error
    panics; `check_transmit` answering `Ok(false)` is only printed. */
module SendGps {
  import opened Common
  import opened HeaplessVec
  import opened Framing
  import opened Compose
  import opened Radio
  import opened Rmc

  /** The byte 9 replaces a failed serial read. */
  const ErrorByte: byte := 9

  /** The push loops of lines 98-106: latitude, three spaces, longitude. */
  const Coordinates: seq<Piece> := [Slice(LatStart, LatEnd), Lit(Spaces(3)), Slice(LonStart, LonEnd)]

  /** The push loops of lines 91-106 (into a `buf2` that is empty). */
  function Recipe(id: seq<byte>): (r: seq<Piece>)
    ensures Size(r) == |id| + 30
  {
    var head, c := [Lit(id), Lit(Spaces(2))], Coordinates;
    SizeAppend(head, c);
    assert head[1..] == [Lit(Spaces(2))];
    assert Size([Lit(Spaces(2))]) == 2 by { assert [Lit(Spaces(2))][1..] == []; }
    assert Size(head) == |id| + Size(head[1..]);
    assert c[2..][1..] == [];
    assert Size(c[2..]) == 13 + Size(c[2..][1..]);
    assert Size(c[1..]) == 3 + Size(c[2..]) by { assert c[1..][1..] == c[2..]; }
    assert Size(c) == 12 + Size(c[1..]);
    head + c
  }

  /** The recipe's slices are in range exactly when the sentence reaches the
      end of the longitude field. */
  lemma RecipeInRange(id: seq<byte>, s: seq<byte>)
    ensures InRange(Recipe(id), s) <==> |s| >= LonEnd
  {
    var r := Recipe(id);
    if InRange(r, s) {
      assert r[4].Slice? && r[4].hi == LonEnd;
    }
    if |s| >= LonEnd {
      forall i | 0 <= i < |r| && r[i].Slice?
        ensures r[i].lo <= r[i].hi <= |s|
      {
        assert i == 2 || i == 4;
      }
    }
  }

  /** The last three pieces spell `latitude ++ "   " ++ longitude`. */
  lemma CoordinatesSpell(s: seq<byte>)
    requires |s| >= LonEnd
    ensures InRange(Coordinates, s)
    ensures Expand(Coordinates, s) == s[LatStart..LatEnd] + Spaces(3) + s[LonStart..LonEnd]
  {
    var c, d, e := [Coordinates[0]], [Coordinates[1]], [Coordinates[2]];
    ExpandOne(Coordinates[0], s);
    ExpandOne(Coordinates[1], s);
    ExpandOne(Coordinates[2], s);
    ExpandAppend(d, e, s);
    ExpandAppend(c, d + e, s);
    assert Coordinates == c + (d + e);
    AppendAssoc(s[LatStart..LatEnd], Spaces(3), s[LonStart..LonEnd]);
  }

  /** The first two pieces spell the id and two spaces. */
  lemma HeadSpells(id: seq<byte>, s: seq<byte>)
    ensures InRange([Lit(id), Lit(Spaces(2))], s)
    ensures Expand([Lit(id), Lit(Spaces(2))], s) == id + Spaces(2)
  {
    ExpandOne(Lit(id), s);
    ExpandOne(Lit(Spaces(2)), s);
    ExpandAppend([Lit(id)], [Lit(Spaces(2))], s);
    assert [Lit(id), Lit(Spaces(2))] == [Lit(id)] + [Lit(Spaces(2))];
  }

  /** On a sentence that reaches byte 45 the recipe spells the coordinates
      frame. */
  lemma RecipeSpells(id: seq<byte>, s: seq<byte>)
    requires |s| >= LonEnd
    ensures InRange(Recipe(id), s)
    ensures Expand(Recipe(id), s) == id + Spaces(2) + s[LatStart..LatEnd] + Spaces(3) + s[LonStart..LonEnd]
  {
    var sp2, sp3 := Spaces(2), Spaces(3);
    var lat, lon := s[LatStart..LatEnd], s[LonStart..LonEnd];
    HeadSpells(id, s);
    CoordinatesSpell(s);
    ExpandAppend([Lit(id), Lit(sp2)], Coordinates, s);
    AppendAssoc(id + sp2, lat + sp3, lon);
    AppendAssoc(id + sp2, lat, sp3);
  }

  /** The second frame, built in `buf2`: it exists exactly when the sentence
      reaches byte 45 and the id leaves room for the 30 other bytes; it is
      then `id ++ "  " ++ latitude ++ "   " ++ longitude`. With an id of at
      most 50 bytes, a shorter sentence panics on its slices. */
  function FieldsFrame(id: seq<byte>, s: seq<byte>): (r: Result<seq<byte>>)
    ensures r.Ok? <==> |s| >= LonEnd && |id| <= 50
    ensures r.Ok? ==> r.value == id + Spaces(2) + s[LatStart..LatEnd] + Spaces(3) + s[LonStart..LonEnd]
    ensures r.Ok? ==> |r.value| == |id| + 30
    ensures r.Err? && |id| <= 50 ==> r.fault == SliceOutOfRange
  {
    var empty: seq<byte> := [];
    RecipeInRange(id, s);
    BuildMeans(Recipe(id), s, empty);
    FitsOnlySliceFails(Recipe(id), s, empty);
    if |s| >= LonEnd then
      RecipeSpells(id, s);
      assert empty + Expand(Recipe(id), s) == Expand(Recipe(id), s);
      Build(Recipe(id), s, empty)
    else
      Build(Recipe(id), s, empty)
  }

  /** One forwarding cycle for sentence `s` (lines 78-150): the raw sentence
      first, then the coordinates frame of an RMC sentence, then
      `check_transmit` and the 5000 ms delay; any radio error panics. */
  function Cycle(id: seq<byte>, s: seq<byte>, tx: TxReplies): (r: CycleResult)
    ensures 1 <= |r.frames| <= 2 && r.frames[0] == s
    ensures |r.frames| == 2 <==> tx.first == Success && HasRmcTag(s) && FieldsFrame(id, s).Ok?
    ensures |r.frames| == 2 ==> r.frames[1] == FieldsFrame(id, s).value
    ensures r.fatal.None? <==>
              && tx.first == Success && |s| >= 6
              && (HasRmcTag(s) ==> FieldsFrame(id, s).Ok? && tx.second == Success)
              && tx.check != PollError && tx.delay == Success
    ensures r.fatal.None? ==> r.warnings == if tx.check == Incomplete then [TxNotComplete] else []
    ensures tx.first == Success && |s| < 6 ==> r.fatal == Some(SliceOutOfRange)
  {
    var raw := Then(CycleResult([s], [], None), StartVerdict(Strict, tx.first));
    if raw.fatal.Some? then raw
    else if |s| < 6 then raw.(fatal := Some(SliceOutOfRange))
    else if !HasRmcTag(s) then
      Finish(Strict, raw, tx)
    else
      match FieldsFrame(id, s)
      case Err(f) => raw.(fatal := Some(f))
      case Ok(frame) =>
        var both := Then(raw.(frames := [s, frame]), StartVerdict(Strict, tx.second));
        if both.fatal.Some? then both
        else
          Finish(Strict, both, tx)
  }

  /** The void report of the source's comment is framed as it is and then
      panics the loop on its slices, although the raw sentence went out. */
  lemma VoidReportPanics(id: seq<byte>, st: FramerState, tx: TxReplies)
    requires |id| <= 50 && tx.first == Success
    ensures Run(st, VoidExample).1 == [VoidExample]
    ensures Cycle(id, VoidExample, tx).frames == [VoidExample]
    ensures Cycle(id, VoidExample, tx).fatal == Some(SliceOutOfRange)
  {
    ExamplesFields();
    assert Line(VoidExample);
    LineRoundTrip(st, VoidExample);
  }

  /** The fix report of the source's comment is sent raw and then as its
      coordinates. */
  lemma FixReportFrames(id: seq<byte>, tx: TxReplies)
    requires |id| <= 50 && tx == TxReplies(Success, Success, Complete, Success)
    ensures Cycle(id, FixExample, tx) ==
              CycleResult([FixExample, id + Spaces(2) + FixLatitude + Spaces(3) + FixLongitude], [], None)
  {
    ExamplesFields();
  }

  /** The loop state of `main`: the framer (`buffer`, `good`), `buf2`, and
      the sender id; `halted` records a panic. Between cycles `buf2` is
      empty: it is cleared at start-up and at the end of every cycle. */
  class Sender {
    const id: seq<byte>
    const framer: Framer
    const buf2: Vec80
    var halted: bool

    ghost predicate Valid()
      reads this, framer, framer.buffer, framer.buffer.data, buf2, buf2.data
    {
      && framer.Valid() && buf2.Valid()
      && framer.buffer != buf2 && framer.buffer.data != buf2.data
      && framer.errorByte == ErrorByte
      && (!halted ==> buf2.Contents() == [])
    }

    /** The set-up before the loop: both buffers cleared, not capturing. */
    constructor (id: seq<byte>)
      ensures Valid() && !halted && this.id == id && framer.State() == Idle
    {
      this.id := id;
      framer := new Framer(ErrorByte);
      buf2 := new Vec80();
      halted := false;
    }

    /** One pass of `loop`: read a byte and, if it completes a sentence, run
        one forwarding cycle. */
    method Next(read: SerialRead, tx: TxReplies) returns (r: Option<CycleResult>)
      requires Valid() && !halted
      modifies this, framer, framer.buffer, framer.buffer.data, buf2, buf2.data
      ensures Valid()
      ensures framer.State() == Framing.Step(old(framer.State()), ByteOf(read, ErrorByte)).0
      ensures var e := Framing.Step(old(framer.State()), ByteOf(read, ErrorByte)).1;
              r == if e.Some? then Some(Cycle(id, e.value, tx)) else None
      ensures halted <==> r.Some? && r.value.fatal.Some?
    {
      var emitted := framer.Feed(read);
      if emitted.None? {
        return None;
      }
      var s := emitted.value;
      var c := Then(CycleResult([s], [], None), StartVerdict(Strict, tx.first));
      if c.fatal.Some? {
        halted := true;
        return Some(c);
      }
      if |s| < 6 {
        halted := true;
        return Some(c.(fatal := Some(SliceOutOfRange)));
      }
      if HasRmcTag(s) {
        var fault := ComposeInto(buf2, Recipe(id), s);
        if fault.Some? {
          halted := true;
          return Some(c.(fatal := fault));
        }
        c := Then(c.(frames := [s, buf2.Contents()]), StartVerdict(Strict, tx.second));
        if c.fatal.Some? {
          halted := true;
          return Some(c);
        }
      }
      c := Then(c, CheckVerdict(Strict, tx.check));
      if c.fatal.Some? {
        halted := true;
        return Some(c);
      }
      buf2.Clear();
      c := Then(c, DelayVerdict(tx.delay));
      halted := c.fatal.Some?;
      r := Some(c);
    }
  }
}
