/** The sentence framer shared by the three GPS binaries: one serial byte at a
    time goes into an 80-byte buffer; `$` starts a capture, and the captured
    bytes are emitted when the push fails or the byte is `\r`. */
module Framing {
  import opened Common
  import opened HeaplessVec

  /** One result of `block!(rx_gps.read())`. */
  datatype SerialRead = Received(b: byte) | ReadError

  /** The byte the loop acts on: a failed read is replaced by the binary's
      error byte. */
  function ByteOf(read: SerialRead, errorByte: byte): (b: byte)
    ensures read.ReadError? ==> b == errorByte
    ensures read.Received? ==> b == read.b
  {
    match read
    case Received(x) => x
    case ReadError => errorByte
  }

  /** The framer's loop state: `buffer` and the flag `good` ("true while
      capturing a line"). */
  datatype FramerState = FramerState(buffer: seq<byte>, capturing: bool)

  /** The state at start-up and after every emitted sentence. */
  const Idle := FramerState([], false)

  /** What holds between two bytes: the buffer fits, is empty unless
      capturing, and while capturing starts with the one `$` it holds and
      holds no `\r`. */
  ghost predicate Inv(s: FramerState) {
    && |s.buffer| <= Capacity
    && (!s.capturing ==> s.buffer == [])
    && (s.capturing ==> |s.buffer| >= 1 && s.buffer[0] == Dollar)
    && (forall i :: 1 <= i < |s.buffer| ==> s.buffer[i] != Dollar)
    && (forall i :: 0 <= i < |s.buffer| ==> s.buffer[i] != CR)
  }

  /** The shape of every emitted sentence: it starts with its only `$`, holds
      at most 80 bytes, and a `\r` can only be its last byte; it ends with
      `\r` unless it was cut at 80 bytes. */
  ghost predicate WellFramed(x: seq<byte>) {
    && 1 <= |x| <= Capacity
    && x[0] == Dollar
    && (forall i :: 1 <= i < |x| ==> x[i] != Dollar)
    && (forall i :: 0 <= i < |x| - 1 ==> x[i] != CR)
    && (x[|x| - 1] == CR || |x| == Capacity)
  }

  /** One iteration of the framing part of the loop on byte `b`: the new state
      and the emitted sentence, if any. After an emission the buffer is
      cleared and capturing stops. */
  function Step(s: FramerState, b: byte): (r: (FramerState, Option<seq<byte>>))
    ensures Inv(s) ==> Inv(r.0)
    ensures r.1.Some? <==> b != Dollar && s.capturing && (b == CR || |s.buffer| >= Capacity)
    ensures r.1.Some? ==> r.0 == Idle
    ensures r.1.Some? && |s.buffer| >= Capacity ==> r.1.value == s.buffer
    ensures r.1.Some? && |s.buffer| < Capacity ==> r.1.value == s.buffer + [CR]
    ensures Inv(s) && r.1.Some? ==> WellFramed(r.1.value)
    ensures b == Dollar ==> r.0 == FramerState([Dollar], true)
    ensures !s.capturing && b != Dollar ==> r.0 == s && r.1 == None
  {
    var s1 := if b == Dollar then FramerState([], true) else s;
    if !s1.capturing then
      (s1, None)
    else if |s1.buffer| < Capacity then
      var grown := s1.buffer + [b];
      if b == CR then (Idle, Some(grown)) else (FramerState(grown, true), None)
    else
      // the push fails: the overflowing byte is dropped and the full buffer emitted
      (Idle, Some(s1.buffer))
  }

  function Emitted(e: Option<seq<byte>>): seq<seq<byte>> {
    if e.Some? then [e.value] else []
  }

  /** Feeding a stream of bytes: the final state and the sentences emitted,
      in order. */
  function Run(s: FramerState, bytes: seq<byte>): (r: (FramerState, seq<seq<byte>>))
    ensures |r.1| <= |bytes|
    decreases |bytes|
  {
    if bytes == [] then (s, [])
    else
      var first := Step(s, bytes[0]);
      var rest := Run(first.0, bytes[1..]);
      (rest.0, Emitted(first.1) + rest.1)
  }

  /** Feeding a non-empty stream is one `Step`, then the rest. */
  lemma RunCons(s: FramerState, bytes: seq<byte>)
    requires bytes != []
    ensures Run(s, bytes).0 == Run(Step(s, bytes[0]).0, bytes[1..]).0
    ensures Run(s, bytes).1 == Emitted(Step(s, bytes[0]).1) + Run(Step(s, bytes[0]).0, bytes[1..]).1
  {
  }

  /** Feeding `a + b` is feeding `a`, then `b` from where `a` left off. */
  lemma {:induction false} RunAppend(s: FramerState, a: seq<byte>, b: seq<byte>)
    ensures Run(s, a + b).0 == Run(Run(s, a).0, b).0
    ensures Run(s, a + b).1 == Run(s, a).1 + Run(Run(s, a).0, b).1
    decreases |a|
  {
    if a == [] {
      assert a + b == b;
    } else {
      var ab := a + b;
      ConsAppend(a, b);
      var first := Step(s, a[0]);
      RunCons(s, ab);
      RunCons(s, a);
      RunAppend(first.0, a[1..], b);
      AppendAssoc(Emitted(first.1), Run(first.0, a[1..]).1, Run(Run(s, a).0, b).1);
    }
  }

  /** Buffer length never exceeds 80, the invariant survives any input, and
      every sentence the framer emits is well framed. */
  lemma {:induction false} RunKeepsInv(s: FramerState, bytes: seq<byte>)
    requires Inv(s)
    ensures Inv(Run(s, bytes).0)
    ensures forall x :: x in Run(s, bytes).1 ==> WellFramed(x)
    decreases |bytes|
  {
    if bytes != [] {
      RunKeepsInv(Step(s, bytes[0]).0, bytes[1..]);
    }
  }

  /** A complete sentence: `$`, then bytes that are neither `$` nor `\r`,
      then `\r`, 80 bytes at most. */
  ghost predicate Line(w: seq<byte>) {
    && 2 <= |w| <= Capacity
    && w[0] == Dollar
    && w[|w| - 1] == CR
    && (forall i :: 0 < i < |w| - 1 ==> w[i] != Dollar && w[i] != CR)
  }

  /** While capturing, bytes other than `$` and `\r` are appended as long as
      they fit, and nothing is emitted. */
  lemma {:induction false} CaptureBody(p: seq<byte>, body: seq<byte>)
    requires |p| + |body| <= Capacity
    requires forall i :: 0 <= i < |body| ==> body[i] != Dollar && body[i] != CR
    ensures Run(FramerState(p, true), body).0 == FramerState(p + body, true)
    ensures Run(FramerState(p, true), body).1 == []
    decreases |body|
  {
    if body != [] {
      assert (p + [body[0]]) + body[1..] == p + body;
      CaptureBody(p + [body[0]], body[1..]);
    }
  }

  /** Feeding one byte is one `Step`. */
  lemma RunOne(s: FramerState, b: byte)
    ensures Run(s, [b]).0 == Step(s, b).0 && Run(s, [b]).1 == Emitted(Step(s, b).1)
  {
    assert [b][1..] == [];
  }

  /** A `$` starts a fresh capture from any state, emitting nothing. */
  lemma StartCapture(s: FramerState)
    ensures Run(s, [Dollar]).0 == FramerState([Dollar], true) && Run(s, [Dollar]).1 == []
  {
    RunOne(s, Dollar);
  }

  /** A complete sentence is `$`, a body free of `$` and `\r`, and `\r`. */
  lemma LineParts(w: seq<byte>) returns (body: seq<byte>)
    requires Line(w)
    ensures body == w[1..|w| - 1]
    ensures w == [Dollar] + (body + [CR])
    ensures [Dollar] + body == w[..|w| - 1]
    ensures w[..|w| - 1] + [CR] == w
    ensures forall i :: 0 <= i < |body| ==> body[i] != Dollar && body[i] != CR
  {
    body := w[1..|w| - 1];
    assert w == [Dollar] + w[1..];
    assert w[1..] == body + [CR];
    forall i | 0 <= i < |body|
      ensures body[i] != Dollar && body[i] != CR
    {
      assert body[i] == w[i + 1];
    }
  }

  /** Framing a complete sentence yields exactly that sentence and leaves the
      framer idle, whatever was being captured before: the `$` discards any
      partial sentence, which is never emitted. */
  lemma LineRoundTrip(s: FramerState, w: seq<byte>)
    requires Line(w)
    ensures Run(s, w).0 == Idle && Run(s, w).1 == [w]
  {
    var body := LineParts(w);
    var started := FramerState([Dollar], true);
    var full := FramerState(w[..|w| - 1], true);
    RunAppend(s, [Dollar], body + [CR]);
    StartCapture(s);
    RunAppend(started, body, [CR]);
    CaptureBody([Dollar], body);
    RunOne(full, CR);
  }

  /** Framing idempotence: the same sentence fed twice is emitted twice,
      unchanged. */
  lemma FramingIdempotent(s: FramerState, w: seq<byte>)
    requires Line(w)
    ensures Run(s, w + w).0 == Idle && Run(s, w + w).1 == [w, w]
  {
    RunAppend(s, w, w);
    LineRoundTrip(s, w);
    LineRoundTrip(Idle, w);
  }

  /** While idle, bytes other than `$` are discarded. */
  lemma {:induction false} IdleDiscards(t: seq<byte>)
    requires forall i :: 0 <= i < |t| ==> t[i] != Dollar
    ensures Run(Idle, t).0 == Idle && Run(Idle, t).1 == []
    decreases |t|
  {
    if t != [] {
      IdleDiscards(t[1..]);
    }
  }

  /** An over-long sentence is `$`, 79 bytes free of `$` and `\r`, the 81st
      byte and a rest free of `$`. */
  lemma OverlongParts(w: seq<byte>) returns (body: seq<byte>, tail: seq<byte>)
    requires |w| > Capacity && w[0] == Dollar
    requires forall i :: 0 < i < |w| ==> w[i] != Dollar
    requires forall i :: 0 < i < Capacity ==> w[i] != CR
    ensures body == w[1..Capacity] && tail == w[Capacity + 1..]
    ensures w == [Dollar] + (body + ([w[Capacity]] + tail))
    ensures [Dollar] + body == w[..Capacity]
    ensures forall i :: 0 <= i < |body| ==> body[i] != Dollar && body[i] != CR
    ensures forall i :: 0 <= i < |tail| ==> tail[i] != Dollar
  {
    body, tail := w[1..Capacity], w[Capacity + 1..];
    assert w == [Dollar] + w[1..];
    assert w[1..] == body + w[Capacity..];
    assert w[Capacity..] == [w[Capacity]] + tail;
    forall i | 0 <= i < |body|
      ensures body[i] != Dollar && body[i] != CR
    {
      assert body[i] == w[i + 1];
    }
    forall i | 0 <= i < |tail|
      ensures tail[i] != Dollar
    {
      assert tail[i] == w[i + Capacity + 1];
    }
  }

  /** An over-long sentence (no `\r` among its first 80 bytes) is emitted cut
      to exactly 80 bytes when the 81st byte fails to fit; that byte and the
      rest of the sentence are discarded. */
  lemma OverlongTruncated(s: FramerState, w: seq<byte>)
    requires |w| > Capacity && w[0] == Dollar
    requires forall i :: 0 < i < |w| ==> w[i] != Dollar
    requires forall i :: 0 < i < Capacity ==> w[i] != CR
    ensures Run(s, w).0 == Idle && Run(s, w).1 == [w[..Capacity]]
  {
    var body, tail := OverlongParts(w);
    var after := [w[Capacity]] + tail;
    var started := FramerState([Dollar], true);
    var full := FramerState(w[..Capacity], true);
    RunAppend(s, [Dollar], body + after);
    StartCapture(s);
    RunAppend(started, body, after);
    CaptureBody([Dollar], body);
    RunAppend(full, [w[Capacity]], tail);
    RunOne(full, w[Capacity]);
    IdleDiscards(tail);
  }

  /** The loop state of the framer: `buffer` and `good`, and the binary's
      substitute for a failed read. */
  class Framer {
    const buffer: Vec80
    var capturing: bool
    const errorByte: byte

    ghost predicate Valid()
      reads this, buffer, buffer.data
    {
      buffer.Valid() && Inv(State())
    }

    ghost function State(): FramerState
      reads this, buffer, buffer.data
      requires buffer.Valid()
    {
      FramerState(buffer.Contents(), capturing)
    }

    /** `buffer.clear(); good = false;` at start-up. */
    constructor (errorByte: byte)
      ensures Valid() && State() == Idle && this.errorByte == errorByte
      ensures fresh(buffer) && fresh(buffer.data)
    {
      buffer := new Vec80();
      capturing := false;
      this.errorByte := errorByte;
    }

    /** One read of the loop: substitute the error byte, reset on `$`, push
        while capturing, and emit on a failed push or `\r`; after an emission
        the buffer is cleared and capturing stops. */
    method Feed(read: SerialRead) returns (emitted: Option<seq<byte>>)
      requires Valid()
      modifies this, buffer, buffer.data
      ensures Valid()
      ensures State() == Step(old(State()), ByteOf(read, errorByte)).0
      ensures emitted == Step(old(State()), ByteOf(read, errorByte)).1
    {
      var b := ByteOf(read, errorByte);
      if b == Dollar {
        buffer.Clear();
        capturing := true;
      }
      emitted := None;
      if capturing {
        var pushed := buffer.Push(b);
        if !pushed || b == CR {
          emitted := Some(buffer.Contents());
          buffer.Clear();
          capturing := false;
        }
      }
    }
  }
}
