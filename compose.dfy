/** The frame composer: the outgoing frame `buf2` is filled by a fixed series
    of `for v in ... { buf2.push(*v).unwrap(); }` loops, each over a literal
    (the sender id or a spacer) or over a slice `buffer[lo..hi]` of the
    sentence. A slice past the end of the sentence panics before pushing, and
    a push into the full 80-byte `buf2` panics through `unwrap`. */
module Compose {
  import opened Common
  import opened HeaplessVec

  /** One push loop of a composer. */
  datatype Piece = Lit(bytes: seq<byte>) | Slice(lo: nat, hi: nat)

  /** The bytes one piece contributes, when its slice is in range. */
  function PieceBytes(p: Piece, s: seq<byte>): seq<byte>
    requires p.Slice? ==> p.lo <= p.hi <= |s|
  {
    match p
    case Lit(b) => b
    case Slice(lo, hi) => s[lo..hi]
  }

  /** Every slice of the recipe lies inside sentence `s`. */
  ghost predicate InRange(recipe: seq<Piece>, s: seq<byte>) {
    forall i :: 0 <= i < |recipe| && recipe[i].Slice? ==> recipe[i].lo <= recipe[i].hi <= |s|
  }

  /** The intended frame: the pieces' bytes, concatenated. */
  function Expand(recipe: seq<Piece>, s: seq<byte>): seq<byte>
    requires InRange(recipe, s)
    decreases |recipe|
  {
    if recipe == [] then [] else PieceBytes(recipe[0], s) + Expand(recipe[1..], s)
  }

  /** Two recipes in range stay in range one after the other. */
  lemma InRangeAppend(a: seq<Piece>, b: seq<Piece>, s: seq<byte>)
    requires InRange(a, s) && InRange(b, s)
    ensures InRange(a + b, s)
  {
    forall i | 0 <= i < |a + b| && (a + b)[i].Slice?
      ensures (a + b)[i].lo <= (a + b)[i].hi <= |s|
    {
      if i < |a| { assert (a + b)[i] == a[i]; } else { assert (a + b)[i] == b[i - |a|]; }
    }
  }

  /** The inductive step of `ExpandAppend`: prepending a piece to `a`. */
  lemma ExpandAppendStep(a: seq<Piece>, b: seq<Piece>, s: seq<byte>)
    requires a != [] && InRange(a, s) && InRange(b, s) && InRange(a[1..] + b, s)
    requires Expand(a[1..] + b, s) == Expand(a[1..], s) + Expand(b, s)
    ensures InRange(a + b, s)
    ensures Expand(a + b, s) == Expand(a, s) + Expand(b, s)
  {
    InRangeAppend(a, b, s);
    ConsAppend(a, b);
    ExpandHead(a, s);
    ExpandHead(a + b, s);
    AppendAssoc(PieceBytes(a[0], s), Expand(a[1..], s), Expand(b, s));
  }

  /** Expanding two recipes one after the other is expanding each. */
  lemma {:induction false} ExpandAppend(a: seq<Piece>, b: seq<Piece>, s: seq<byte>)
    requires InRange(a, s) && InRange(b, s)
    ensures InRange(a + b, s)
    ensures Expand(a + b, s) == Expand(a, s) + Expand(b, s)
    decreases |a|
  {
    if a == [] {
      assert a + b == b;
    } else {
      ExpandHead(a, s);
      ExpandAppend(a[1..], b, s);
      ExpandAppendStep(a, b, s);
    }
  }

  /** A one-piece recipe expands to that piece's bytes. */
  lemma ExpandOne(p: Piece, s: seq<byte>)
    requires p.Slice? ==> p.lo <= p.hi <= |s|
    ensures InRange([p], s) && Expand([p], s) == PieceBytes(p, s)
  {
    assert [p][1..] == [];
  }

  /** Running the push loops of `recipe` on a `buf2` that already holds
      `acc`: the frame, or the panic that stops the loops first. */
  function Build(recipe: seq<Piece>, s: seq<byte>, acc: seq<byte>): (r: Result<seq<byte>>)
    requires |acc| <= Capacity
    ensures r.Ok? ==> |r.value| <= Capacity && acc <= r.value
    ensures r.Err? ==> r.fault == FrameOverflow || r.fault == SliceOutOfRange
    decreases |recipe|
  {
    if recipe == [] then Ok(acc)
    else match recipe[0]
      case Lit(b) =>
        if |acc| + |b| <= Capacity then Build(recipe[1..], s, acc + b) else Err(FrameOverflow)
      case Slice(lo, hi) =>
        if !(lo <= hi <= |s|) then Err(SliceOutOfRange)
        else if |acc| + (hi - lo) <= Capacity then Build(recipe[1..], s, acc + s[lo..hi])
        else Err(FrameOverflow)
  }

  /** A recipe is in range when its first piece and the rest are. */
  lemma InRangeCons(recipe: seq<Piece>, s: seq<byte>)
    requires recipe != []
    ensures InRange(recipe, s) <==>
              (recipe[0].Slice? ==> recipe[0].lo <= recipe[0].hi <= |s|) && InRange(recipe[1..], s)
  {
    var rest := recipe[1..];
    if (recipe[0].Slice? ==> recipe[0].lo <= recipe[0].hi <= |s|) && InRange(rest, s) {
      forall i | 0 <= i < |recipe| && recipe[i].Slice?
        ensures recipe[i].lo <= recipe[i].hi <= |s|
      {
        if i > 0 { assert recipe[i] == rest[i - 1]; }
      }
    }
  }

  /** One push loop: a first piece in range is pushed, or overflows. */
  lemma BuildHead(recipe: seq<Piece>, s: seq<byte>, acc: seq<byte>)
    requires |acc| <= Capacity && recipe != []
    requires recipe[0].Slice? ==> recipe[0].lo <= recipe[0].hi <= |s|
    ensures var b := PieceBytes(recipe[0], s);
            Build(recipe, s, acc) == if |acc| + |b| <= Capacity then Build(recipe[1..], s, acc + b) else Err(FrameOverflow)
  {
  }

  /** A recipe in range expands to its first piece's bytes, then the rest's. */
  lemma ExpandHead(recipe: seq<Piece>, s: seq<byte>)
    requires recipe != [] && InRange(recipe, s)
    ensures InRange(recipe[1..], s)
    ensures Expand(recipe, s) == PieceBytes(recipe[0], s) + Expand(recipe[1..], s)
  {
    InRangeCons(recipe, s);
  }

  /** The inductive step of `BuildOk`: one more piece in front. */
  lemma BuildOkStep(recipe: seq<Piece>, s: seq<byte>, acc: seq<byte>)
    requires |acc| <= Capacity && recipe != []
    requires recipe[0].Slice? ==> recipe[0].lo <= recipe[0].hi <= |s|
    requires |acc| + |PieceBytes(recipe[0], s)| <= Capacity
    requires InRange(recipe[1..], s)
    requires Build(recipe[1..], s, acc + PieceBytes(recipe[0], s)).Ok?
    requires Build(recipe[1..], s, acc + PieceBytes(recipe[0], s)).value
             == acc + PieceBytes(recipe[0], s) + Expand(recipe[1..], s)
    ensures InRange(recipe, s)
    ensures Build(recipe, s, acc).Ok? && Build(recipe, s, acc).value == acc + Expand(recipe, s)
  {
    BuildHead(recipe, s, acc);
    InRangeCons(recipe, s);
    ExpandHead(recipe, s);
    AppendAssoc(acc, PieceBytes(recipe[0], s), Expand(recipe[1..], s));
  }

  /** A composer that finishes kept every slice in range and appended
      exactly the pieces' bytes. */
  lemma {:induction false} BuildOk(recipe: seq<Piece>, s: seq<byte>, acc: seq<byte>)
    requires |acc| <= Capacity && Build(recipe, s, acc).Ok?
    ensures InRange(recipe, s)
    ensures Build(recipe, s, acc).value == acc + Expand(recipe, s)
    decreases |recipe|
  {
    if recipe != [] {
      var p := recipe[0];
      assert !(p.Slice? && !(p.lo <= p.hi <= |s|));
      BuildHead(recipe, s, acc);
      BuildOk(recipe[1..], s, acc + PieceBytes(p, s));
      BuildOkStep(recipe, s, acc);
    }
  }

  /** With every slice in range, the composer finishes exactly when the
      frame fits, and otherwise overflows. */
  lemma {:induction false} BuildInRange(recipe: seq<Piece>, s: seq<byte>, acc: seq<byte>)
    requires |acc| <= Capacity && InRange(recipe, s)
    ensures Build(recipe, s, acc).Ok? <==> |acc| + |Expand(recipe, s)| <= Capacity
    ensures Build(recipe, s, acc).Err? ==> Build(recipe, s, acc).fault == FrameOverflow
    decreases |recipe|
  {
    if recipe != [] {
      var p, rest := recipe[0], recipe[1..];
      ExpandHead(recipe, s);
      InRangeCons(recipe, s);
      var b := PieceBytes(p, s);
      BuildHead(recipe, s, acc);
      if |acc| + |b| <= Capacity {
        BuildInRange(rest, s, acc + b);
      }
    }
  }

  /** The composer succeeds exactly when every slice is in range and the
      whole frame fits in 80 bytes, and then the frame is `acc` followed by
      the pieces' bytes; with every slice in range, only an overflow can
      stop it. */
  lemma BuildMeans(recipe: seq<Piece>, s: seq<byte>, acc: seq<byte>)
    requires |acc| <= Capacity
    ensures Build(recipe, s, acc).Ok? <==> InRange(recipe, s) && |acc| + |Expand(recipe, s)| <= Capacity
    ensures Build(recipe, s, acc).Ok? ==> Build(recipe, s, acc).value == acc + Expand(recipe, s)
    ensures InRange(recipe, s) && Build(recipe, s, acc).Err? ==> Build(recipe, s, acc).fault == FrameOverflow
  {
    if Build(recipe, s, acc).Ok? {
      BuildOk(recipe, s, acc);
    }
    if InRange(recipe, s) {
      BuildInRange(recipe, s, acc);
    }
  }

  /** How many bytes the recipe pushes when every slice is in range. */
  function Size(recipe: seq<Piece>): nat
    decreases |recipe|
  {
    if recipe == [] then 0
    else (match recipe[0] case Lit(b) => |b| case Slice(lo, hi) => if lo <= hi then hi - lo else 0) + Size(recipe[1..])
  }

  /** The size of two recipes one after the other is the sum of their
      sizes. */
  lemma {:induction false} SizeAppend(a: seq<Piece>, b: seq<Piece>)
    ensures Size(a + b) == Size(a) + Size(b)
    decreases |a|
  {
    if a == [] {
      assert a + b == b;
    } else {
      ConsAppend(a, b);
      SizeAppend(a[1..], b);
    }
  }

  /** A recipe that fits in what is left of the frame cannot overflow: if it
      stops, it stops on a slice past the end of the sentence. */
  lemma {:induction false} FitsOnlySliceFails(recipe: seq<Piece>, s: seq<byte>, acc: seq<byte>)
    requires |acc| <= Capacity
    ensures |acc| + Size(recipe) <= Capacity && Build(recipe, s, acc).Err? ==>
              Build(recipe, s, acc).fault == SliceOutOfRange
    decreases |recipe|
  {
    if recipe != [] && |acc| + Size(recipe) <= Capacity {
      match recipe[0]
      case Lit(b) =>
        FitsOnlySliceFails(recipe[1..], s, acc + b);
      case Slice(lo, hi) =>
        if lo <= hi <= |s| {
          FitsOnlySliceFails(recipe[1..], s, acc + s[lo..hi]);
        }
    }
  }

  /** The push loops themselves, on the real `buf2`: the loops stop at the
      first panic, and on success `buf2` holds exactly the built frame. */
  method ComposeInto(buf: Vec80, recipe: seq<Piece>, s: seq<byte>) returns (fault: Option<Fault>)
    requires buf.Valid()
    modifies buf, buf.data
    ensures buf.Valid()
    ensures Build(recipe, s, old(buf.Contents())).Ok? ==>
              fault == None && buf.Contents() == Build(recipe, s, old(buf.Contents())).value
    ensures Build(recipe, s, old(buf.Contents())).Err? ==>
              fault == Some(Build(recipe, s, old(buf.Contents())).fault)
  {
    var i := 0;
    while i < |recipe|
      invariant 0 <= i <= |recipe|
      invariant buf.Valid()
      invariant Build(recipe[i..], s, buf.Contents()) == Build(recipe, s, old(buf.Contents()))
      decreases |recipe| - i
    {
      assert recipe[i..][0] == recipe[i] && recipe[i..][1..] == recipe[i + 1..];
      match recipe[i] {
        case Lit(b) =>
          var ok := buf.PushAll(b);
          if !ok {
            return Some(FrameOverflow);
          }
        case Slice(lo, hi) =>
          if !(lo <= hi <= |s|) {
            return Some(SliceOutOfRange);
          }
          var ok := buf.PushAll(s[lo..hi]);
          if !ok {
            return Some(FrameOverflow);
          }
      }
      i := i + 1;
    }
    return None;
  }
}
