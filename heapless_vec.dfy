/** `heapless::Vec<u8, 80>`: a fixed array of 80 bytes and a length. Pushing
    into a full vector fails and leaves it unchanged. */
module HeaplessVec {
  import opened Common

  class Vec80 {
    const data: array<byte>
    var len: nat

    ghost predicate Valid()
      reads this
    {
      data.Length == Capacity && len <= Capacity
    }

    /** The bytes currently held, in push order. */
    function Contents(): (s: seq<byte>)
      reads this, data
      requires Valid()
      ensures |s| == len <= Capacity
    {
      data[..len]
    }

    /** `Vec::new()`. */
    constructor ()
      ensures Valid() && fresh(data) && Contents() == []
    {
      data := new byte[Capacity];
      len := 0;
    }

    /** `Vec::clear`. */
    method Clear()
      requires Valid()
      modifies this
      ensures Valid() && Contents() == []
    {
      len := 0;
    }

    /** `Vec::push`: `ok` is false (Rust's `Err(x)`) exactly when the vector is full. */
    method Push(x: byte) returns (ok: bool)
      requires Valid()
      modifies this, data
      ensures Valid()
      ensures ok <==> old(len) < Capacity
      ensures Contents() == if ok then old(Contents()) + [x] else old(Contents())
    {
      ok := len < Capacity;
      if ok {
        data[len] := x;
        len := len + 1;
      }
    }

    /** `for v in xs.iter() { vec.push(*v).unwrap(); }`: pushes the bytes of
        `xs` in order; `ok` is false where the `unwrap` would panic, that is
        when `xs` does not fit in the room left. */
    method PushAll(xs: seq<byte>) returns (ok: bool)
      requires Valid()
      modifies this, data
      ensures Valid()
      ensures ok <==> |old(Contents())| + |xs| <= Capacity
      ensures ok ==> Contents() == old(Contents()) + xs
    {
      var i := 0;
      while i < |xs|
        invariant 0 <= i <= |xs|
        invariant Valid()
        invariant |old(Contents())| + i <= Capacity
        invariant Contents() == old(Contents()) + xs[..i]
      {
        var pushed := Push(xs[i]);
        if !pushed {
          return false;
        }
        i := i + 1;
      }
      assert xs[..i] == xs;
      return true;
    }
  }
}
