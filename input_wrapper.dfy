/**
  Protocol::Rack::Body::InputWrapper: a protocol-http readable body over an
  IO-like `rack.input`, read in fixed-size blocks.

  The IO is modelled by the bytes it holds and its read offset; `IO#read(n)`
  answers at most n bytes from the offset, nil at the end of the data, and ""
  when n is zero. `ioCloses` counts the calls made to the IO's `close`.
*/
module BodyInputWrapper {
  import opened Common

  /** `BLOCK_SIZE`: the default block size, 4 KiB. */
  const BLOCK_SIZE: nat := 1024 * 4

  class InputWrapper {
    /** Whether `@io` is still set (it is nil when none was given and after `close`). */
    var open: bool
    /** The bytes the IO yields, from its start. */
    const data: string
    /** The IO's read offset. */
    var offset: nat
    const blockSize: nat
    var ioCloses: nat

    ghost predicate Valid()
      reads this
    {
      offset <= |data| && ioCloses <= 1 && (ioCloses == 1 ==> !open)
    }

    /** The bytes handed out so far. */
    function Consumed(): string
      reads this
      requires Valid()
    {
      data[..offset]
    }

    /**
      `initialize(io, block_size: BLOCK_SIZE)`: `io` is None for a nil
      `rack.input`, else the bytes the IO holds.
    */
    constructor(io: Option<string>, blockSize: Option<nat>)
      ensures Valid() && open == io.Some? && data == io.GetOr("") && offset == 0
      ensures this.blockSize == blockSize.GetOr(BLOCK_SIZE) && ioCloses == 0
    {
      open := io.Some?;
      data := io.GetOr("");
      offset := 0;
      this.blockSize := blockSize.GetOr(BLOCK_SIZE);
      ioCloses := 0;
    }

    /** `close`: closes the IO once and forgets it; later calls do nothing. */
    method Close()
      requires Valid()
      modifies this`open, this`ioCloses
      ensures Valid() && !open
      ensures ioCloses == old(ioCloses) + (if old(open) then 1 else 0)
    {
      if open {
        ioCloses := ioCloses + 1;
        open := false;
      }
    }

    /**
      `read`: the next block of at most `blockSize` bytes, nil once the IO is
      exhausted or gone. What it answers is exactly what follows the bytes
      already handed out.
    */
    method Read() returns (r: Option<string>)
      requires Valid()
      modifies this`offset
      ensures Valid()
      ensures !open ==> r.None? && offset == old(offset)
      ensures r.Some? ==> |r.value| <= blockSize
      ensures open && blockSize > 0 ==> (r.None? <==> old(offset) == |data|)
      ensures open && blockSize == 0 ==> r == Some("")
      ensures open && blockSize > 0 && old(offset) < |data| ==> r.Some? && r.value != ""
      ensures open && blockSize > 0 && old(offset) < |data| ==>
        var blocks := Blocks(data[old(offset)..], blockSize);
        r == Some(blocks[0]) && Blocks(data[offset..], blockSize) == blocks[1..]
      ensures Consumed() == old(Consumed()) + r.GetOr("")
      ensures r.None? ==> offset == old(offset)
    {
      if !open {
        return None;
      }
      if blockSize == 0 {
        assert Consumed() + "" == Consumed();
        return Some("");
      }
      if offset == |data| {
        assert Consumed() + "" == Consumed();
        return None;
      }
      var n := Min(blockSize, |data| - offset);
      r := Some(data[offset..offset + n]);
      assert data[..offset + n] == data[..offset] + data[offset..offset + n];
      assert data[offset..][..n] == data[offset..offset + n];
      assert data[offset..][n..] == data[offset + n..];
      offset := offset + n;
    }
  }

  /**
    The blocks successive reads hand out from `rest` with a positive block
    size: each is `size` bytes long except possibly the last.
  */
  function Blocks(rest: string, size: nat): (r: seq<string>)
    requires size > 0
    ensures forall i :: 0 <= i < |r| ==> 0 < |r[i]| <= size
    ensures rest == "" <==> r == []
    decreases |rest|
  {
    if rest == "" then [] else [rest[..Min(size, |rest|)]] + Blocks(rest[Min(size, |rest|)..], size)
  }

  /** Reading until nil hands out the whole IO, in order: the blocks concatenate to the data. */
  lemma {:induction false} BlocksConcat(rest: string, size: nat)
    requires size > 0
    ensures Concat(Blocks(rest, size)) == rest
    decreases |rest|
  {
    if rest != "" {
      var n := Min(size, |rest|);
      var b := Blocks(rest, size);
      BlocksConcat(rest[n..], size);
      ConcatFront(b);
      assert b[1..] == Blocks(rest[n..], size);
      assert rest == rest[..n] + rest[n..];
    }
  }
}
