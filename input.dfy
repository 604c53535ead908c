/**
  Protocol::Rack::Input: the `rack.input` object. It reads a request body chunk
  by chunk and keeps whatever a caller did not take in a pending remainder
  (`@buffer`) for the next call.

  The state is the body, how many of its chunks have been pulled (`pos`, the
  body's own read position) and the remainder. Every reading method keeps the
  data-conservation invariant: what it hands out, followed by what is still
  unread (the remainder, then the chunks not yet pulled), is what was unread
  before. So consecutive reads concatenate to the body, nothing lost and
  nothing repeated.

  Where this snapshot of the Ruby file disagrees with its own documentation
  and tests, the model follows the documentation and tests:
  - `read_next` reads `@input`, which nothing assigns, so as written it always
    raises; here it pulls the next chunk of `@body` and raises IOError only
    when there is no body.
  - `buffer.slice!(length)` (in `read` and in `read_partial`) is Ruby's
    single-index form, which deletes the one byte at `length`; here the
    buffer is truncated to `length` bytes, as the documentation says.
    AsWrittenRead and AsWrittenCut below keep the written form.
  - a caller-supplied buffer is overwritten with the data read, as the
    documentation says, rather than appended to when no remainder is pending.
  - `close`, `closed?` and `empty?` call members that do not exist in this
    snapshot and are not modelled.
*/
module RackInput {
  import opened Common
  import opened Http

  /** A piece cut to at most `length` bytes, when a length is given. */
  function Upto(s: string, length: Option<nat>): (r: string)
    ensures length.Some? ==> r == s[..Min(length.value, |s|)]
    ensures length.None? ==> r == s
  {
    if length.Some? && |s| > length.value then s[..length.value] else s
  }

  /** A pending remainder in front of the unpulled chunks, concatenated. */
  lemma QueueConcat(pending: Option<string>, rest: seq<string>)
    ensures Concat(if pending.Some? then [pending.value] + rest else rest)
         == if pending.Some? then pending.value + Concat(rest) else Concat(rest)
  {
    if pending.Some? {
      var q := [pending.value] + rest;
      ConcatFront(q);
      assert q[1..] == rest;
    }
  }

  /** Taking the first chunk over to the data read so far keeps the whole. */
  lemma PullStep(data: string, chunk: string, rest: seq<string>, rem: seq<string>)
    requires rem == [chunk] + rest
    ensures data + Concat(rem) == (data + chunk) + Concat(rest)
  {
    ConcatFront(rem);
    assert rem[1..] == rest;
    AppendAssoc(data, chunk, Concat(rest));
  }

  /** What one answer of `gets` hands to the block of `each`: nothing for nil. */
  function Got(answer: Option<string>): (r: seq<string>)
    ensures |r| == if answer.Some? then 1 else 0
  {
    if answer.Some? then [answer.value] else []
  }

  /**
    One call of `gets` inside `each`: the pieces taken so far, the piece
    answered and the queue left behind still make up the whole queue, and a
    nil answer leaves nothing queued.
  */
  lemma EachStep(taken: seq<string>, before: seq<string>, answer: Option<string>, after: seq<string>, whole: seq<string>)
    requires taken + before == whole
    requires answer == (if before == [] then None else Some(before[0]))
    requires after == (if before == [] then [] else before[1..])
    ensures (taken + Got(answer)) + after == whole
    ensures answer.None? ==> taken == whole && after == []
  {
    if before == [] {
      assert taken + [] == taken;
    } else {
      assert before == [before[0]] + before[1..];
      AppendAssoc(taken, [before[0]], before[1..]);
    }
  }

  class Input {
    /** The request body, or nil. */
    const body: Option<Body>
    /** How many chunks the body has handed out so far. */
    var pos: nat
    /** The remainder a previous read did not hand out (`@buffer`). */
    var buffer: Option<string>
    var finished: bool

    ghost predicate Valid()
      reads this
    {
      && (body.Some? ==> pos <= |Chunks(body.value)|)
      && (body.None? ==> pos == 0 && buffer.None?)
    }

    /** The chunks the body has not handed out yet. */
    function Remaining(): seq<string>
      reads this
      requires Valid()
    {
      if body.Some? then Chunks(body.value)[pos..] else []
    }

    /** Every byte not yet handed to a caller, in order. */
    function Unread(): string
      reads this
      requires Valid()
    {
      if buffer.Some? then buffer.value + Concat(Remaining()) else Concat(Remaining())
    }

    /** The pieces `gets` would hand out from here on: the remainder, then each unpulled chunk. */
    function Queue(): seq<string>
      reads this
      requires Valid()
    {
      if buffer.Some? then [buffer.value] + Remaining() else Remaining()
    }

    /** The unread bytes are the queued pieces, concatenated. */
    lemma UnreadIsQueue()
      requires Valid()
      ensures Unread() == Concat(Queue())
    {
      QueueConcat(buffer, Remaining());
    }

    constructor(body: Option<Body>)
      ensures Valid() && this.body == body && buffer.None? && pos == 0
      ensures finished == body.None?
      ensures Unread() == if body.Some? then Concat(Chunks(body.value)) else ""
    {
      this.body := body;
      pos := 0;
      buffer := None;
      finished := body.None?;
    }

    /** `read_next`: the next chunk of the body, nil at its end; IOError without a body. */
    method ReadNext() returns (r: Result<Option<string>>)
      requires Valid()
      modifies this`pos
      ensures Valid()
      ensures body.None? ==> r.Raised? && r.error.cls == IOError
      ensures body.Some? ==> r.Ok?
      ensures r.Ok? ==> (r.value.None? <==> old(Remaining()) == [])
      ensures r.Ok? && r.value.Some? ==> old(Remaining()) == [r.value.value] + Remaining()
      ensures !(r.Ok? && r.value.Some?) ==> pos == old(pos)
    {
      if body.None? {
        return Raised(Error(IOError, "Stream is not readable, input has been closed!"));
      }
      var chunks := Chunks(body.value);
      if pos < |chunks| {
        r := Ok(Some(chunks[pos]));
        pos := pos + 1;
        assert old(Remaining()) == [chunks[pos - 1]] + chunks[pos..];
      } else {
        r := Ok(None);
      }
    }

    /**
      The filling loop of `read`: appends chunks to `data` until it holds at
      least `length` bytes (every chunk when no length is given) or the body
      is exhausted. `ok` is false when `read_next` raised, which happens
      exactly when there is no body.
    */
    method Fill(data0: string, length: Option<nat>) returns (data: string, ok: bool)
      requires Valid() && buffer.None? && length != Some(0)
      requires body.None? ==> data0 == ""
      modifies this`pos
      ensures Valid() && buffer.None?
      ensures data0 + old(Concat(Remaining())) == data + Concat(Remaining())
      ensures ok <==> body.Some?
      ensures ok && length.None? ==> Remaining() == []
      ensures ok && length.Some? ==> |data| >= length.value || Remaining() == []
      ensures !ok ==> data == data0
    {
      data := data0;
      ghost var total := data0 + Concat(Remaining());
      var more := true;
      while more && (length.None? || |data| < length.value)
        invariant Valid() && buffer.None?
        invariant total == data + Concat(Remaining())
        invariant !more ==> Remaining() == []
        invariant body.None? ==> data == "" && more
        decreases |Remaining()|, more
      {
        ghost var rem := Remaining();
        var c := ReadNext();
        if c.Raised? {
          return data, false;
        }
        match c.value
        case None =>
          more := false;
        case Some(chunk) =>
          PullStep(data, chunk, Remaining(), rem);
          data := data + chunk;
      }
      ok := true;
    }

    /**
      `read(length = nil, buffer = nil)`. With a length, at most that many
      bytes, nil once nothing is left; without one, everything left ("" at the
      end). `supplied` is the caller's buffer and `filled` what it holds
      afterwards.
    */
    method Read(length: Option<nat>, supplied: Option<string>) returns (r: Result<Option<string>>, filled: Option<string>)
      requires Valid()
      modifies this`pos, this`buffer
      ensures Valid()
      ensures supplied.None? <==> filled.None?
      ensures length == Some(0) ==>
        r == Ok(Some("")) && filled == supplied && pos == old(pos) && buffer == old(buffer)
      ensures length != Some(0) && body.None? ==>
        r.Raised? && r.error.cls == IOError && (filled.Some? ==> filled.value == "")
      ensures length.Some? && length.value > 0 && body.Some? ==>
        r == Ok(if old(Unread()) == "" then None
                else Some(old(Unread())[..Min(length.value, |old(Unread())|)]))
      ensures length.None? && body.Some? ==> r == Ok(Some(old(Unread()))) && Unread() == ""
      ensures r.Ok? ==> old(Unread()) == r.value.GetOr("") + Unread()
      ensures length != Some(0) && filled.Some? && r.Ok? ==> filled.value == r.value.GetOr("")
    {
      if length == Some(0) {
        return Ok(Some("")), supplied;
      }
      ghost var unread := Unread();
      var data := TakeBuffer();
      var ok;
      data, ok := Fill(data, length);
      if !ok {
        r := Raised(Error(IOError, "Stream is not readable, input has been closed!"));
      } else if length.Some? {
        data := Cut(data, length.value, unread);
        r := if data == "" then Ok(None) else Ok(Some(data));
      } else {
        assert Remaining() == [] && unread == data;
        r := Ok(Some(data));
      }
      filled := if supplied.Some? then Some(data) else None;
    }

    /** The start of `read`: the pending remainder becomes the data read so far. */
    method TakeBuffer() returns (data: string)
      requires Valid()
      modifies this`buffer
      ensures Valid() && buffer.None?
      ensures data + Concat(Remaining()) == old(Unread())
      ensures body.None? ==> data == ""
    {
      data := "";
      if buffer.Some? {
        data := buffer.value;
        buffer := None;
      }
    }

    /**
      The end of `read` with a length: keeps what lies beyond `n` bytes as
      the pending remainder and returns the first `n` (all of `data` when it
      is shorter, which only happens once the body is exhausted).
    */
    method Cut(data: string, n: nat, ghost whole: string) returns (r: string)
      requires Valid() && buffer.None? && body.Some? && n > 0
      requires whole == data + Concat(Remaining())
      requires |data| >= n || Remaining() == []
      modifies this`buffer
      ensures Valid() && pos == old(pos)
      ensures r == whole[..Min(n, |whole|)]
      ensures whole == r + Unread()
    {
      if n <= |data| {
        CutAppend(data, n, Concat(Remaining()));
        buffer := Some(data[n..]);
        r := data[..n];
      } else {
        assert whole == data;
        r := data;
      }
    }

    /**
      `read_partial(length = nil)`: the pending remainder if there is one (the
      body is not touched then), otherwise the next chunk; cut to `length`
      bytes with the rest kept pending. The written `slice!(length)` drops one
      byte instead (AsWrittenCut).
    */
    method ReadPartial(length: Option<nat>) returns (r: Result<Option<string>>)
      requires Valid()
      modifies this`pos, this`buffer
      ensures Valid()
      ensures body.None? ==> r.Raised? && r.error.cls == IOError
      ensures body.Some? ==>
        r == Ok(if old(Queue()) == [] then None else Some(Upto(old(Queue())[0], length)))
      ensures r.Ok? ==> old(Unread()) == r.value.GetOr("") + Unread()
      ensures old(buffer).Some? ==> pos == old(pos)
    {
      ghost var q := Queue();
      ghost var unread := Unread();
      var piece: Option<string>;
      if buffer.Some? {
        piece := buffer;
        buffer := None;
        assert unread == piece.value + Concat(Remaining());
      } else {
        ghost var rem := Remaining();
        var c := ReadNext();
        if c.Raised? {
          return Raised(c.error);
        }
        piece := c.value;
        if piece.Some? {
          ConcatFront(rem);
          assert rem[1..] == Remaining();
        }
      }
      assert unread == piece.GetOr("") + Concat(Remaining());
      if piece.Some? && length.Some? && |piece.value| > length.value {
        var n := length.value;
        var whole := piece.value;
        CutAppend(whole, n, Concat(Remaining()));
        buffer := Some(whole[n..]);
        piece := Some(whole[..n]);
      }
      r := Ok(piece);
    }

    /**
      `read_nonblock(length, buffer = nil)`: like `read_partial` with a
      length, except that at the end of the data it returns nil and clears
      the caller's buffer; otherwise the caller's buffer is replaced by the
      chunk returned. A raise leaves the caller's buffer as it was.
    */
    method ReadNonblock(length: nat, supplied: Option<string>) returns (r: Result<Option<string>>, filled: Option<string>)
      requires Valid()
      modifies this`pos, this`buffer
      ensures Valid()
      ensures body.None? ==> r.Raised? && r.error.cls == IOError && filled == supplied
      ensures body.Some? ==>
        r == Ok(if old(Queue()) == [] then None else Some(Upto(old(Queue())[0], Some(length))))
      ensures r.Ok? ==> old(Unread()) == r.value.GetOr("") + Unread()
      ensures r.Ok? ==> filled == if supplied.Some? then Some(r.value.GetOr("")) else None
      ensures old(buffer).Some? ==> pos == old(pos)
    {
      ghost var q := Queue();
      ghost var unread := Unread();
      if buffer.None? {
        ghost var rem := Remaining();
        var c := ReadNext();
        if c.Raised? {
          return Raised(c.error), supplied;
        }
        buffer := c.value;
        if buffer.Some? {
          ConcatFront(rem);
          assert rem[1..] == Remaining();
        }
      }
      if buffer.None? {
        assert "" + Unread() == Unread();
        filled := if supplied.Some? then Some("") else None;
        return Ok(None), filled;
      }
      var chunk := buffer.value;
      assert unread == chunk + Concat(Remaining());
      if |chunk| > length {
        CutAppend(chunk, length, Concat(Remaining()));
        buffer := Some(chunk[length..]);
        chunk := chunk[..length];
      } else {
        buffer := None;
      }
      r := Ok(Some(chunk));
      filled := if supplied.Some? then Some(chunk) else None;
    }

    /** `gets`: the pending remainder if there is one, otherwise the next chunk; nil at the end. */
    method Gets() returns (r: Result<Option<string>>)
      requires Valid()
      modifies this`pos, this`buffer
      ensures Valid()
      ensures body.None? ==> r.Raised? && r.error.cls == IOError
      ensures body.Some? ==> r == Ok(if old(Queue()) == [] then None else Some(old(Queue())[0]))
      ensures Queue() == if old(Queue()) == [] then [] else old(Queue())[1..]
      ensures r.Ok? ==> old(Unread()) == r.value.GetOr("") + Unread()
    {
      ghost var q := Queue();
      if buffer.Some? {
        r := Ok(buffer);
        buffer := None;
        assert Queue() == q[1..];
      } else {
        ghost var rem := Remaining();
        r := ReadNext();
        if r.Ok? && r.value.Some? {
          assert Queue() == q[1..];
        }
      }
      if r.Ok? && q != [] {
        ConcatFront(q);
      }
      UnreadIsQueue();
    }

    /**
      `each { |chunk| ... }`: calls `gets` until it answers nil. `yielded` is
      what the block receives, in order.
    */
    method Each() returns (yielded: seq<string>, r: Outcome)
      requires Valid()
      modifies this`pos, this`buffer
      ensures Valid()
      ensures body.None? ==> yielded == [] && r.Failed? && r.error.cls == IOError
      ensures body.Some? ==> r == Done && yielded == old(Queue()) && Queue() == []
      ensures r == Done ==> Concat(yielded) == old(Unread()) && Unread() == ""
    {
      ghost var q := Queue();
      UnreadIsQueue();
      yielded := [];
      var c := Gets();
      if c.Raised? {
        return yielded, Failed(c.error);
      }
      EachStep(yielded, q, c.value, Queue(), q);
      while c.value.Some?
        invariant Valid() && body.Some? && c.Ok?
        invariant (yielded + Got(c.value)) + Queue() == q
        invariant c.value.None? ==> yielded == q && Queue() == []
        decreases |Got(c.value)| + |Queue()|
      {
        ghost var before := Queue();
        yielded := yielded + [c.value.value];
        c := Gets();
        EachStep(yielded, before, c.value, Queue(), q);
      }
      r := Done;
      UnreadIsQueue();
    }

    /**
      `rewind`: succeeds only for a body that responds to `rewind`; the body
      starts over and the pending remainder is dropped. Otherwise nothing
      changes.
    */
    method Rewind() returns (ok: bool)
      requires Valid()
      modifies this`pos, this`buffer, this`finished
      ensures Valid()
      ensures ok <==> body.Some? && CanRewind(body.value)
      ensures ok ==> buffer.None? && !finished && Queue() == Chunks(body.value)
      ensures ok ==> Unread() == Concat(Chunks(body.value))
      ensures !ok ==> pos == old(pos) && buffer == old(buffer) && finished == old(finished)
    {
      if body.Some? && CanRewind(body.value) {
        pos := 0;
        buffer := None;
        finished := false;
        assert Remaining() == Chunks(body.value);
        return true;
      }
      return false;
    }
  }

  // -----------------------------------------------------------------------
  // `read(length, buffer)` as this snapshot writes it

  /** The loop at lines 93-95: appends chunks until `n` bytes are there or the chunks run out. */
  function FillTo(data: string, chunks: seq<string>, n: nat): (r: (string, nat))
    ensures r.1 <= |chunks|
    ensures r.0 == data + Concat(chunks[..r.1])
    ensures |r.0| >= n || r.1 == |chunks|
    ensures forall j :: 0 <= j < r.1 ==> |data + Concat(chunks[..j])| < n
    decreases |chunks|
  {
    if |data| >= n || chunks == [] then
      assert chunks[..0] == [];
      (data, 0)
    else
      var (d, k) := FillTo(data + chunks[0], chunks[1..], n);
      ConcatFront(chunks[..k + 1]);
      assert chunks[..k + 1][1..] == chunks[1..][..k];
      forall j | 0 <= j < k + 1
        ensures |data + Concat(chunks[..j])| < n
      {
        PrefixFront(data, chunks, j);
      }
      (d, k + 1)
  }

  /** The first `j` chunks after `data` are the first `j - 1` of the rest after `data + chunks[0]`. */
  lemma PrefixFront(data: string, chunks: seq<string>, j: nat)
    requires 0 <= j <= |chunks|
    ensures j == 0 ==> data + Concat(chunks[..j]) == data
    ensures j > 0 ==> data + Concat(chunks[..j]) == data + chunks[0] + Concat(chunks[1..][..j - 1])
  {
    if j == 0 {
      assert chunks[..0] == [];
    } else {
      ConcatFront(chunks[..j]);
      assert chunks[..j][1..] == chunks[1..][..j - 1];
    }
  }

  /**
    Ruby's `s.slice!(n)` with a single index, as far as the string left
    behind goes: the one byte at `n` is removed, and nothing happens when `n`
    is past the end.
  */
  function SliceBang(s: string, n: nat): (r: string)
    ensures n < |s| ==> |r| == |s| - 1 && r[..n] == s[..n] && r[n..] == s[n + 1..]
    ensures n >= |s| ==> r == s
  {
    if n < |s| then s[..n] + s[n + 1..] else s
  }

  /**
    The cutting step of `read_partial(length)` as written: a piece longer
    than `length` keeps `byteslice(length, ...)` pending and is answered
    after `slice!(length)`. The answer is one byte short of the piece and
    ends with all of the pending remainder except its first byte, so those
    bytes are handed out twice.
  */
  function AsWrittenCut(piece: string, length: nat): (r: (string, Option<string>))
    ensures |piece| > length ==> r.1 == Some(piece[length..]) && |r.0| == |piece| - 1
    ensures |piece| > length ==> r.0[|r.0| - (|r.1.value| - 1)..] == r.1.value[1..]
    ensures |piece| <= length ==> r == (piece, None)
  {
    if |piece| > length then (SliceBang(piece, length), Some(piece[length..])) else (piece, None)
  }

  /**
    `read_partial(3)` on a "quick" chunk as written answers "quik" and keeps
    "ck" pending, where the cut the documentation describes answers "qui".
  */
  lemma {:induction false} AsWrittenReadPartialRepeats()
    ensures AsWrittenCut("quick", 3) == ("quik", Some("ck"))
    ensures Upto("quick", Some(3)) == "qui"
  {
    var piece := "quick";
    assert piece[3..] == "ck";
    assert piece[..3] + piece[4..] == "quik";
    assert piece[..3] == "qui";
  }

  /**
    `read(n, buffer)` for n > 0 exactly as written, over a body that still has
    `chunks` to give: the caller's buffer is kept when nothing is pending,
    `byteslice(n, size)` becomes the new remainder, and `slice!(n)` deletes
    only the byte at index n. Answers what `read` returns, the new remainder
    and how many chunks it pulled.
  */
  function AsWrittenRead(pending: Option<string>, supplied: Option<string>, chunks: seq<string>, n: nat)
    : (r: (Option<string>, Option<string>, nat))
    requires n > 0
    ensures r.2 <= |chunks|
    ensures r.1.Some? && |r.1.value| > 1 ==>
      r.0.Some? && |r.0.value| >= |r.1.value| - 1 &&
      r.0.value[|r.0.value| - (|r.1.value| - 1)..] == r.1.value[1..]
  {
    var start := if pending.Some? then pending.value else supplied.GetOr("");
    var (data, k) := FillTo(start, chunks, n);
    var kept := if n > |data| then None else Some(data[n..]);
    var sliced := SliceBang(data, n);
    (if sliced == "" then None else Some(sliced), kept, k)
  }

  /**
    A `read(3)` that finds "quick" next: the written code answers "quik" and
    keeps "ck" pending, so the caller receives "quik" and then "ck". The "k"
    is handed out twice and the "c" arrives after it, where "qui" and then
    "ck" are expected.
  */
  lemma {:induction false} AsWrittenReadRepeatsRemainder()
    ensures AsWrittenRead(Some(""), None, ["quick", "brown"], 3) == (Some("quik"), Some("ck"), 1)
  {
    var chunks := ["quick", "brown"];
    assert FillTo("", chunks, 3) == ("quick", 1) by {
      assert "" + chunks[0] == "quick" && chunks[1..] == ["brown"];
      assert FillTo("quick", ["brown"], 3) == ("quick", 0);
    }
    var data := "quick";
    assert data[3..] == "ck";
    assert data[..3] + data[4..] == "quik";
  }

  /**
    With the whole body already handed out and a caller's buffer holding
    "Thequickbrownfo", `read(1, buffer)` answers "Tequickbrownfo" and makes
    "hequickbrownfo" pending, where nil and an emptied buffer are expected.
  */
  lemma {:induction false} AsWrittenReadKeepsStaleBuffer()
    ensures AsWrittenRead(None, Some("Thequickbrownfo"), [], 1)
         == (Some("Tequickbrownfo"), Some("hequickbrownfo"), 0)
  {
    var data := "Thequickbrownfo";
    assert FillTo(data, [], 1) == (data, 0);
    assert data[1..] == "hequickbrownfo";
    assert data[..1] + data[2..] == "Tequickbrownfo";
  }
}
