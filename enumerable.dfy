/**
  Protocol::Rack::Body::Enumerable: a protocol-http readable body over a rack
  response body that responds to `each`.

  The object holds the rack body (nil once closed), the content length it was
  given, and the enumerator `read` steps through (`@chunks`), here the index
  of the next chunk. `closes` counts the calls made to the rack body's own
  `close`; the class invariant keeps it at most one, because closing also
  drops the body.
*/
module BodyEnumerable {
  import opened Common
  import opened Http

  /**
    The length `Enumerable.wrap` stores: an Array without a given length
    measures its chunks; a given length always wins; any other body keeps
    what was given.
  */
  function WrapLength(body: RackBody, length: Option<int>): (r: Option<int>)
    ensures length.Some? ==> r == length
    ensures length.None? && IsArray(body) ==> r == Some(|Concat(EachChunks(body))|)
    ensures length.None? && !IsArray(body) ==> r.None?
  {
    if IsArray(body) && length.None? then Some(SumBytes(body.kind.chunks)) else length
  }

  /** `empty?`: a zero length, or a body whose own `empty?` says so. */
  predicate EmptyOf(body: RackBody, length: Option<int>)
    ensures body.NilBody? || RespondsToCall(body) ==> (EmptyOf(body, length) <==> length == Some(0))
    ensures IsArray(body) ==> (EmptyOf(body, length) <==> length == Some(0) || EachChunks(body) == [])
  {
    length == Some(0) || ReportsEmpty(body) == Some(true)
  }

  /** `ready?`: an Array, or anything that converts to one with `to_ary`. */
  predicate ReadyOf(body: RackBody)
    ensures IsArray(body) ==> ReadyOf(body)
    ensures ReadyOf(body) ==> body.Object? && RespondsToEach(body)
  {
    IsArray(body) || RespondsToToAry(body)
  }

  /** `stream?`: the body has no `each` (so it is to be called with a stream). */
  predicate StreamOf(body: RackBody)
    ensures StreamOf(body) <==> body.NilBody? || RespondsToCall(body)
    ensures StreamOf(body) ==> !ReadyOf(body)
  {
    !RespondsToEach(body)
  }

  /**
    An Array wrapped without a length is empty exactly when its chunks hold
    no bytes, whether or not the list itself is empty.
  */
  lemma {:induction false} WrappedArrayEmpty(chunks: seq<string>, path: Option<string>, closeable: bool)
    ensures var body := Object(ArrayOf(chunks), path, closeable);
      EmptyOf(body, WrapLength(body, None)) <==> Concat(chunks) == ""
  {
    var body := Object(ArrayOf(chunks), path, closeable);
    assert WrapLength(body, None) == Some(|Concat(chunks)|);
    if chunks == [] {
      assert Concat(chunks) == "";
    }
  }

  /** An explicit length of zero makes any body empty, whatever it holds. */
  lemma ZeroLengthIsEmpty(body: RackBody)
    ensures EmptyOf(body, WrapLength(body, Some(0)))
  {
  }

  class Enumerable {
    /** The rack body; NilBody once closed. */
    var body: RackBody
    /** The length given to `initialize`. */
    const length: Option<int>
    /** The enumerator `read` uses: None before the first `read`, else the next index. */
    var cursor: Option<nat>
    /** How many times the rack body's `close` has been called. */
    var closes: nat

    ghost predicate Valid()
      reads this
    {
      && closes <= 1
      && (closes == 1 ==> body == NilBody)
      && (cursor.Some? ==> cursor.value <= |EachChunks(body)|)
    }

    /** The chunks `read` has handed out so far. */
    function Delivered(): seq<string>
      reads this
      requires Valid()
    {
      if cursor.Some? then EachChunks(body)[..cursor.value] else []
    }

    /** `initialize(body, length)`. */
    constructor(body: RackBody, length: Option<int>)
      ensures Valid() && this.body == body && this.length == length
      ensures cursor.None? && closes == 0
    {
      this.body := body;
      this.length := length;
      cursor := None;
      closes := 0;
    }

    /** `Enumerable.wrap(body, length = nil)`. */
    static method Wrap(body: RackBody, length: Option<int>) returns (e: Enumerable)
      ensures fresh(e) && e.Valid() && e.body == body && e.length == WrapLength(body, length)
      ensures e.cursor.None? && e.closes == 0
    {
      e := new Enumerable(body, WrapLength(body, length));
    }

    /**
      `close`: closes the rack body if it is still held and responds to
      `close`, then drops it. A second call closes nothing.
    */
    method Close()
      requires Valid()
      modifies this
      ensures Valid()
      ensures body == NilBody && cursor.None?
      ensures closes == old(closes) + (if RespondsToClose(old(body)) then 1 else 0)
      ensures StreamOf(body) && !ReadyOf(body) && (EmptyOf(body, length) <==> length == Some(0))
    {
      if RespondsToClose(body) {
        closes := closes + 1;
      }
      body := NilBody;
      cursor := None;
    }

    /**
      `each { |chunk| ... }`: hands the block every chunk of the rack body and
      closes the body afterwards, also when `each` raises or the body is gone.
    */
    method Each() returns (yielded: seq<string>, r: Outcome)
      requires Valid()
      modifies this
      ensures Valid() && body == NilBody && cursor.None?
      ensures closes == old(closes) + (if RespondsToClose(old(body)) then 1 else 0)
      ensures !RespondsToEach(old(body)) ==> yielded == [] && r.Failed? && r.error.cls == NoMethodError
      ensures RespondsToEach(old(body)) ==> yielded == EachChunks(old(body))
      ensures RespondsToEach(old(body)) ==> (r.Failed? <==> EachRaises(old(body)))
      ensures r.Failed? && RespondsToEach(old(body)) ==> r.error.cls == RuntimeError
    {
      if !RespondsToEach(body) {
        yielded, r := [], Failed(Error(NoMethodError, "undefined method 'each'"));
      } else {
        yielded := EachChunks(body);
        r := if EachRaises(body) then Failed(Error(RuntimeError, "each raised")) else Done;
      }
      Close();
    }

    /**
      `call(stream)`: hands the stream to the rack body and closes the body
      afterwards, also when the body cannot be called.
    */
    method Call() returns (r: Outcome)
      requires Valid()
      modifies this
      ensures Valid() && body == NilBody && cursor.None?
      ensures closes == old(closes) + (if RespondsToClose(old(body)) then 1 else 0)
      ensures r == Done <==> RespondsToCall(old(body))
      ensures r.Failed? ==> r.error.cls == NoMethodError
    {
      if RespondsToCall(body) {
        r := Done;
      } else {
        r := Failed(Error(NoMethodError, "undefined method 'call'"));
      }
      Close();
    }

    /**
      `read`: the rack body's chunks one by one, in order, then nil on every
      later call. A body without `each` (one that was closed included) raises
      NoMethodError; a body whose `each` raises passes its error on.
    */
    method Read() returns (r: Result<Option<string>>)
      requires Valid()
      modifies this`cursor
      ensures Valid()
      ensures !RespondsToEach(body) ==> r.Raised? && r.error.cls == NoMethodError
      ensures RespondsToEach(body) && old(cursor).GetOr(0) < |EachChunks(body)| ==>
        r == Ok(Some(EachChunks(body)[old(cursor).GetOr(0)]))
      ensures RespondsToEach(body) && old(cursor).GetOr(0) == |EachChunks(body)| ==>
        if EachRaises(body) then r.Raised? && r.error.cls == RuntimeError else r == Ok(None)
      ensures r.Ok? && r.value.Some? ==> Delivered() == old(Delivered()) + [r.value.value]
      ensures !(r.Ok? && r.value.Some?) ==> Delivered() == old(Delivered())
    {
      var i := cursor.GetOr(0);
      var chunks := EachChunks(body);
      cursor := Some(i);
      if !RespondsToEach(body) {
        return Raised(Error(NoMethodError, "undefined method 'each'"));
      }
      if i < |chunks| {
        cursor := Some(i + 1);
        assert chunks[..i + 1] == chunks[..i] + [chunks[i]];
        return Ok(Some(chunks[i]));
      }
      if EachRaises(body) {
        return Raised(Error(RuntimeError, "each raised"));
      }
      return Ok(None);
    }
  }
}
