/**
  Protocol::Rack::Rewindable: the middleware that buffers request bodies
  rack applications may read twice (form posts and multipart bodies).
*/
module RackRewindable {
  import opened Common
  import Http

  /** `BUFFERED_MEDIA_TYPES`: the media types whose bodies are buffered, matched anywhere in the content type. */
  const BUFFERED_MEDIA_TYPES: seq<string> :=
    ["application/x-www-form-urlencoded", "multipart/form-data", "multipart/related", "multipart/mixed"]

  const POST := "POST"
  const CONTENT_TYPE := "content-type"

  /** `BUFFERED_MEDIA_TYPES =~ content_type`, nil matching nothing. */
  predicate Buffered(contentType: Option<string>)
    ensures contentType.None? ==> !Buffered(contentType)
    ensures contentType.Some? && |contentType.value| < |"multipart/mixed"| ==> !Buffered(contentType)
  {
    contentType.Some? && (ShortUnmatched(contentType.value); exists i :: 0 <= i < |BUFFERED_MEDIA_TYPES| && Contains(contentType.value, BUFFERED_MEDIA_TYPES[i]))
  }

  /** A string shorter than every buffered media type contains none of them. */
  lemma {:induction false} ShortUnmatched(s: string)
    ensures |s| < |"multipart/mixed"| ==> forall i :: 0 <= i < |BUFFERED_MEDIA_TYPES| ==> !Contains(s, BUFFERED_MEDIA_TYPES[i])
  {
    if |s| < |"multipart/mixed"| {
      forall i | 0 <= i < |BUFFERED_MEDIA_TYPES|
        ensures !Contains(s, BUFFERED_MEDIA_TYPES[i])
      {
        TooShort(s, BUFFERED_MEDIA_TYPES[i]);
      }
    }
  }

  /** `needs_rewind?(request)`, on the request method and headers. */
  predicate NeedsRewind(requestMethod: Option<string>, headers: Http.Fields)
    ensures Buffered(Http.Get(headers, CONTENT_TYPE)) ==> NeedsRewind(requestMethod, headers)
    ensures NeedsRewind(requestMethod, headers) && requestMethod != Some(POST) ==> Http.Get(headers, CONTENT_TYPE).Some?
    ensures Http.Get(headers, CONTENT_TYPE).None? ==> (NeedsRewind(requestMethod, headers) <==> requestMethod == Some(POST))
  {
    var contentType := Http.Get(headers, CONTENT_TYPE);
    (requestMethod == Some(POST) && contentType.None?) || Buffered(contentType)
  }

  /** A POST without a content type needs rewinding. */
  lemma PostWithoutType(headers: Http.Fields)
    requires Http.Get(headers, CONTENT_TYPE).None?
    ensures NeedsRewind(Some(POST), headers)
  {
  }

  /**
    A content type holding one of the buffered media types anywhere (with
    parameters after it, say) needs rewinding, whatever the method.
  */
  lemma {:induction false} MediaTypeNeedsRewind(requestMethod: Option<string>, headers: Http.Fields, before: string, i: nat, after: string)
    requires i < |BUFFERED_MEDIA_TYPES|
    requires Http.Get(headers, CONTENT_TYPE) == Some(before + BUFFERED_MEDIA_TYPES[i] + after)
    ensures NeedsRewind(requestMethod, headers)
  {
    ContainsInside(before, BUFFERED_MEDIA_TYPES[i], after);
  }

  /** A request without a content type other than a POST needs no rewinding. */
  lemma NoTypeNotPost(requestMethod: Option<string>, headers: Http.Fields)
    requires Http.Get(headers, CONTENT_TYPE).None? && requestMethod != Some(POST)
    ensures !NeedsRewind(requestMethod, headers)
  {
  }

  /**
    Every buffered media type has an `m` in it, so a content type without
    one (`application/json`, `text/plain; charset=utf-8`) is never buffered.
  */
  lemma {:induction false} WithoutMNotBuffered(contentType: string)
    requires 'm' !in contentType
    ensures !Buffered(Some(contentType))
  {
    forall i | 0 <= i < |BUFFERED_MEDIA_TYPES|
      ensures !Contains(contentType, BUFFERED_MEDIA_TYPES[i])
    {
      if i == 0 {
        assert BUFFERED_MEDIA_TYPES[0][21] == 'm';
        MissingChar(contentType, BUFFERED_MEDIA_TYPES[0], 21);
      } else {
        assert BUFFERED_MEDIA_TYPES[i][0] == 'm';
        MissingChar(contentType, BUFFERED_MEDIA_TYPES[i], 0);
      }
    }
  }

  /** `application/json` is not buffered, even for a POST. */
  lemma JsonNotBuffered()
    ensures !Buffered(Some("application/json"))
  {
    WithoutMNotBuffered("application/json");
  }

  /**
    What `call(request)` does before handing the request on: a body that
    needs rewinding is replaced by a Rewindable around it; no body, or one
    that needs none, is left as it is.
  */
  method RewindBody(request: Http.Request)
    modifies request`body
    ensures old(request.body).Some? && NeedsRewind(request.requestMethod, request.headers) ==>
      request.body == Some(Http.Rewindable(old(request.body).value))
    ensures old(request.body).None? || !NeedsRewind(request.requestMethod, request.headers) ==>
      request.body == old(request.body)
  {
    if request.body.Some? && NeedsRewind(request.requestMethod, request.headers) {
      request.body := Some(Http.Rewindable(request.body.value));
    }
  }
}
