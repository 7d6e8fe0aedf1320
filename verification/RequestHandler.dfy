/** The class `RequestHandler`. */
module RequestHandlers {
  import opened Strings
  import opened Fields
  import opened Requests
  import opened Responses
  import opened Cache
  import opened CacheManagers
  import opened HttpRequests
  import opened Handler
  import opened Revalidation

  /** What goes back to the client: an error reply, a response, or the bytes of a tunnel. */
  datatype Sent = ErrorReply(code: int) | Reply(response: Response) | TunnelOpened

  class RequestHandler {
    const cache: CacheManager

    constructor (c: CacheManager)
      ensures cache == c
    {
      cache := c;
    }

    /** The origin is asked, and a cacheable reply to a GET stored. */
    method AskOrigin(request: HttpRequest, ghost original: Request, origin: Origin, expiry: int) returns (sent: Sent)
      requires cache.IsValid()
      modifies cache
      ensures cache.IsValid()
      ensures var (s, h) := Forward(origin, cache.cacheCapacity, old(cache.View()), original, request.Value(), expiry);
              && cache.View() == s && h.request == request.Value()
              && h.point.Done? && sent == Reply(h.point.reply)
    {
      var forwarded := Request(request.verb, request.url, request.host, request.headers, request.body);
      var response := origin(forwarded);
      sent := Reply(response);
      var cacheable := CheckCacheable(response);
      if request.verb == GET && cacheable {
        cache.StoreResponse(request.url, response, expiry);
      }
    }

    /** The validators of the cached response replace those of the client, and the origin is asked whether it still
        holds. */
    method Revalidate(request: HttpRequest, cached: Response, origin: Origin) returns (notModified: bool)
      modifies request`headers
      ensures request.Value() == Revalidating(old(request.Value()), cached)
      ensures AsksFor(old(request.Value()), cached, request.Value())
      ensures notModified == NotModified(origin(request.Value()))
      ensures notModified == Holds(origin(request.Value()).statusLine, "304 Not Modified")
    {
      request.AddHeader(IF_MODIFIED_SINCE, Header(cached, "Last-Modified"));
      request.AddHeader(IF_NONE_MATCH, Header(cached, "ETag"));
      var forwarded := Request(request.verb, request.url, request.host, request.headers, request.body);
      var answer := origin(forwarded);
      notModified := CheckNotModified(answer);
    }

    /** `handle_request`, undisturbed by other threads. `origin` stands for `forward_request`; the clock is read
        once. A malformed request is answered with its error code, and the connection is to be closed. */
    method HandleRequest(request: HttpRequest, origin: Origin, now: int, expiry: int) returns (sent: Sent, close: bool)
      requires cache.IsValid()
      modifies cache, request`headers
      ensures cache.IsValid() && close == (old(request.clientErrorCode) != 0)
      ensures close ==> sent == ErrorReply(old(request.clientErrorCode)) && cache.View() == old(cache.View())
      ensures !close ==>
                var (s, h) :=
                  HandleAll(origin, cache.cacheCapacity, old(cache.View()), old(request.Value()), now, expiry);
                && cache.View() == s && request.Value() == h.request
                && match h.point
                   case Done(reply) => sent == Reply(reply)
                   case Tunnelled => sent == TunnelOpened
                   case _ => false
      ensures sent.Reply? ==>
                AsRevalidated(origin, old(cache.View()), old(request.Value()), now, request.Value(), sent.response)
    {
      if request.clientErrorCode != 0 {
        return ErrorReply(request.clientErrorCode), true;
      }
      close := false;
      ghost var original := request.Value();
      HandledAsRevalidated(origin, cache.cacheCapacity, cache.View(), original, now, expiry);
      if request.verb == GET {
        var known := cache.IsInCache(request.url);
        if known {
          var cached := cache.GetCachedResponse(request.url, now);
          if cached.Some? {
            if !(IF_MODIFIED_SINCE in request.headers || IF_NONE_MATCH in request.headers) {
              return Reply(cached.value), close;
            }
            var notModified := Revalidate(request, cached.value, origin);
            if notModified {
              return Reply(cached.value), close;
            }
          }
        }
      }
      if request.verb == CONNECT {
        return TunnelOpened, close;
      }
      sent := AskOrigin(request, original, origin, expiry);
    }
  }
}
