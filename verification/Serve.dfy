/** `processGetRequest` (proxy/handler.cpp:189-257): hit, expired or miss, and what a hit sends. */
module Serve {
  import opened CacheEntries
  import opened Sockets
  import opened Relay
  import opened Request
  import opened RoundTrip

  /** Whether the cached entry answers the request. */
  predicate IsHit(cached: Option<CacheEntry>, now: Tick) {
    cached.Some? && !cached.value.IsExpired(now)
  }

  /** A hit sends the header block and then the body, if there is one. */
  function ServeSpec(e: CacheEntry, order: seq<string>, sends: seq<SendEvent>): SendResult
    requires forall k :: k in order ==> k in e.headers
  {
    var first := SendAllSpec(EmitHeaders(e, order), sends);
    if first.status != Sent || e.data == "" then first
    else
      var second := SendAllSpec(e.data, first.rest);
      second.(delivered := first.delivered + second.delivered)
  }

  /** Whatever the sends do, the client receives a prefix of the emitted response, and all of it
      exactly if the hit is served successfully. */
  lemma ServesWholeEntry(e: CacheEntry, order: seq<string>, sends: seq<SendEvent>)
    requires forall k :: k in order ==> k in e.headers
    ensures var r := ServeSpec(e, order, sends);
            var wire := EmitHeaders(e, order) + e.data;
            r.delivered <= wire && (r.status == Sent <==> r.delivered == wire)
  {
    var headers := EmitHeaders(e, order);
    SendAllExact(headers, sends);
    var first := SendAllSpec(headers, sends);
    SendAllExact(e.data, first.rest);
    hide EmitHeaders;
    if e.data == "" {
      assert headers + e.data == headers;
    }
    if first.status != Sent {
      assert |first.delivered| < |headers|;
    }
  }

  /** A GET answered by the cache reads nothing from the origin and stores nothing; any other GET is
      forwarded. */
  function GetSpec(
    r: Parsed, w: World, cached: Option<CacheEntry>, now: Tick, order: seq<string>, clock: Clock): Outcome
    requires IsHit(cached, now) ==> forall k :: k in order ==> k in cached.value.headers
  {
    if IsHit(cached, now) then
      var out := ServeSpec(cached.value, order, w.clientSends);
      Outcome(match out.status case Sent => Finished case SendFailed => Refused case SendBlocked => Pending,
              "", "", out.delivered, None)
    else Forward(r, w, clock)
  }

  /** What a GET does when the cache holds an unexpired entry for it, and when it does not.  In the first
      case neither the origin nor the cache is touched: the client is sent the entry and gets a prefix of
      it, all of it exactly if the call succeeds; it fails exactly if a send failed, and is otherwise still
      sending.  In the second case it is the forwarding run. */
  lemma GetServes(
    r: Parsed, w: World, cached: Option<CacheEntry>, now: Tick, order: seq<string>, clock: Clock)
    requires cached.Some? ==> forall k :: k in order ==> k in cached.value.headers
    ensures var out := GetSpec(r, w, cached, now, order, clock);
            match cached
            case Some(e) =>
              if e.requiresValidation || (e.expiresTime != 0 && now > e.expiresTime) then out == Forward(r, w, clock)
              else
                var wire := EmitHeaders(e, order) + e.data;
                && out.requested == "" && out.consumed == "" && out.stored == None
                && out.delivered <= wire
                && (out.status == Finished <==> out.delivered == wire)
                && (out.status == Refused ==> FAILURE in w.clientSends)
                && (out.status == Pending ==> FAILURE !in w.clientSends)
                && out.status in {Finished, Refused, Pending}
            case None => out == Forward(r, w, clock)
  {
    match cached
    case Some(e) =>
      ServesWholeEntry(e, order, w.clientSends);
      ServeFailure(e, order, w.clientSends);
      hide EmitHeaders, ServeSpec, Forward;
    case None =>
  }

  /** A failed hit met a failing send; one that is waiting met none and used up its schedule. */
  lemma ServeFailure(e: CacheEntry, order: seq<string>, sends: seq<SendEvent>)
    requires forall k :: k in order ==> k in e.headers
    ensures var r := ServeSpec(e, order, sends);
            && (r.status == SendFailed ==> FAILURE in sends)
            && (r.status == SendBlocked ==> FAILURE !in sends && r.rest == [])
  {
    var headers := EmitHeaders(e, order);
    assert headers != "";
    SendAllSteps(headers, sends);
    var first := SendAllSpec(headers, sends);
    hide EmitHeaders, SendAllSpec, Taken;
    var k := Used(headers, sends);
    assert first.status == Sent ==> sends == sends[..k] + sends[k..];
    if first.status == Sent && e.data != "" {
      SendAllSteps(e.data, first.rest);
    }
  }
}
