/** The request handler as the source writes it: loops that update local variables, sockets and the
    shared cache, proved to do what Relay.dfy and Serve.dfy say. */
module Handler {
  import opened CacheEntries
  import opened Text
  import opened Response
  import opened Request
  import opened Sockets
  import opened Relay
  import opened RoundTrip
  import opened Serve
  import CacheSpec
  import Cache
  import Linking

  /** The first read loop. */
  method ReadHeader(origin: Socket, buffer: array<char>) returns (response: Bytes, blocked: bool)
    requires buffer.Length == BUFFER_SIZE
    modifies origin`recvs, origin`received, buffer
    ensures var head := ReadHead(old(origin.recvs), "");
            && response == head.bytes && blocked == head.blocked && origin.recvs == head.rest
            && origin.received == old(origin.received) + head.bytes
  {
    response, blocked := "", false;
    while true
      invariant ReadHead(origin.recvs, response) == ReadHead(old(origin.recvs), "")
      invariant origin.received == old(origin.received) + response
      decreases |origin.recvs|
    {
      var bytesRead := origin.Recv(buffer);
      if bytesRead.None? {
        return response, true;
      }
      if bytesRead.value <= 0 {
        break;
      }
      response := response + buffer[..bytesRead.value];
      if Contains(response, HEADER_END) {
        break;
      }
    }
  }

  /** One iteration of the second read loop. */
  method RelayChunk(
    origin: Socket, client: Socket, buffer: array<char>, f: Framing, ghost s: Body)
    returns (chunk: Bytes, phase: Phase)
    requires buffer.Length == BUFFER_SIZE && origin != client && s.phase == Reading
    requires s.recvs == origin.recvs && s.sends == client.sends
    modifies origin`recvs, origin`received, client`sends, client`delivered, buffer
    ensures var s' := BodyStep(f, s);
            && origin.recvs == s'.recvs && client.sends == s'.sends
            && s.consumed <= s'.consumed && origin.received == old(origin.received) + s'.consumed[|s.consumed|..]
            && s.delivered <= s'.delivered && client.delivered == old(client.delivered) + s'.delivered[|s.delivered|..]
            && s'.buffer == (if f.cacheable then s.buffer + chunk else s.buffer)
            && s'.received == s.received + |chunk|
            && s'.phase == if phase == Reading && Complete(f, s'.received, chunk) then Done else phase
    ensures phase != Reading ==> chunk == ""
    ensures phase == Reading ==> |origin.recvs| < |old(origin.recvs)|
  {
    hide SendAllSpec;
    chunk := "";
    var bytesRead := origin.Recv(buffer);
    if bytesRead.None? {
      return "", Waiting;
    }
    if bytesRead.value <= 0 {
      return "", Done;
    }
    var status := client.SendAll(buffer[..bytesRead.value]);
    match status
    case SendFailed => phase := ClientGone;
    case SendBlocked => phase := Waiting;
    case Sent => chunk, phase := buffer[..bytesRead.value], Reading;
  }

  /** What was seen so far goes on as the schedules do. */
  lemma Further(seen: Bytes, start: Bytes, before: Bytes, after: Bytes)
    requires start <= before <= after
    ensures seen + before[|start|..] + after[|before|..] == seen + after[|start|..]
  {
    assert before[|start|..] + after[|before|..] == after[|start|..];
  }

  /** The second read loop: relay, keep a copy if cacheable, and decide whether to go on. */
  method RelayBody(
    origin: Socket, client: Socket, buffer: array<char>, f: Framing, first: Bytes, ghost start: Body)
    returns (kept: Bytes, phase: Phase)
    requires buffer.Length == BUFFER_SIZE && origin != client
    requires start.recvs == origin.recvs && start.sends == client.sends
    requires start.received == |first| && start.phase == Reading
    requires start.buffer == if f.cacheable then first else ""
    modifies origin`recvs, origin`received, client`sends, client`delivered, buffer
    ensures var end := BodyRun(f, start);
            && kept == end.buffer && phase == end.phase
            && origin.recvs == end.recvs && client.sends == end.sends
            && start.consumed <= end.consumed && start.delivered <= end.delivered
            && origin.received == old(origin.received) + end.consumed[|start.consumed|..]
            && client.delivered == old(client.delivered) + end.delivered[|start.delivered|..]
  {
    kept := if f.cacheable then first else "";
    var bodyReceived := |first|;
    phase := Reading;
    ghost var s := start;
    while phase == Reading
      invariant BodyRun(f, s) == BodyRun(f, start)
      invariant s.recvs == origin.recvs && s.sends == client.sends
      invariant s.buffer == kept && s.received == bodyReceived && s.phase == phase
      invariant start.consumed <= s.consumed && start.delivered <= s.delivered
      invariant origin.received == old(origin.received) + s.consumed[|start.consumed|..]
      invariant client.delivered == old(client.delivered) + s.delivered[|start.delivered|..]
      decreases |origin.recvs|, if phase == Reading then 1 else 0
    {
      ghost var before := s;
      s := BodyStep(f, s);
      assert BodyRun(f, s) == BodyRun(f, before);
      var chunk;
      chunk, phase := RelayChunk(origin, client, buffer, f, before);
      Further(old(origin.received), start.consumed, before.consumed, s.consumed);
      Further(old(client.delivered), start.delivered, before.delivered, s.delivered);
      if phase == Reading {
        if f.cacheable {
          kept := kept + chunk;
        }
        bodyReceived := bodyReceived + |chunk|;
        if f.contentLength > 0 && !f.chunked && bodyReceived >= f.contentLength {
          phase := Done;
        }
        if f.chunked && |chunk| >= 5 && chunk[|chunk| - 5..] == LAST_CHUNK {
          phase := Done;
        }
      }
    }
  }

  /** The header copy of a store. */
  method StoredHeaders(f: Fields) returns (headers: map<string, string>)
    ensures headers == CopyHeaders(STORED_HEADERS, f)
  {
    headers := map[];
    for i := 0 to |STORED_HEADERS|
      invariant headers == CopyHeaders(STORED_HEADERS[..i], f)
    {
      assert STORED_HEADERS[..i + 1][..i] == STORED_HEADERS[..i];
      var value := GetHeader(f, STORED_HEADERS[i]);
      if value != "" {
        headers := headers[STORED_HEADERS[i] := value];
      }
    }
    assert STORED_HEADERS[..|STORED_HEADERS|] == STORED_HEADERS;
  }

  /** Parse, decide, build the entry. */
  method BuildEntry(head: Bytes, data: Bytes, clock: Clock) returns (entry: Option<CacheEntry>)
    ensures entry == StoreSpec(head, data, clock)
  {
    var response := new Response();
    var ok := response.Parse(head, clock.parseTime, clock.parsed);
    if !ok {
      return None;
    }
    var f := response.State();
    if f.control.noStore {
      return None;
    }
    var headers := StoredHeaders(f);
    entry := Some(CacheEntry(data, ResponseLine(head), headers, clock.created, FromTimeT(f.expires),
                             f.needValidate, f.values.etag, GetHeader(f, "Last-Modified")));
  }

  method SendErrorResponse(client: Socket, code: string, message: string) returns (status: Status)
    modifies client`sends, client`delivered
    ensures var out := Reject(code, message, old(client.sends));
            status == out.status && client.delivered == old(client.delivered) + out.delivered
  {
    var sent := client.SendAll(ErrorPage(code, message));
    status := if sent == SendBlocked then Pending else Refused;
  }

  /** Fetch, relay and perhaps store. */
  method ForwardRequest(
    client: Socket, origin: Socket, connects: bool, r: Parsed, cache: Cache.Cache, clock: Clock)
    returns (status: Status)
    requires client != origin
    requires cache.Valid() && !cache.cacheMutex.writer && cache.cacheMutex.readers == 0
    modifies client`sends, client`delivered, origin`recvs, origin`sends, origin`received, origin`delivered
    modifies cache.cacheMutex`readers, cache.cacheMutex`writer, cache.cacheMutex`releases
    modifies cache`cacheMap, cache`keyToIterator, cache.accessOrder`head, cache.accessOrder`tail,
             cache.accessOrder`nodes, cache.accessOrder.nodes`prev, cache.accessOrder.nodes`next
    ensures var out := Forward(r, old(World(connects, origin.sends, origin.recvs, client.sends)), clock);
            && status == out.status
            && client.delivered == old(client.delivered) + out.delivered
            && origin.received == old(origin.received) + out.consumed
            && origin.delivered == old(origin.delivered) + out.requested
            && cache.Valid() && !cache.cacheMutex.writer && cache.cacheMutex.readers == 0
            && cache.Contents() ==
               (match out.stored
                case None => old(cache.Contents())
                case Some(e) => CacheSpec.Put(cache.maxEntries, old(cache.Contents()), Key(r.hostname, r.uri), e))
    ensures status == Threw ==>
              client.sends == SendsLeft(r, old(World(connects, origin.sends, origin.recvs, client.sends)))
  {
    hide Forward, CacheSpec.Put, Cache.Cache.Contents, Linking.Linked;
    var entry;
    status, entry := FetchAndRelay(client, origin, connects, r, clock);
    if entry.Some? {
      cache.Put(Key(r.hostname, r.uri), entry.value);
    }
  }

  /** Everything in `forwardRequest` up to the `put`. */
  method FetchAndRelay(client: Socket, origin: Socket, connects: bool, r: Parsed, clock: Clock)
    returns (status: Status, entry: Option<CacheEntry>)
    requires client != origin
    modifies client`sends, client`delivered, origin`recvs, origin`sends, origin`received, origin`delivered
    ensures var out := Forward(r, old(World(connects, origin.sends, origin.recvs, client.sends)), clock);
            && status == out.status && entry == out.stored
            && client.delivered == old(client.delivered) + out.delivered
            && origin.received == old(origin.received) + out.consumed
            && origin.delivered == old(origin.delivered) + out.requested
    ensures status == Threw ==>
              client.sends == SendsLeft(r, old(World(connects, origin.sends, origin.recvs, client.sends)))
  {
    hide SendAllSpec, ErrorPage, RelayAll, ReadHead, Stoi;
    entry := None;
    if r.hostname == "" {
      status := SendErrorResponse(client, "400", "Bad Request");
      return;
    }
    if Stoi(Port(r)).None? {
      return Threw, None;
    }
    if !connects {
      status := SendErrorResponse(client, "502", "Bad Gateway");
      return;
    }
    var sent := origin.SendAll(r.raw);
    SendAllExact(r.raw, old(origin.sends));
    if sent == SendFailed {
      status := SendErrorResponse(client, "502", "Bad Gateway");
      return;
    }
    if sent == SendBlocked {
      return Pending, None;
    }
    var buffer := new char[BUFFER_SIZE];
    var response, blocked := ReadHeader(origin, buffer);
    if blocked {
      return Pending, None;
    }
    if response == "" {
      status := SendErrorResponse(client, "502", "Bad Gateway");
      return;
    }
    status, entry := RelayResponse(client, origin, r, clock, buffer, response);
  }

  lemma CaughtCases(r: Parsed, w: World, clock: Clock)
    ensures var out, page := Forward(r, w, clock), Reject("500", "Internal Server Error", SendsLeft(r, w));
            if out.status != Threw then Caught(r, w, clock) == out
            else
              && out.stored == None
              && Caught(r, w, clock) == Outcome(page.status, out.requested, out.consumed, out.delivered + page.delivered, None)
  {
    hide Forward;
    if Forward(r, w, clock).status == Threw {
      FailureStoresNothing(r, w, clock);
    }
  }

  /** Everything up to the `put` inside the `try` of `handle_connection`: what is thrown becomes an error
      page on the same socket, and nothing is stored. */
  method FetchAndCatch(client: Socket, origin: Socket, connects: bool, r: Parsed, clock: Clock)
    returns (status: Status, entry: Option<CacheEntry>)
    requires client != origin
    modifies client`sends, client`delivered, origin`recvs, origin`sends, origin`received, origin`delivered
    ensures var out := Caught(r, old(World(connects, origin.sends, origin.recvs, client.sends)), clock);
            && status == out.status && entry == out.stored
            && client.delivered == old(client.delivered) + out.delivered
            && origin.received == old(origin.received) + out.consumed
            && origin.delivered == old(origin.delivered) + out.requested
  {
    CaughtCases(r, World(connects, origin.sends, origin.recvs, client.sends), clock);
    hide *;
    status, entry := FetchAndRelay(client, origin, connects, r, clock);
    if status == Threw {
      status := SendErrorResponse(client, "500", "Internal Server Error");
    }
  }

  /** From the first byte sent to the client on. */
  method RelayResponse(
    client: Socket, origin: Socket, r: Parsed, clock: Clock, buffer: array<char>, response: Bytes)
    returns (status: Status, entry: Option<CacheEntry>)
    requires client != origin && buffer.Length == BUFFER_SIZE
    modifies client`sends, client`delivered, origin`recvs, origin`received, buffer
    ensures var out := RelayAll(r, Head(response, old(origin.recvs), false), old(client.sends), clock);
            && status == out.status && entry == out.stored
            && client.delivered == old(client.delivered) + out.delivered
            && out.requested == r.raw && response <= out.consumed
            && origin.received == old(origin.received) + out.consumed[|response|..]
    ensures status == Threw ==> client.sends == SendAllSpec(response, old(client.sends)).rest
  {
    hide StoreSpec, ContentLength, BodyOf, Contains, SendAllSpec;
    ghost var head := Head(response, origin.recvs, false);
    ghost var out := SendAllSpec(response, client.sends);
    var sent := client.SendAll(response);
    if sent == SendFailed {
      return Refused, None;
    }
    if sent == SendBlocked {
      return Pending, None;
    }
    var contentLength := ContentLength(response);
    if contentLength.None? {
      return Threw, None;
    }
    var framing := Framing(contentLength.value, Contains(response, CHUNKED),
                           Cacheable(r, response));
    var first := BodyOf(response);
    var kept, phase := RelayBody(origin, client, buffer, framing, first, BodyStart(r, head, out));
    BodyRunEnds(framing, BodyStart(r, head, out));
    match phase
    case ClientGone => return Refused, None;
    case Waiting => return Pending, None;
    case Done =>
      status, entry := Finished, None;
      if framing.cacheable {
        entry := BuildEntry(response, kept, clock);
      }
  }

  /** What a hit does to a client that was given something before. */
  lemma HitOrNot(
    r: Parsed, w: World, cached: Option<CacheEntry>, now: Tick, order: seq<string>, clock: Clock, given: Bytes)
    requires cached.Some? ==> IsOrder(order, cached.value.headers)
    ensures IsHit(cached, now) ==>
              && (forall k :: k in order ==> k in cached.value.headers)
              && var out := GetSpec(r, w, cached, now, order, clock);
                 var wire := EmitHeaders(cached.value, order) + cached.value.data;
                 && out.requested == "" && out.consumed == "" && out.stored == None
                 && given <= given + out.delivered <= given + wire
                 && (out.status == Finished <==> given + out.delivered == given + wire)
  {
    if IsHit(cached, now) {
      assert forall k :: k in order ==> k in cached.value.headers;
      GetServes(r, w, cached, now, order, clock);
      var out := GetSpec(r, w, cached, now, order, clock);
      var wire := EmitHeaders(cached.value, order) + cached.value.data;
      hide GetSpec, EmitHeaders;
      assert (given + out.delivered)[|given|..] == out.delivered && (given + wire)[|given|..] == wire;
    }
  }

  /** A GET: served from the cache, or forwarded on a miss or when the entry has expired.  `order` is
      the order in which the header map happens to be iterated. */
  method ProcessGetRequest(
    client: Socket, origin: Socket, connects: bool, r: Parsed, cache: Cache.Cache, clock: Clock,
    now: Tick, order: seq<string>)
    returns (status: Status)
    requires client != origin
    requires cache.Valid() && !cache.cacheMutex.writer && cache.cacheMutex.readers == 0
    requires var key := Key(r.hostname, r.uri);
             key in cache.cacheMap ==> IsOrder(order, cache.cacheMap[key].headers)
    modifies client`sends, client`delivered, origin`recvs, origin`sends, origin`received, origin`delivered
    modifies cache.cacheMutex`readers, cache.cacheMutex`writer, cache.cacheMutex`releases
    modifies cache`cacheMap, cache`keyToIterator, cache.accessOrder`head, cache.accessOrder`tail,
             cache.accessOrder`nodes, cache.accessOrder.nodes`prev, cache.accessOrder.nodes`next
    ensures var key := Key(r.hostname, r.uri);
            var out := GetSpec(r, old(World(connects, origin.sends, origin.recvs, client.sends)),
                               old(CacheSpec.Get(cache.Contents(), key)), now, order, clock);
            && status == out.status
            && client.delivered == old(client.delivered) + out.delivered
            && origin.received == old(origin.received) + out.consumed
            && origin.delivered == old(origin.delivered) + out.requested
            && cache.Valid() && !cache.cacheMutex.writer && cache.cacheMutex.readers == 0
            && cache.Contents() ==
               (match out.stored
                case None => old(cache.Contents())
                case Some(e) => CacheSpec.Put(cache.maxEntries, old(cache.Contents()), key, e))
    ensures var key := Key(r.hostname, r.uri);
            key in old(cache.cacheMap) && !old(cache.cacheMap)[key].IsExpired(now) ==>
              && origin.received == old(origin.received) && origin.delivered == old(origin.delivered)
              && cache.Contents() == old(cache.Contents())
              && IsOrder(order, old(cache.cacheMap)[key].headers)
              && var wire := EmitHeaders(old(cache.cacheMap)[key], order) + old(cache.cacheMap)[key].data;
                 && old(client.delivered) <= client.delivered <= old(client.delivered) + wire
                 && (status == Finished <==> client.delivered == old(client.delivered) + wire)
  {
    HitOrNot(r, World(connects, origin.sends, origin.recvs, client.sends),
             CacheSpec.Get(cache.Contents(), Key(r.hostname, r.uri)), now, order, clock, client.delivered);
    hide Forward, ServeSpec, CacheSpec.Put, Linking.Linked, EmitHeaders;
    var key := Key(r.hostname, r.uri);
    var cached := cache.Get(key);
    if cached.None? || cached.value.IsExpired(now) {
      status := ForwardRequest(client, origin, connects, r, cache, clock);
    } else {
      status := SendEntry(client, cached.value, order);
    }
  }

  /** What a hit does: header lines one by one into a text, the text, then the body. */
  method SendEntry(client: Socket, e: CacheEntry, order: seq<string>) returns (status: Status)
    requires IsOrder(order, e.headers)
    modifies client`sends, client`delivered
    ensures forall k :: k in order ==> k in e.headers
    ensures var out := ServeSpec(e, order, old(client.sends));
            && client.delivered == old(client.delivered) + out.delivered
            && status == match out.status case Sent => Finished case SendFailed => Refused case SendBlocked => Pending
  {
    assert forall k :: k in order ==> k in e.headers;
    var text := e.responseLine + CRLF;
    for i := 0 to |order|
      invariant text == e.responseLine + CRLF + HeaderText(order[..i], e.headers)
    {
      assert order[..i + 1][..i] == order[..i];
      text := text + order[i] + ": " + e.headers[order[i]] + CRLF;
    }
    assert order[..|order|] == order;
    text := text + CRLF;
    assert text == EmitHeaders(e, order);
    hide EmitHeaders, SendAllSpec;
    var sent := client.SendAll(text);
    if sent == Sent && e.data != "" {
      sent := client.SendAll(e.data);
    }
    status := match sent case Sent => Finished case SendFailed => Refused case SendBlocked => Pending;
  }
}
