/** `forwardRequest` (proxy/handler.cpp:296-514): fetch from the origin, relay to the client, and
    decide whether the response is stored.  The functions say what a run does on given schedules;
    the methods of Handler.dfy loop as the source does and are proved against them. */
module Relay {
  import opened CacheEntries
  import opened Text
  import opened Response
  import opened Request
  import opened Sockets
  import opened Numbers

  // ---------------------------------------------------------------- reading the header

  /** The first read loop: it stops at the header end, at the end of the stream, or on an error. */
  datatype Head = Head(bytes: Bytes, rest: seq<RecvEvent>, blocked: bool)

  function ReadHead(recvs: seq<RecvEvent>, sofar: Bytes): Head {
    if recvs == [] then Head(sofar, [], true)
    else
      match recvs[0]
      case Data(b) =>
        if Contains(sofar + b, HEADER_END) then Head(sofar + b, recvs[1..], false)
        else ReadHead(recvs[1..], sofar + b)
      case _ => Head(sofar, recvs[1..], false)
  }

  // ---------------------------------------------------------------- relaying the body

  datatype Phase = Reading | Done | ClientGone | Waiting

  /** The loop variables of the second read loop, and what the sockets have seen. */
  datatype Body = Body(
    recvs: seq<RecvEvent>, sends: seq<SendEvent>, consumed: Bytes, delivered: Bytes,
    buffer: Bytes, received: nat, phase: Phase)

  /** `content_length` as the `size_t` it is stored in, and the two flags. */
  datatype Framing = Framing(contentLength: nat, chunked: bool, cacheable: bool)

  const LAST_CHUNK := "0\r\n\r\n"

  predicate EndsWithLastChunk(b: Bytes) { |b| >= 5 && b[|b| - 5..] == LAST_CHUNK }

  /** The stop test after a successful read of `b`. */
  predicate Complete(f: Framing, received: nat, b: Bytes) {
    || (f.contentLength > 0 && !f.chunked && received >= f.contentLength)
    || (f.chunked && EndsWithLastChunk(b))
  }

  function BodyStep(f: Framing, s: Body): Body {
    if s.recvs == [] then s.(phase := Waiting)
    else
      match s.recvs[0]
      case Data(b) =>
        var out := SendAllSpec(b, s.sends);
        var s' := s.(recvs := s.recvs[1..], sends := out.rest, consumed := s.consumed + b,
                     delivered := s.delivered + out.delivered);
        (match out.status
         case SendFailed => s'.(phase := ClientGone)
         case SendBlocked => s'.(phase := Waiting)
         case Sent =>
           s'.(buffer := if f.cacheable then s.buffer + b else s.buffer,
               received := s.received + |b|,
               phase := if Complete(f, s.received + |b|, b) then Done else Reading))
      case _ => s.(recvs := s.recvs[1..], phase := Done)
  }

  function BodyRun(f: Framing, s: Body): Body
    decreases |s.recvs|, if s.phase == Reading then 1 else 0
  {
    if s.phase != Reading then s else BodyRun(f, BodyStep(f, s))
  }

  // ---------------------------------------------------------------- what is stored

  const STORED_HEADERS: seq<string> :=
    ["Content-Type", "Content-Length", "ETag", "Last-Modified", "Expires", "Cache-Control", "Date"]

  /** The listed headers that have a nonempty value. */
  function CopyHeaders(names: seq<string>, f: Fields): map<string, string> {
    if names == [] then map[]
    else
      var front, name := CopyHeaders(names[..|names| - 1], f), names[|names| - 1];
      if GetHeader(f, name) == "" then front else front[name := GetHeader(f, name)]
  }

  function EntryOf(f: Fields, responseLine: string, data: Bytes, created: Tick): CacheEntry {
    CacheEntry(data, responseLine, CopyHeaders(STORED_HEADERS, f), created, FromTimeT(f.expires),
               f.needValidate, f.values.etag, GetHeader(f, "Last-Modified"))
  }

  /** The two clock reads of a store: `time(NULL)` in the parser and `now()` for the entry. */
  datatype Clock = Clock(parsed: Tick, created: Tick, parseTime: DateParser)

  const OK_PREFIX := "HTTP/1.1 200"

  predicate Cacheable(r: Parsed, head: Bytes) { r.verb == "GET" && OK_PREFIX <= head }

  function ResponseLine(head: Bytes): string {
    match Find(head, CRLF)
    case None => head
    case Some(end) => head[..end]
  }

  /** The entry to put, if the response parses and is not `no-store`. */
  function StoreSpec(head: Bytes, data: Bytes, clock: Clock): Option<CacheEntry> {
    match ParseResponse(head, clock.parseTime, clock.parsed)
    case None => None
    case Some(f) =>
      if f.control.noStore then None else Some(EntryOf(f, ResponseLine(head), data, clock.created))
  }

  // ---------------------------------------------------------------- the whole function

  const LENGTH := "Content-Length: "
  const CHUNKED := "Transfer-Encoding: chunked"

  /** The text after the first "Content-Length: " anywhere in what was read, up to the end of its line
      or of the text. */
  function LengthText(head: Bytes): Option<string> {
    match Find(head, LENGTH)
    case None => None
    case Some(pos) =>
      match FindFrom(head, CRLF, pos + 16)
      case None => Some(head[pos + 16..])
      case Some(end) => Some(head[pos + 16..end])
  }

  /** `std::stoi` of that text, converted to `size_t`; 0 without one.  None: `stoi` throws. */
  function ContentLength(head: Bytes): Option<nat> {
    match LengthText(head)
    case None => Some(0)
    case Some(text) =>
      match Stoi(text)
      case None => None
      case Some(n) => Some(if n < 0 then n + TWO_TO_THE_64 else n)
  }

  function BodyOf(head: Bytes): Bytes {
    match Find(head, HEADER_END)
    case None => ""
    case Some(end) => head[end + 4..]
  }

  datatype Status = Finished | Refused | Threw | Pending

  /** What a run did: how it ended, what the origin was given, what was read from it, what the client was
      given, and the entry that was stored. */
  datatype Outcome = Outcome(
    status: Status, requested: Bytes, consumed: Bytes, delivered: Bytes, stored: Option<CacheEntry>)

  /** Everything outside the program that a run depends on. */
  datatype World = World(
    connects: bool, originSends: seq<SendEvent>, originRecvs: seq<RecvEvent>,
    clientSends: seq<SendEvent>)

  const PAGE_LINES := "Content-Type: text/plain\r\nConnection: close"

  function ErrorPage(code: string, message: string): Bytes {
    "HTTP/1.1 " + code + " " + message + CRLF + PAGE_LINES + HEADER_END + ("Error: " + message)
  }

  /** An error page is sent, whether or not it arrives, and the request has failed. */
  function Reject(code: string, message: string, sends: seq<SendEvent>): Outcome {
    var out := SendAllSpec(ErrorPage(code, message), sends);
    Outcome(if out.status == SendBlocked then Pending else Refused, "", "", out.delivered, None)
  }

  function Forward(r: Parsed, w: World, clock: Clock): Outcome {
    if r.hostname == "" then Reject("400", "Bad Request", w.clientSends)
    else if Stoi(Port(r)).None? then Outcome(Threw, "", "", "", None)
    else if !w.connects then Reject("502", "Bad Gateway", w.clientSends)
    else
      var asked := SendAllSpec(r.raw, w.originSends);
      match asked.status
      case SendFailed => Reject("502", "Bad Gateway", w.clientSends).(requested := asked.delivered)
      case SendBlocked => Outcome(Pending, asked.delivered, "", "", None)
      case Sent =>
        var head := ReadHead(w.originRecvs, "");
        if head.blocked then Outcome(Pending, r.raw, head.bytes, "", None)
        else if head.bytes == "" then Reject("502", "Bad Gateway", w.clientSends).(requested := r.raw)
        else RelayAll(r, head, w.clientSends, clock)
  }

  /** From the first byte sent to the client on. */
  function RelayAll(r: Parsed, head: Head, clientSends: seq<SendEvent>, clock: Clock): Outcome {
    var out := SendAllSpec(head.bytes, clientSends);
    if out.status != Sent then
      Outcome(if out.status == SendFailed then Refused else Pending, r.raw, head.bytes, out.delivered, None)
    else if ContentLength(head.bytes).None? then Outcome(Threw, r.raw, head.bytes, out.delivered, None)
    else
      var body := BodyRun(FramingOf(r, head.bytes), BodyStart(r, head, out));
      match body.phase
      case Done =>
        Outcome(Finished, r.raw, body.consumed, body.delivered,
                if Cacheable(r, head.bytes) then StoreSpec(head.bytes, body.buffer, clock) else None)
      case ClientGone => Outcome(Refused, r.raw, body.consumed, body.delivered, None)
      case _ => Outcome(Pending, r.raw, body.consumed, body.delivered, None)
  }

  function FramingOf(r: Parsed, head: Bytes): Framing
    requires ContentLength(head).Some?
  {
    Framing(ContentLength(head).value, Contains(head, CHUNKED), Cacheable(r, head))
  }

  /** The loop variables where the second loop begins. */
  function BodyStart(r: Parsed, head: Head, out: SendResult): Body {
    var first := BodyOf(head.bytes);
    Body(head.rest, out.rest, head.bytes, out.delivered,
         if Cacheable(r, head.bytes) then first else "", |first|, Reading)
  }

  // ---------------------------------------------------------------- theorems

  /** The bytes that arrive before the stream first pauses for good: an end or an error. */
  function LeadingData(recvs: seq<RecvEvent>): Bytes {
    if recvs == [] || !recvs[0].Data? then "" else recvs[0].bytes + LeadingData(recvs[1..])
  }

  /** The whole header arrived before the origin ended the stream or failed. */
  predicate HeaderArrives(w: World) { Contains(LeadingData(w.originRecvs), HEADER_END) }

  /** What is stored for a response, as a function of the whole byte stream alone. */
  function StoredFromStream(r: Parsed, stream: Bytes, clock: Clock): Option<CacheEntry> {
    match Find(stream, HEADER_END)
    case None => None
    case Some(end) =>
      if Cacheable(r, stream) then StoreSpec(stream[..end + 4], stream[end + 4..], clock) else None
  }

  lemma {:induction false} ReadHeadReads(recvs: seq<RecvEvent>, sofar: Bytes)
    requires !Contains(sofar, HEADER_END)
    ensures var head := ReadHead(recvs, sofar);
            && sofar <= head.bytes <= sofar + LeadingData(recvs)
            && (Contains(head.bytes, HEADER_END) <==> Contains(sofar + LeadingData(recvs), HEADER_END))
            && (Contains(head.bytes, HEADER_END) ==> !head.blocked)
  {
    if recvs == [] || !recvs[0].Data? {
      assert sofar + "" == sofar;
    } else {
      var b := recvs[0].bytes;
      var later := LeadingData(recvs[1..]);
      assert sofar + LeadingData(recvs) == (sofar + b) + later;
      if Contains(sofar + b, HEADER_END) {
        FindInLonger(sofar + b, later, HEADER_END);
      } else {
        ReadHeadReads(recvs[1..], sofar + b);
      }
    }
  }

  /** What every iteration of the body loop keeps: as long as the loop goes on, the client has been
      given everything read; the buffer is what was read after the header end. */
  ghost predicate BodyInv(f: Framing, head: Bytes, s: Body) {
    && head <= s.consumed
    && (s.phase in {Reading, Done} ==>
          && s.delivered == s.consumed
          && s.received == |BodyOf(head)| + |s.consumed| - |head|
          && s.buffer == if f.cacheable then BodyOf(head) + s.consumed[|head|..] else "")
    && s.delivered <= s.consumed
    && (s.phase == ClientGone ==> s.delivered != s.consumed)
  }

  lemma BodyStepInv(f: Framing, head: Bytes, s: Body)
    requires BodyInv(f, head, s) && s.phase == Reading
    ensures BodyInv(f, head, BodyStep(f, s))
  {
    if s.recvs != [] && s.recvs[0].Data? {
      var b := s.recvs[0].bytes;
      SendAllExact(b, s.sends);
      assert (s.consumed + b)[|head|..] == s.consumed[|head|..] + b;
      assert BodyOf(head) + s.consumed[|head|..] + b == BodyOf(head) + (s.consumed[|head|..] + b);
    }
  }

  lemma {:induction false} BodyRunInv(f: Framing, head: Bytes, s: Body)
    requires BodyInv(f, head, s)
    ensures BodyInv(f, head, BodyRun(f, s)) && BodyRun(f, s).phase != Reading
    decreases |s.recvs|, if s.phase == Reading then 1 else 0
  {
    if s.phase == Reading {
      BodyStepInv(f, head, s);
      BodyRunInv(f, head, BodyStep(f, s));
    }
  }

  /** The body loop ends in some phase other than reading, and only adds to what was seen before. */
  lemma {:induction false} BodyRunEnds(f: Framing, s: Body)
    ensures BodyRun(f, s).phase != Reading
    ensures s.consumed <= BodyRun(f, s).consumed && s.delivered <= BodyRun(f, s).delivered
    decreases |s.recvs|, if s.phase == Reading then 1 else 0
  {
    if s.phase == Reading {
      BodyRunEnds(f, BodyStep(f, s));
    }
  }

  lemma BodyStartInv(r: Parsed, head: Head, sends: seq<SendEvent>)
    requires SendAllSpec(head.bytes, sends).status == Sent && ContentLength(head.bytes).Some?
    ensures BodyInv(FramingOf(r, head.bytes), head.bytes,
                    BodyStart(r, head, SendAllSpec(head.bytes, sends)))
  {
    SendAllExact(head.bytes, sends);
  }

  /** Text after the header end has no influence on what the parser and the store make of it. */
  lemma StoreReadsHeaderOnly(head: Bytes, data: Bytes, clock: Clock)
    requires Contains(head, HEADER_END)
    ensures StoreSpec(head, data, clock)
            == StoreSpec(head[..Find(head, HEADER_END).value + 4], data, clock)
  {
    var end := Find(head, HEADER_END).value;
    var block, rest := head[..end + 4], head[end + 4..];
    assert head == block + rest;
    assert At(block, HEADER_END, end) by { assert block[end..end + 4] == head[end..end + 4]; }
    FindInLonger(block, rest, HEADER_END);
    assert block[..end] == head[..end];
    assert At(block, CRLF, end) by { assert block[end..end + 2] == block[end..end + 4][..2]; }
    FindInLonger(block, rest, CRLF);
    var line := Find(block, CRLF).value;
    assert block[..line] == head[..line];
  }

  /** A stream that begins with the status prefix shows it in any part that holds a header end. */
  lemma PrefixShows(r: Parsed, head: Bytes, stream: Bytes)
    requires head <= stream && Contains(head, HEADER_END)
    ensures Cacheable(r, head) <==> Cacheable(r, stream)
  {
    var end := Find(head, HEADER_END).value;
    assert stream[end] == head[end..end + 4][0] == '\r';
    assert forall i :: 0 <= i < |OK_PREFIX| ==> OK_PREFIX[i] != '\r';
    assert OK_PREFIX <= stream ==> end >= |OK_PREFIX|;
  }

  lemma CutAtHeaderEnd(head: Bytes, stream: Bytes)
    requires head <= stream && Contains(head, HEADER_END)
    ensures Find(stream, HEADER_END) == Find(head, HEADER_END)
    ensures var end := Find(head, HEADER_END).value;
            && head[..end + 4] == stream[..end + 4]
            && BodyOf(head) + stream[|head|..] == stream[end + 4..]
  {
    assert stream == head + stream[|head|..];
    FindInLonger(head, stream[|head|..], HEADER_END);
  }

  lemma RelayedStore(
    r: Parsed, head: Bytes, stream: Bytes, data: Bytes, clock: Clock)
    requires head <= stream && Contains(head, HEADER_END)
    requires data == BodyOf(head) + stream[|head|..]
    ensures (if Cacheable(r, head) then StoreSpec(head, data, clock) else None)
            == StoredFromStream(r, stream, clock)
  {
    CutAtHeaderEnd(head, stream);
    PrefixShows(r, head, stream);
    StoreReadsHeaderOnly(head, data, clock);
    hide StoreSpec, Cacheable, BodyOf;
  }

  /** The part of a run from the first byte sent to the client on, if it ends well. */
  lemma RelaySuccess(r: Parsed, head: Head, clientSends: seq<SendEvent>, clock: Clock)
    requires RelayAll(r, head, clientSends, clock).status == Finished
    ensures var out := RelayAll(r, head, clientSends, clock);
            && out.requested == r.raw && out.delivered == out.consumed && head.bytes <= out.consumed
            && out.stored == if Cacheable(r, head.bytes)
                             then StoreSpec(head.bytes, BodyOf(head.bytes) + out.consumed[|head.bytes|..], clock)
                             else None
  {
    hide StoreSpec, ContentLength, Cacheable;
    var sent := SendAllSpec(head.bytes, clientSends);
    BodyStartInv(r, head, clientSends);
    BodyRunInv(FramingOf(r, head.bytes), head.bytes, BodyStart(r, head, sent));
  }

  /** Transparency: a run that ends well has given the client exactly the bytes read from the
      origin, and what it stores depends only on those bytes, not on how they were cut into chunks
      or how the sends went. */
  lemma Transparent(r: Parsed, w: World, clock: Clock)
    requires Forward(r, w, clock).status == Finished
    ensures var out := Forward(r, w, clock);
            && out.requested == r.raw && out.delivered == out.consumed
            && out.stored == if HeaderArrives(w) then StoredFromStream(r, out.consumed, clock) else None
  {
    var head := ReadHead(w.originRecvs, "");
    ReadHeadReads(w.originRecvs, "");
    assert "" + LeadingData(w.originRecvs) == LeadingData(w.originRecvs);
    hide RelayAll, ReadHead, Cacheable, BodyOf, LeadingData, StoredFromStream;
    RelaySuccess(r, head, w.clientSends, clock);
    var out := RelayAll(r, head, w.clientSends, clock);
    if HeaderArrives(w) {
      RelayedStore(r, head.bytes, out.consumed, BodyOf(head.bytes) + out.consumed[|head.bytes|..], clock);
    }
  }

  /** Two runs that end well and read the same bytes give their clients the same, whatever the chunks,
      the partial sends and the interruptions.  They also agree in what they store, except in one case:
      the bytes are worth storing and a failed read cut the header of just one of the runs. */
  lemma SameBytesSameResult(r: Parsed, w1: World, w2: World, clock: Clock)
    requires Forward(r, w1, clock).status == Finished && Forward(r, w2, clock).status == Finished
    requires Forward(r, w1, clock).consumed == Forward(r, w2, clock).consumed
    ensures Forward(r, w1, clock).delivered == Forward(r, w2, clock).delivered
    ensures Forward(r, w1, clock) == Forward(r, w2, clock) <==>
              || (HeaderArrives(w1) <==> HeaderArrives(w2))
              || StoredFromStream(r, Forward(r, w1, clock).consumed, clock) == None
  {
    Transparent(r, w1, clock);
    Transparent(r, w2, clock);
    hide *;
  }

  /** The header end is found where it is in the whole stream, also when chunks cut through it. */
  lemma HeaderEndInStream(w: World)
    requires HeaderArrives(w)
    ensures var head := ReadHead(w.originRecvs, "");
            !head.blocked && Find(head.bytes, HEADER_END) == Find(LeadingData(w.originRecvs), HEADER_END)
  {
    var head, all := ReadHead(w.originRecvs, ""), LeadingData(w.originRecvs);
    ReadHeadReads(w.originRecvs, "");
    assert "" + all == all;
    hide ReadHead, LeadingData, Contains, Find;
    assert head.bytes + all[|head.bytes|..] == all;
    FindInLonger(head.bytes, all[|head.bytes|..], HEADER_END);
  }

  /** The part of a run from the first byte sent to the client on: what the client has is a prefix
      of what was read, a proper one if a send failed. */
  lemma RelayFailure(r: Parsed, head: Head, clientSends: seq<SendEvent>, clock: Clock)
    requires RelayAll(r, head, clientSends, clock).status != Finished
    ensures var out := RelayAll(r, head, clientSends, clock);
            && out.stored == None && head.bytes <= out.consumed && out.delivered <= out.consumed
            && (out.status == Refused ==> out.delivered != out.consumed)
  {
    hide StoreSpec, ContentLength, Cacheable;
    SendAllExact(head.bytes, clientSends);
    var sent := SendAllSpec(head.bytes, clientSends);
    if sent.status == Sent && ContentLength(head.bytes).Some? {
      BodyStartInv(r, head, clientSends);
      BodyRunInv(FramingOf(r, head.bytes), head.bytes, BodyStart(r, head, sent));
    }
  }

  /** The body loop gives the client up exactly if something read was not all delivered and a send has
      failed.  If it waits with everything delivered, then the origin has sent nothing more. */
  lemma {:induction false} BodyRefused(f: Framing, s: Body)
    requires s.phase == Reading && s.delivered == s.consumed
    ensures var e := BodyRun(f, s);
            && (e.phase == ClientGone <==> e.delivered != e.consumed && FAILURE in s.sends)
            && (e.phase == Waiting && e.delivered == e.consumed ==>
                  && e.consumed == s.consumed + LeadingData(s.recvs)
                  && forall i :: 0 <= i < |s.recvs| ==> s.recvs[i].Data?)
    decreases |s.recvs|
  {
    var s' := BodyStep(f, s);
    if s.recvs == [] {
      assert s.consumed + "" == s.consumed;
    } else if s.recvs[0].Data? {
      var b := s.recvs[0].bytes;
      SendAllExact(b, s.sends);
      FailuresLeft(b, s.sends);
      hide SendAllSpec, Complete;
      if s'.phase == Reading {
        BodyRefused(f, s');
        assert s.consumed + LeadingData(s.recvs) == s'.consumed + LeadingData(s.recvs[1..]);
        assert forall i :: 0 < i < |s.recvs| ==> s.recvs[i] == s.recvs[1..][i - 1];
      }
    }
  }

  /** How a run that relays can fail to end: it is refused exactly if something read was not all delivered
      and a send to the client has failed; it waits for the client exactly if something was not all
      delivered and no send has; and it waits for the origin only if that has sent nothing more. */
  lemma RelayRefused(r: Parsed, head: Head, sends: seq<SendEvent>, clock: Clock)
    ensures var out := RelayAll(r, head, sends, clock);
            && (out.status == Refused <==> out.delivered != out.consumed && FAILURE in sends)
            && (out.status == Pending && out.delivered != out.consumed <==>
                  out.delivered != out.consumed && FAILURE !in sends)
            && (out.status == Pending && out.delivered == out.consumed ==>
                  && out.consumed == head.bytes + LeadingData(head.rest)
                  && forall i :: 0 <= i < |head.rest| ==> head.rest[i].Data?)
  {
    SendAllExact(head.bytes, sends);
    FailuresLeft(head.bytes, sends);
    var first := SendAllSpec(head.bytes, sends);
    hide SendAllSpec, StoreSpec, ContentLength, Cacheable, LeadingData, FramingOf, BodyRun;
    if first.status == Sent && ContentLength(head.bytes).Some? {
      var f, s := FramingOf(r, head.bytes), BodyStart(r, head, first);
      BodyStartInv(r, head, sends);
      BodyRunInv(f, head.bytes, s);
      BodyRefused(f, s);
    }
  }

  /** A run that does not end well stores nothing.  If it had relayed anything, the client has a
      prefix of what was read, a proper one if a send failed; otherwise at most an error page. */
  lemma FailureStoresNothing(r: Parsed, w: World, clock: Clock)
    requires Forward(r, w, clock).status != Finished
    ensures var out := Forward(r, w, clock);
            && out.stored == None
            && (out.consumed != "" ==>
                  out.delivered <= out.consumed && (out.status == Refused ==> out.delivered != out.consumed))
            && (out.consumed == "" ==>
                  out.delivered <= ErrorPage("400", "Bad Request")
                  || out.delivered <= ErrorPage("502", "Bad Gateway"))
  {
    SendAllExact(ErrorPage("400", "Bad Request"), w.clientSends);
    SendAllExact(ErrorPage("502", "Bad Gateway"), w.clientSends);
    var head := ReadHead(w.originRecvs, "");
    hide RelayAll, ErrorPage, ReadHead, Stoi;
    if RelayAll(r, head, w.clientSends, clock).status != Finished {
      RelayFailure(r, head, w.clientSends, clock);
    }
  }

  // ---------------------------------------------------------------- how much of the stream is read

  /** Read `i` of a schedule completes the body, although the stream goes on. */
  ghost predicate StopsAt(f: Framing, received: nat, recvs: seq<RecvEvent>, i: nat) {
    && i + 1 < |recvs| && (forall j :: 0 <= j <= i + 1 ==> recvs[j].Data?)
    && Complete(f, received + |LeadingData(recvs[..i + 1])|, recvs[i].bytes)
  }

  ghost predicate StopsEarly(f: Framing, received: nat, recvs: seq<RecvEvent>) {
    exists i: nat :: StopsAt(f, received, recvs, i)
  }

  lemma StopsAtShift(f: Framing, received: nat, recvs: seq<RecvEvent>, i: nat)
    requires recvs != [] && recvs[0].Data?
    ensures StopsAt(f, received, recvs, i + 1)
            <==> StopsAt(f, received + |recvs[0].bytes|, recvs[1..], i)
  {
    if i + 2 < |recvs| {
      var first := recvs[..i + 2];
      assert first[0] == recvs[0] && first[1..] == recvs[1..][..i + 1];
      assert LeadingData(first) == recvs[0].bytes + LeadingData(first[1..]);
      assert forall j :: 0 <= j <= i + 1 ==> recvs[1..][j] == recvs[j + 1];
      assert forall j :: 0 < j <= i + 2 ==> recvs[j] == recvs[1..][j - 1];
    }
  }

  lemma StopsEarlyStep(f: Framing, received: nat, recvs: seq<RecvEvent>)
    requires recvs != [] && recvs[0].Data?
    ensures var b, rest := recvs[0].bytes, recvs[1..];
            StopsEarly(f, received, recvs) <==>
              || (LeadingData(rest) != "" && Complete(f, received + |b|, b))
              || StopsEarly(f, received + |b|, rest)
  {
    var b, rest := recvs[0].bytes, recvs[1..];
    assert LeadingData(rest) != "" <==> rest != [] && rest[0].Data?;
    assert LeadingData([recvs[0]]) == b + LeadingData([]) == b by { assert [recvs[0]][1..] == []; }
    assert recvs[..1] == [recvs[0]];
    assert StopsAt(f, received, recvs, 0) <==> LeadingData(rest) != "" && Complete(f, received + |b|, b);
    hide LeadingData, Complete, StopsAt;
    if StopsEarly(f, received, recvs) {
      var i: nat :| StopsAt(f, received, recvs, i);
      if i > 0 {
        StopsAtShift(f, received, recvs, i - 1);
      }
    }
    if StopsEarly(f, received + |b|, rest) {
      var i: nat :| StopsAt(f, received + |b|, rest, i);
      StopsAtShift(f, received, recvs, i);
    }
  }

  /** A body loop that ends well has read a prefix of the rest of the stream, and all of it exactly if no
      read before the last one completed the body. */
  lemma {:induction false} BodyReads(f: Framing, s: Body)
    requires s.phase == Reading && BodyRun(f, s).phase == Done
    ensures var end, all := BodyRun(f, s).consumed, s.consumed + LeadingData(s.recvs);
            end <= all && (end == all <==> !StopsEarly(f, s.received, s.recvs))
    decreases |s.recvs|
  {
    var s' := BodyStep(f, s);
    if s.recvs == [] || !s.recvs[0].Data? {
      assert BodyRun(f, s) == BodyRun(f, s') == s';
      assert s.consumed + "" == s.consumed;
    } else {
      var b, rest := s.recvs[0].bytes, s.recvs[1..];
      StopsEarlyStep(f, s.received, s.recvs);
      assert s'.phase in {Reading, Done};
      assert s.consumed + LeadingData(s.recvs) == s'.consumed + LeadingData(rest);
      hide StopsEarly, SendAllSpec;
      if s'.phase == Reading {
        BodyReads(f, s');
      } else {
        NoStopAfterEnd(f, s.received + |b|, rest);
      }
    }
  }

  lemma NoStopAfterEnd(f: Framing, received: nat, recvs: seq<RecvEvent>)
    ensures LeadingData(recvs) == "" ==> !StopsEarly(f, received, recvs)
  {
    if LeadingData(recvs) == "" {
      assert recvs == [] || !recvs[0].Data?;
    }
  }

  lemma {:induction false} ReadHeadLeaves(recvs: seq<RecvEvent>, sofar: Bytes)
    requires !Contains(sofar, HEADER_END) && Contains(ReadHead(recvs, sofar).bytes, HEADER_END)
    ensures var head := ReadHead(recvs, sofar);
            sofar + LeadingData(recvs) == head.bytes + LeadingData(head.rest)
  {
    if recvs != [] && recvs[0].Data? {
      var b := recvs[0].bytes;
      assert sofar + LeadingData(recvs) == (sofar + b) + LeadingData(recvs[1..]);
      if !Contains(sofar + b, HEADER_END) {
        ReadHeadLeaves(recvs[1..], sofar + b);
      }
    }
  }

  /** The framing that the run takes from what its first loop read, and whether a read of its second
      loop completes the body before the stream ends. */
  ghost predicate RunStopsEarly(r: Parsed, w: World) {
    var head := ReadHead(w.originRecvs, "");
    ContentLength(head.bytes).Some?
    && StopsEarly(FramingOf(r, head.bytes), |BodyOf(head.bytes)|, head.rest)
  }

  lemma RelayedReads(r: Parsed, head: Head, sends: seq<SendEvent>, clock: Clock)
    requires RelayAll(r, head, sends, clock).status == Finished
    ensures ContentLength(head.bytes).Some?
    ensures var end, all := RelayAll(r, head, sends, clock).consumed, head.bytes + LeadingData(head.rest);
            && end <= all
            && (end == all <==> !StopsEarly(FramingOf(r, head.bytes), |BodyOf(head.bytes)|, head.rest))
  {
    hide StoreSpec, Cacheable, ContentLength, StopsEarly, LeadingData;
    var framing, start := FramingOf(r, head.bytes), BodyStart(r, head, SendAllSpec(head.bytes, sends));
    hide SendAllSpec;
    BodyReads(framing, start);
  }

  lemma OnlyRelaysFinish(r: Parsed, w: World, clock: Clock)
    requires Forward(r, w, clock).status == Finished
    ensures var head := ReadHead(w.originRecvs, "");
            !head.blocked && Forward(r, w, clock) == RelayAll(r, head, w.clientSends, clock)
  {
    hide RelayAll, ReadHead, SendAllSpec, ErrorPage, Stoi;
  }

  /** What the first loop reads is the beginning of the stream, and the rest is left to the second. */
  lemma HeadOfStream(w: World)
    requires HeaderArrives(w)
    ensures var head, stream := ReadHead(w.originRecvs, ""), LeadingData(w.originRecvs);
            && head.bytes <= stream && Contains(head.bytes, HEADER_END)
            && stream == head.bytes + LeadingData(head.rest)
  {
    var stream := LeadingData(w.originRecvs);
    ReadHeadReads(w.originRecvs, "");
    assert "" + stream == stream;
    ReadHeadLeaves(w.originRecvs, "");
  }

  lemma EarlyMeans(r: Parsed, w: World)
    ensures var head := ReadHead(w.originRecvs, "");
            ContentLength(head.bytes).Some? ==>
              (RunStopsEarly(r, w) <==> StopsEarly(FramingOf(r, head.bytes), |BodyOf(head.bytes)|, head.rest))
  {}

  /** For every stream and every way to cut it: a run that gets the whole header and ends well has read
      and relayed a prefix of the stream, and all of it exactly if no read before the last one completed
      the body.  What it stores is what that prefix gives. */
  lemma StreamRead(r: Parsed, w: World, clock: Clock)
    requires Forward(r, w, clock).status == Finished && HeaderArrives(w)
    ensures var out, stream := Forward(r, w, clock), LeadingData(w.originRecvs);
            && out.delivered == out.consumed <= stream
            && (out.consumed == stream <==> !RunStopsEarly(r, w))
            && out.stored == StoredFromStream(r, out.consumed, clock)
  {
    Transparent(r, w, clock);
    OnlyRelaysFinish(r, w, clock);
    hide *;
    HeadOfStream(w);
    RelayedReads(r, ReadHead(w.originRecvs, ""), w.clientSends, clock);
    EarlyMeans(r, w);
  }

  // ---------------------------------------------------------------- streams that are cut without effect

  /** The header of a stream, its end included. */
  function HeaderOfStream(stream: Bytes): Bytes {
    match Find(stream, HEADER_END)
    case None => ""
    case Some(end) => stream[..end + 4]
  }

  /** A pattern that is in the header, or nowhere, is found the same however much was read behind it. */
  predicate Settled(stream: Bytes, pattern: string) {
    Contains(HeaderOfStream(stream), pattern) || !Contains(stream, pattern)
  }

  lemma ContainsInLonger(s: string, t: string, pattern: string)
    requires s <= t && Contains(s, pattern)
    ensures Contains(t, pattern)
  {
    assert t == s + t[|s|..];
    FindInLonger(s, t[|s|..], pattern);
  }

  lemma HeaderInside(head: Bytes, stream: Bytes)
    requires head <= stream && Contains(head, HEADER_END)
    ensures HeaderOfStream(head) == HeaderOfStream(stream) <= head
    ensures Find(head, HEADER_END) == Find(stream, HEADER_END)
  {
    CutAtHeaderEnd(head, stream);
  }

  lemma SettledContains(head: Bytes, stream: Bytes, pattern: string)
    requires head <= stream && Contains(head, HEADER_END) && Settled(stream, pattern)
    ensures Contains(head, pattern) <==> Contains(HeaderOfStream(stream), pattern)
  {
    HeaderInside(head, stream);
    hide HeaderOfStream, Contains;
    if Contains(HeaderOfStream(stream), pattern) {
      ContainsInLonger(HeaderOfStream(stream), head, pattern);
    } else if Contains(head, pattern) {
      ContainsInLonger(head, stream, pattern);
    }
  }

  lemma AtInLonger(s: string, t: string, pattern: string, i: nat)
    requires s <= t && i + |pattern| <= |s|
    ensures At(t, pattern, i) <==> At(s, pattern, i)
  {
    assert t[..|s|] == s;
    assert t[i..i + |pattern|] == t[..|s|][i..i + |pattern|];
  }

  /** The first occurrence at or after a position stays where it is in a longer text. */
  lemma FindFromInLonger(s: string, t: string, pattern: string, start: nat)
    requires s <= t && start <= |s| && FindFrom(s, pattern, start).Some?
    ensures FindFrom(t, pattern, start) == FindFrom(s, pattern, start)
  {
    var k := FindFrom(s, pattern, start).value;
    assert k + |pattern| <= |s|;
    forall i: nat | i <= k ensures At(t, pattern, i) <==> At(s, pattern, i) {
      AtInLonger(s, t, pattern, i);
    }
    hide At, FindFrom;
    FindFromIs(t, pattern, start, k);
  }

  /** A Content-Length line in the header has its end there, too. */
  lemma LengthLineEnds(header: Bytes, end: nat)
    requires At(header, HEADER_END, end) && |header| == end + 4 && Contains(header, LENGTH)
    ensures var start := Find(header, LENGTH).value + 16;
            start <= end && FindFrom(header, CRLF, start).Some?
  {
    var pos := Find(header, LENGTH).value;
    var last := pos + 15;
    assert header[pos..pos + 16][15] == LENGTH[15] == ' ' && header[last] == ' ';
    forall k | end <= k < end + 4 ensures header[k] != ' ' {
      assert header[end..end + 4][k - end] == HEADER_END[k - end] != ' ';
    }
    assert last < end;
    assert header[end..end + 2] == header[end..end + 4][..2] == CRLF;
    assert At(header, CRLF, end);
  }

  lemma LengthTextInLonger(header: Bytes, end: nat, head: Bytes)
    requires At(header, HEADER_END, end) && |header| == end + 4 && header <= head && Contains(header, LENGTH)
    ensures LengthText(head) == LengthText(header)
  {
    LengthLineEnds(header, end);
    assert head == header + head[|header|..];
    FindInLonger(header, head[|header|..], LENGTH);
    var start := Find(header, LENGTH).value + 16;
    FindFromInLonger(header, head, CRLF, start);
    var stop := FindFrom(header, CRLF, start).value;
    assert head[..|header|] == header;
    assert head[start..stop] == head[..|header|][start..stop];
    hide Find, FindFrom, Contains;
  }

  /** The length taken from a head is that of the header alone, however much was read with it. */
  lemma SettledLength(head: Bytes, stream: Bytes)
    requires head <= stream && Contains(head, HEADER_END) && Settled(stream, LENGTH)
    ensures ContentLength(head) == ContentLength(HeaderOfStream(stream))
  {
    SettledContains(head, stream, LENGTH);
    HeaderInside(head, stream);
    var header := HeaderOfStream(stream);
    if Contains(header, LENGTH) {
      HeaderEnds(stream);
      hide *;
      LengthTextInLonger(header, Find(stream, HEADER_END).value, head);
    }
    hide Stoi, HeaderOfStream, Settled;
  }

  lemma HeaderEnds(stream: Bytes)
    requires Contains(stream, HEADER_END)
    ensures var header, end := HeaderOfStream(stream), Find(stream, HEADER_END).value;
            |header| == end + 4 && At(header, HEADER_END, end)
  {
    var header, end := HeaderOfStream(stream), Find(stream, HEADER_END).value;
    AtInLonger(header, stream, HEADER_END, end);
  }

  lemma {:induction false} LeadingPrefixShorter(recvs: seq<RecvEvent>, i: nat)
    requires i + 1 < |recvs| && forall j :: 0 <= j <= i + 1 ==> recvs[j].Data?
    ensures |LeadingData(recvs[..i + 1])| < |LeadingData(recvs)|
  {
    var first := recvs[..i + 1];
    assert first[0] == recvs[0] && first[1..] == recvs[1..][..i];
    assert recvs[1..] != [] && recvs[1..][0] == recvs[1];
    if i > 0 {
      LeadingPrefixShorter(recvs[1..], i - 1);
    }
  }

  /** The header says how the body ends in the same way for every cut of the stream, and it is not
      chunked: either it gives no length, or the stream has no more body than it says. */
  predicate PlainBody(stream: Bytes) {
    var header := HeaderOfStream(stream);
    && Settled(stream, LENGTH) && Settled(stream, CHUNKED) && !Contains(header, CHUNKED)
    && match ContentLength(header)
       case None => false
       case Some(n) => n == 0 || |BodyOf(stream)| <= n
  }

  lemma PlainNeverStops(r: Parsed, head: Head, stream: Bytes)
    requires head.bytes <= stream && Contains(head.bytes, HEADER_END) && PlainBody(stream)
    requires stream == head.bytes + LeadingData(head.rest)
    ensures ContentLength(head.bytes).Some?
    ensures !StopsEarly(FramingOf(r, head.bytes), |BodyOf(head.bytes)|, head.rest)
  {
    SettledLength(head.bytes, stream);
    SettledContains(head.bytes, stream, CHUNKED);
    CutAtHeaderEnd(head.bytes, stream);
    assert stream[|head.bytes|..] == LeadingData(head.rest);
    BodyFollows(stream);
    var f, received := FramingOf(r, head.bytes), |BodyOf(head.bytes)|;
    assert |BodyOf(stream)| == received + |LeadingData(head.rest)|;
    hide ContentLength, Contains, BodyOf, LeadingData, HeaderOfStream, Cacheable, Settled;
    forall i: nat ensures !StopsAt(f, received, head.rest, i) {
      if StopsAt(f, received, head.rest, i) {
        LeadingPrefixShorter(head.rest, i);
      }
    }
  }

  lemma BodyFollows(stream: Bytes)
    requires Contains(stream, HEADER_END)
    ensures BodyOf(stream) == stream[Find(stream, HEADER_END).value + 4..]
  {}

  /** A stream with a plain body is read, relayed and stored whole, however it is cut. */
  lemma WholeStream(r: Parsed, w: World, clock: Clock)
    requires Forward(r, w, clock).status == Finished && HeaderArrives(w)
    requires PlainBody(LeadingData(w.originRecvs))
    ensures var out, stream := Forward(r, w, clock), LeadingData(w.originRecvs);
            && out.consumed == out.delivered == stream
            && out.stored == StoredFromStream(r, stream, clock)
  {
    hide *;
    StreamRead(r, w, clock);
    HeadOfStream(w);
    PlainNeverStops(r, ReadHead(w.originRecvs, ""), LeadingData(w.originRecvs));
    EarlyMeans(r, w);
  }

  /** Read `i` has the bytes of a last chunk at its end, and there is more to read. */
  ghost predicate LastChunkAt(recvs: seq<RecvEvent>, i: nat) {
    && i + 1 < |recvs| && (forall j :: 0 <= j <= i + 1 ==> recvs[j].Data?)
    && EndsWithLastChunk(recvs[i].bytes)
  }

  lemma ChunkedStops(f: Framing, received: nat, recvs: seq<RecvEvent>)
    requires f.chunked
    ensures StopsEarly(f, received, recvs) <==> exists i: nat :: LastChunkAt(recvs, i)
  {
    hide EndsWithLastChunk, LeadingData;
    if StopsEarly(f, received, recvs) {
      var i: nat :| StopsAt(f, received, recvs, i);
      assert LastChunkAt(recvs, i);
    }
    if i: nat :| LastChunkAt(recvs, i) {
      assert StopsAt(f, received, recvs, i);
    }
  }

  lemma ChunkedFraming(r: Parsed, w: World)
    requires HeaderArrives(w) && Contains(HeaderOfStream(LeadingData(w.originRecvs)), CHUNKED)
    requires ContentLength(ReadHead(w.originRecvs, "").bytes).Some?
    ensures FramingOf(r, ReadHead(w.originRecvs, "").bytes).chunked
  {
    HeadOfStream(w);
    var head, stream := ReadHead(w.originRecvs, "").bytes, LeadingData(w.originRecvs);
    SettledContains(head, stream, CHUNKED);
    hide Contains, ContentLength, Cacheable, LeadingData, ReadHead, HeaderOfStream;
  }

  /** A stream whose header says it is chunked is read short of its end exactly if some read of the body,
      with more to follow, ends in the bytes of a last chunk.  Where reads end is not for the origin to
      say, so the same stream may be read and stored whole or in part. */
  lemma ChunkedStream(r: Parsed, w: World, clock: Clock)
    requires Forward(r, w, clock).status == Finished && HeaderArrives(w)
    requires Contains(HeaderOfStream(LeadingData(w.originRecvs)), CHUNKED)
    ensures Forward(r, w, clock).consumed != LeadingData(w.originRecvs) <==>
              exists i: nat :: LastChunkAt(ReadHead(w.originRecvs, "").rest, i)
  {
    hide *;
    var head := ReadHead(w.originRecvs, "");
    StreamRead(r, w, clock);
    OnlyRelaysFinish(r, w, clock);
    RelayedReads(r, head, w.clientSends, clock);
    EarlyMeans(r, w);
    ChunkedFraming(r, w);
    ChunkedStops(FramingOf(r, head.bytes), |BodyOf(head.bytes)|, head.rest);
  }

  /** Segmentation independence: two runs on the same stream, cut in any two ways.  If both end well they
      agree in everything exactly if they read the same, which they do if neither is stopped by a read
      before its last; and that is so whenever the body is plain. */
  lemma SegmentationIndependence(r: Parsed, w1: World, w2: World, clock: Clock)
    requires Forward(r, w1, clock).status == Finished && Forward(r, w2, clock).status == Finished
    requires LeadingData(w1.originRecvs) == LeadingData(w2.originRecvs)
    ensures Forward(r, w1, clock) == Forward(r, w2, clock)
            <==> Forward(r, w1, clock).consumed == Forward(r, w2, clock).consumed
    ensures HeaderArrives(w1) && !RunStopsEarly(r, w1) && !RunStopsEarly(r, w2) ==>
              Forward(r, w1, clock) == Forward(r, w2, clock)
    ensures HeaderArrives(w1) && PlainBody(LeadingData(w1.originRecvs)) ==>
              Forward(r, w1, clock) == Forward(r, w2, clock)
  {
    assert HeaderArrives(w1) <==> HeaderArrives(w2);
    hide *;
    Transparent(r, w1, clock);
    Transparent(r, w2, clock);
    if HeaderArrives(w1) {
      StreamRead(r, w1, clock);
      StreamRead(r, w2, clock);
      if PlainBody(LeadingData(w1.originRecvs)) {
        WholeStream(r, w1, clock);
        WholeStream(r, w2, clock);
      }
    }
  }

  // ---------------------------------------------------------------- the length and the end of a body

  /** Digits and the end of their line behind them: the line ends there and nowhere before. */
  lemma DigitsToLineEnd(head: Bytes, text: string, start: nat)
    requires At(head, text + "\r\n", start) && AllDigits(text)
    ensures start + |text| <= |head| && head[start..start + |text|] == text
    ensures FindFrom(head, "\r\n", start) == Some(start + |text|)
  {
    AtParts(head, text, "\r\n", start);
    var stop := start + |text|;
    assert head[start..stop] == text;
    forall i: nat | start <= i < stop ensures !At(head, "\r\n", i) {
      assert head[i] == text[i - start] && text[i - start] in text;
      if i + 2 <= |head| { assert head[i..i + 2][0] == head[i]; }
    }
    hide At, FindFrom, IsDigit;
    FindFromIs(head, "\r\n", start, stop);
  }

  lemma LengthTextRead(head: Bytes, pos: nat, text: string)
    requires Find(head, "Content-Length: ") == Some(pos)
    requires At(head, text + "\r\n", pos + 16) && AllDigits(text)
    ensures LengthText(head) == Some(text)
  {
    DigitsToLineEnd(head, text, pos + 16);
    hide At, Find, FindFrom, AllDigits;
  }

  /** The number in the text is the number used: the first Content-Length line with digits up to its end. */
  lemma LengthRead(head: Bytes, pos: nat, n: nat)
    requires Find(head, "Content-Length: ") == Some(pos) && n < 0x8000_0000
    requires At(head, DecimalText(n) + "\r\n", pos + 16)
    ensures ContentLength(head) == Some(n)
  {
    hide FindFrom, Find, DecimalText, At, Stoi, LengthText, IsDigit, Decimal;
    DecimalParsed(n);
    LengthTextRead(head, pos, DecimalText(n));
    DecimalStoi(n);
  }

  /** There is no length exactly without such a line, or with the number 0 in the first one. */
  lemma NoLength(head: Bytes)
    ensures ContentLength(head) == Some(0) <==>
              match Find(head, "Content-Length: ")
              case None => true
              case Some(pos) =>
                match FindFrom(head, "\r\n", pos + 16)
                case None => Stoi(head[pos + 16..]) == Some(0)
                case Some(end) => Stoi(head[pos + 16..end]) == Some(0)
  {
    hide Stoi, Find, FindFrom;
  }

  /** A last chunk at the end is just that. */
  lemma LastChunkEnds(b: Bytes)
    ensures EndsWithLastChunk(b) <==> exists a: Bytes :: b == a + "0\r\n\r\n"
  {
    if EndsWithLastChunk(b) {
      assert b == b[..|b| - 5] + "0\r\n\r\n";
    }
    if a: Bytes :| b == a + "0\r\n\r\n" {
      assert b[|b| - 5..] == "0\r\n\r\n";
    }
  }

  // ---------------------------------------------------------------- what the first loop reads

  lemma LeadingStep(sofar: Bytes, recvs: seq<RecvEvent>, j: nat)
    requires 0 < j <= |recvs| && recvs[0].Data?
    ensures sofar + LeadingData(recvs[..j]) == sofar + recvs[0].bytes + LeadingData(recvs[1..][..j - 1])
  {
    assert recvs[..j][0] == recvs[0] && recvs[..j][1..] == recvs[1..][..j - 1];
    var b, rest := recvs[0].bytes, LeadingData(recvs[1..][..j - 1]);
    assert sofar + (b + rest) == sofar + b + rest;
  }

  /** What the first loop has done after `k` events: it stops with the first read after which there is a
      header end; or with the first event that is no read; or it is still waiting for more. */
  ghost predicate HeadAfter(recvs: seq<RecvEvent>, sofar: Bytes, head: Head, k: nat) {
    && k <= |recvs| && head.rest == recvs[k..]
    && if head.blocked then
         && k == |recvs| && (forall i :: 0 <= i < k ==> recvs[i].Data?)
         && head.bytes == sofar + LeadingData(recvs[..k]) && !Contains(head.bytes, HEADER_END)
       else
         && k > 0 && (forall i :: 0 <= i < k - 1 ==> recvs[i].Data?)
         && !Contains(sofar + LeadingData(recvs[..k - 1]), HEADER_END)
         && head.bytes == sofar + LeadingData(recvs[..k])
         && (recvs[k - 1].Data? <==> Contains(head.bytes, HEADER_END))
  }

  lemma HeadAfterShift(recvs: seq<RecvEvent>, sofar: Bytes, head: Head, k: nat)
    requires recvs != [] && recvs[0].Data? && !Contains(sofar + recvs[0].bytes, HEADER_END)
    requires HeadAfter(recvs[1..], sofar + recvs[0].bytes, head, k)
    ensures HeadAfter(recvs, sofar, head, k + 1)
  {
    hide Contains, LeadingData;
    LeadingStep(sofar, recvs, k + 1);
    if k > 0 {
      LeadingStep(sofar, recvs, k);
    }
    assert forall i :: 0 < i < |recvs| ==> recvs[i] == recvs[1..][i - 1];
    assert recvs[1..][k..] == recvs[k + 1..];
  }

  lemma HeadAfterFirst(recvs: seq<RecvEvent>, sofar: Bytes)
    requires recvs != [] && !Contains(sofar, HEADER_END)
    requires recvs[0].Data? ==> Contains(sofar + recvs[0].bytes, HEADER_END)
    ensures HeadAfter(recvs, sofar, ReadHead(recvs, sofar), 1)
  {
    var first := [recvs[0]];
    assert recvs[..0] == [] && recvs[..1] == first && first[1..] == [] && sofar + "" == sofar;
    hide Contains;
    if recvs[0].Data? {
      assert LeadingData(first) == recvs[0].bytes + "" == recvs[0].bytes;
    }
  }

  /** The first loop, event by event. */
  lemma {:induction false} ReadHeadSteps(recvs: seq<RecvEvent>, sofar: Bytes)
    requires !Contains(sofar, HEADER_END)
    ensures exists k: nat :: HeadAfter(recvs, sofar, ReadHead(recvs, sofar), k)
  {
    if recvs == [] {
      assert sofar + "" == sofar;
      assert HeadAfter(recvs, sofar, ReadHead(recvs, sofar), 0);
    } else if recvs[0].Data? && !Contains(sofar + recvs[0].bytes, HEADER_END) {
      var b, rest := recvs[0].bytes, recvs[1..];
      ReadHeadSteps(rest, sofar + b);
      var head := ReadHead(rest, sofar + b);
      assert ReadHead(recvs, sofar) == head;
      hide ReadHead, Contains, HeadAfter;
      var k: nat :| HeadAfter(rest, sofar + b, head, k);
      HeadAfterShift(recvs, sofar, head, k);
    } else {
      HeadAfterFirst(recvs, sofar);
    }
  }

  // ---------------------------------------------------------------- runs that end well

  /** Event `i` of a schedule ends the second loop: the stream ends there, or the read completes the body. */
  ghost predicate EndsBody(f: Framing, received: nat, recvs: seq<RecvEvent>, i: nat) {
    && i < |recvs| && (forall j :: 0 <= j < i ==> recvs[j].Data?)
    && (recvs[i].Data? ==> Complete(f, received + |LeadingData(recvs[..i + 1])|, recvs[i].bytes))
  }

  ghost predicate BodyHasEnd(f: Framing, received: nat, recvs: seq<RecvEvent>) {
    exists i: nat :: EndsBody(f, received, recvs, i)
  }

  lemma EndsBodyShift(f: Framing, received: nat, recvs: seq<RecvEvent>, i: nat)
    requires recvs != [] && recvs[0].Data?
    ensures EndsBody(f, received, recvs, i + 1) <==> EndsBody(f, received + |recvs[0].bytes|, recvs[1..], i)
  {
    if i + 1 < |recvs| {
      LeadingStep("", recvs, i + 2);
      assert forall j :: 0 < j < |recvs| ==> recvs[j] == recvs[1..][j - 1];
      assert forall j :: 0 <= j < |recvs| - 1 ==> recvs[1..][j] == recvs[j + 1];
    }
    hide Complete, LeadingData;
  }

  lemma BodyEndStep(f: Framing, received: nat, recvs: seq<RecvEvent>)
    requires recvs != [] && recvs[0].Data?
    ensures var b := recvs[0].bytes;
            BodyHasEnd(f, received, recvs)
            <==> Complete(f, received + |b|, b) || BodyHasEnd(f, received + |b|, recvs[1..])
  {
    var b, rest := recvs[0].bytes, recvs[1..];
    LeadingStep("", recvs, 1);
    assert rest[..0] == [] && "" + b + "" == b;
    assert EndsBody(f, received, recvs, 0) <==> Complete(f, received + |b|, b);
    hide EndsBody, Complete, LeadingData;
    if BodyHasEnd(f, received, recvs) {
      var i: nat :| EndsBody(f, received, recvs, i);
      if i > 0 {
        EndsBodyShift(f, received, recvs, i - 1);
      }
    }
    if BodyHasEnd(f, received + |b|, rest) {
      var i: nat :| EndsBody(f, received + |b|, rest, i);
      EndsBodyShift(f, received, recvs, i);
    }
  }

  /** With a client that takes everything, the second loop ends well exactly if the schedule has an end for
      it, and is otherwise waiting for more. */
  lemma {:induction false} BodyCompletes(f: Framing, s: Body)
    requires s.phase == Reading && FAILURE !in s.sends && Accepts(s.sends) >= |LeadingData(s.recvs)|
    ensures BodyRun(f, s).phase == if BodyHasEnd(f, s.received, s.recvs) then Done else Waiting
    decreases |s.recvs|
  {
    var s' := BodyStep(f, s);
    if s.recvs == [] {
      assert BodyRun(f, s) == s';
    } else if s.recvs[0].Data? {
      var b := s.recvs[0].bytes;
      PatientSends(b, s.sends);
      BodyEndStep(f, s.received, s.recvs);
      assert |LeadingData(s.recvs)| == |b| + |LeadingData(s.recvs[1..])|;
      hide SendAllSpec, BodyHasEnd, Accepts;
      if s'.phase == Reading {
        BodyCompletes(f, s');
      }
    } else {
      assert BodyRun(f, s) == s';
      assert EndsBody(f, s.received, s.recvs, 0);
    }
  }

  /** A client that takes everything, and a head whose length can be read: the run ends well exactly if
      what the origin sends has an end. */
  lemma RelayCompletes(r: Parsed, head: Head, sends: seq<SendEvent>, clock: Clock)
    requires FAILURE !in sends && Accepts(sends) >= |head.bytes| + |LeadingData(head.rest)|
    requires ContentLength(head.bytes).Some?
    ensures RelayAll(r, head, sends, clock).status ==
            if BodyHasEnd(FramingOf(r, head.bytes), |BodyOf(head.bytes)|, head.rest) then Finished else Pending
  {
    PatientSends(head.bytes, sends);
    hide SendAllSpec, StoreSpec, ContentLength, BodyHasEnd, Accepts, LeadingData;
    BodyCompletes(FramingOf(r, head.bytes), BodyStart(r, head, SendAllSpec(head.bytes, sends)));
  }

  /** In particular a response that says its length: the run ends well as soon as that many bytes of the
      body have come with at least one read behind the head, on a connection that stays open, too. */
  lemma LengthCompletes(r: Parsed, head: Head, sends: seq<SendEvent>, clock: Clock, pos: nat, n: nat)
    requires FAILURE !in sends && Accepts(sends) >= |head.bytes| + |LeadingData(head.rest)|
    requires Find(head.bytes, "Content-Length: ") == Some(pos) && 0 < n < 0x8000_0000
    requires At(head.bytes, DecimalText(n) + "\r\n", pos + 16)
    requires !Contains(head.bytes, "Transfer-Encoding: chunked")
    requires head.rest != [] && forall i :: 0 <= i < |head.rest| ==> head.rest[i].Data?
    ensures RelayAll(r, head, sends, clock).status
            == if |BodyOf(head.bytes)| + |LeadingData(head.rest)| >= n then Finished else Pending
  {
    LengthRead(head.bytes, pos, n);
    RelayCompletes(r, head, sends, clock);
    var f := FramingOf(r, head.bytes);
    assert f.contentLength == n && !f.chunked;
    hide *;
    LengthEnds(f, |BodyOf(head.bytes)|, head.rest);
  }

  lemma LengthEnds(f: Framing, received: nat, recvs: seq<RecvEvent>)
    requires f.contentLength > 0 && !f.chunked
    requires recvs != [] && forall i :: 0 <= i < |recvs| ==> recvs[i].Data?
    ensures BodyHasEnd(f, received, recvs) <==> received + |LeadingData(recvs)| >= f.contentLength
  {
    hide LeadingData;
    assert recvs[..|recvs|] == recvs;
    if received + |LeadingData(recvs)| >= f.contentLength {
      assert EndsBody(f, received, recvs, |recvs| - 1);
    } else {
      forall i: nat ensures !EndsBody(f, received, recvs, i) {
        if i + 1 < |recvs| {
          LeadingPrefixShorter(recvs, i);
        }
      }
    }
  }

  /** The second loop ended with event `k - 1` of a schedule: the first that ends the stream or completes
      the body. */
  ghost predicate EndedAfter(f: Framing, received: nat, recvs: seq<RecvEvent>, k: nat) {
    && 0 < k <= |recvs| && EndsBody(f, received, recvs, k - 1)
    && forall i: nat :: i < k - 1 ==> !EndsBody(f, received, recvs, i)
  }

  /** A second loop that ends well ends with the first event that can end it, and has read what comes up
      to there. */
  lemma {:induction false} BodyEndsFirst(f: Framing, s: Body)
    requires s.phase == Reading && BodyRun(f, s).phase == Done
    ensures exists k: nat ::
              EndedAfter(f, s.received, s.recvs, k)
              && BodyRun(f, s).consumed == s.consumed + LeadingData(s.recvs[..k])
    decreases |s.recvs|
  {
    var s', recvs := BodyStep(f, s), s.recvs;
    if recvs != [] && recvs[0].Data? && s'.phase == Reading {
      var rest := recvs[1..];
      BodyEndsFirst(f, s');
      BodyGoesOn(f, s);
      hide BodyStep, BodyRun, EndedAfter, LeadingData;
      var k: nat :| EndedAfter(f, s'.received, rest, k) && BodyRun(f, s').consumed == s'.consumed + LeadingData(rest[..k]);
      EndedWithin(f, s'.received, rest, k);
      LeadingStep(s.consumed, recvs, k + 1);
      EndedShift(f, s.received, recvs, k);
    } else {
      BodyEndsAtOnce(f, s);
    }
  }

  lemma EndedWithin(f: Framing, received: nat, recvs: seq<RecvEvent>, k: nat)
    requires EndedAfter(f, received, recvs, k)
    ensures 0 < k <= |recvs|
  {}

  /** A read that does not end the second loop. */
  lemma BodyGoesOn(f: Framing, s: Body)
    requires s.phase == Reading && s.recvs != [] && s.recvs[0].Data? && BodyStep(f, s).phase == Reading
    ensures var s' := BodyStep(f, s);
            && BodyRun(f, s) == BodyRun(f, s') && s'.recvs == s.recvs[1..]
            && s'.consumed == s.consumed + s.recvs[0].bytes && s'.received == s.received + |s.recvs[0].bytes|
            && !EndsBody(f, s.received, s.recvs, 0)
  {
    FirstData(s.recvs);
    hide SendAllSpec, Complete, LeadingData;
  }

  lemma FirstData(recvs: seq<RecvEvent>)
    requires recvs != []
    ensures LeadingData(recvs[..1]) == if recvs[0].Data? then recvs[0].bytes else ""
  {
    var first := recvs[..1];
    assert first[0] == recvs[0] && first[1..] == [];
    assert recvs[0].Data? ==> recvs[0].bytes + "" == recvs[0].bytes;
  }

  lemma BodyEndsAtOnce(f: Framing, s: Body)
    requires s.phase == Reading && BodyRun(f, s).phase == Done
    requires s.recvs == [] || !s.recvs[0].Data? || BodyStep(f, s).phase != Reading
    ensures EndedAfter(f, s.received, s.recvs, 1)
    ensures BodyRun(f, s).consumed == s.consumed + LeadingData(s.recvs[..1])
  {
    assert BodyRun(f, s) == BodyStep(f, s) && s.recvs != [];
    FirstData(s.recvs);
    assert s.consumed + "" == s.consumed;
    hide SendAllSpec, Complete, LeadingData;
  }

  lemma EndedShift(f: Framing, received: nat, recvs: seq<RecvEvent>, k: nat)
    requires recvs != [] && recvs[0].Data? && !EndsBody(f, received, recvs, 0)
    requires EndedAfter(f, received + |recvs[0].bytes|, recvs[1..], k)
    ensures EndedAfter(f, received, recvs, k + 1)
  {
    hide EndsBody;
    EndsBodyShift(f, received, recvs, k - 1);
    forall i: nat | i < k ensures !EndsBody(f, received, recvs, i) {
      if i > 0 {
        EndsBodyShift(f, received, recvs, i - 1);
      }
    }
  }

  lemma {:induction false} LeadingLength(recvs: seq<RecvEvent>)
    requires forall i :: 0 <= i < |recvs| ==> recvs[i].Data?
    ensures |LeadingData(recvs)| >= |recvs|
  {
    if recvs != [] {
      LeadingLength(recvs[1..]);
    }
  }

  /** After `k` events and not before, a body of length `n` is complete or its stream has ended. */
  ghost predicate LengthReached(received: nat, recvs: seq<RecvEvent>, n: nat, k: nat) {
    && 0 < k <= |recvs| && (k == 1 || k <= n - received)
    && (forall i :: 0 <= i < k - 1 ==> recvs[i].Data?)
    && (k > 1 ==> received + |LeadingData(recvs[..k - 1])| < n)
    && (recvs[k - 1].Data? ==> received + |LeadingData(recvs[..k])| >= n)
  }

  /** A response that says its length `n`, relayed to the end: the second loop used at least one event and
      at most `n` less what had come before, it went on while the body was short of `n`, and it ended
      because `n` bytes had come or because the stream had ended. */
  lemma LengthStops(r: Parsed, head: Head, sends: seq<SendEvent>, clock: Clock, pos: nat, n: nat)
    requires RelayAll(r, head, sends, clock).status == Finished
    requires Find(head.bytes, "Content-Length: ") == Some(pos) && 0 < n < 0x8000_0000
    requires At(head.bytes, DecimalText(n) + "\r\n", pos + 16)
    requires !Contains(head.bytes, "Transfer-Encoding: chunked")
    ensures exists k: nat ::
              && LengthReached(|BodyOf(head.bytes)|, head.rest, n, k)
              && RelayAll(r, head, sends, clock).consumed == head.bytes + LeadingData(head.rest[..k])
  {
    LengthRead(head.bytes, pos, n);
    var f, start := FramingOf(r, head.bytes), BodyStart(r, head, SendAllSpec(head.bytes, sends));
    hide SendAllSpec, ContentLength, Contains, Find, DecimalText, At, StoreSpec, LeadingData, EndsBody;
    assert RelayAll(r, head, sends, clock).consumed == BodyRun(f, start).consumed;
    BodyEndsFirst(f, start);
    hide BodyRun, RelayAll;
    var k: nat :| EndedAfter(f, start.received, head.rest, k)
                  && BodyRun(f, start).consumed == head.bytes + LeadingData(head.rest[..k]);
    LengthEnded(f, start.received, head.rest, k);
  }

  lemma LengthEnded(f: Framing, received: nat, recvs: seq<RecvEvent>, k: nat)
    requires f.contentLength > 0 && !f.chunked && EndedAfter(f, received, recvs, k)
    ensures LengthReached(received, recvs, f.contentLength, k)
  {
    hide LeadingData;
    if k > 1 {
      assert !EndsBody(f, received, recvs, k - 2);
      LeadingLength(recvs[..k - 1]);
    }
  }

  // ---------------------------------------------------------------- what is stored, and why not

  /** Exactly which runs store something: those that end well, of a GET, with a header that arrived and
      begins with "HTTP/1.1 200", that parses and is not refused by its Cache-Control. */
  lemma StoresExactly(r: Parsed, w: World, clock: Clock)
    ensures var out := Forward(r, w, clock);
            out.stored.Some? <==>
              && out.status == Finished && r.verb == "GET" && HeaderArrives(w)
              && "HTTP/1.1 200" <= out.consumed
              && var f := ParseResponse(HeaderOfStream(out.consumed), clock.parseTime, clock.parsed);
                 f.Some? && !f.value.control.noStore
  {
    var out := Forward(r, w, clock);
    hide *;
    if out.status == Finished {
      Transparent(r, w, clock);
      if HeaderArrives(w) {
        HeadInConsumed(r, w, clock);
        StreamStores(r, out.consumed, clock);
      }
    } else {
      FailureStoresNothing(r, w, clock);
    }
  }

  lemma StreamStores(r: Parsed, stream: Bytes, clock: Clock)
    requires Contains(stream, HEADER_END)
    ensures StoredFromStream(r, stream, clock).Some? <==>
              && r.verb == "GET" && "HTTP/1.1 200" <= stream
              && var f := ParseResponse(HeaderOfStream(stream), clock.parseTime, clock.parsed);
                 f.Some? && !f.value.control.noStore
  {
    hide ParseResponse, ResponseLine, EntryOf;
  }

  lemma HeadInConsumed(r: Parsed, w: World, clock: Clock)
    requires Forward(r, w, clock).status == Finished && HeaderArrives(w)
    ensures Contains(Forward(r, w, clock).consumed, HEADER_END)
  {
    OnlyRelaysFinish(r, w, clock);
    HeadOfStream(w);
    var head, out := ReadHead(w.originRecvs, ""), Forward(r, w, clock);
    RelaySuccess(r, head, w.clientSends, clock);
    hide Contains, RelayAll, Forward, ReadHead;
    ContainsInLonger(head.bytes, out.consumed, HEADER_END);
  }

  /** Everything that the origin has sent so far has been read, and the header has not ended. */
  ghost predicate HeadWaits(recvs: seq<RecvEvent>) {
    (forall i :: 0 <= i < |recvs| ==> recvs[i].Data?) && !Contains(LeadingData(recvs), "\r\n\r\n")
  }

  lemma BlockedHead(recvs: seq<RecvEvent>)
    ensures var head := ReadHead(recvs, "");
            && (head.blocked <==> HeadWaits(recvs))
            && (head.blocked ==> head.bytes == LeadingData(recvs))
  {
    ReadHeadSteps(recvs, "");
    var head := ReadHead(recvs, "");
    var k: nat :| HeadAfter(recvs, "", head, k);
    assert recvs[..|recvs|] == recvs;
    assert forall i :: 0 <= i <= |recvs| ==> "" + LeadingData(recvs[..i]) == LeadingData(recvs[..i]);
    ReadHeadReads(recvs, "");
    assert "" + LeadingData(recvs) == LeadingData(recvs);
    hide ReadHead, LeadingData, Contains;
  }

  /** How a run that has read something can fail to end.  While the header has not ended the client has
      nothing and the run waits.  From then on it is refused exactly if something read was not all
      delivered and a send to the client has failed; without such a failure it waits for the client; and
      with everything delivered it waits only for an origin that has sent nothing more. */
  lemma RefusedExactly(r: Parsed, w: World, clock: Clock)
    requires Forward(r, w, clock).consumed != ""
    ensures var out := Forward(r, w, clock);
            if HeadWaits(w.originRecvs) then
              out.status == Pending && out.delivered == "" && out.consumed == LeadingData(w.originRecvs)
            else
              && (out.status == Refused <==> out.delivered != out.consumed && FAILURE in w.clientSends)
              && (out.delivered != out.consumed && FAILURE !in w.clientSends ==> out.status == Pending)
  {
    var head := ReadHead(w.originRecvs, "");
    BlockedHead(w.originRecvs);
    RelayRefused(r, head, w.clientSends, clock);
    hide SendAllSpec, Stoi, ErrorPage, ReadHead, HeadWaits, LeadingData, RelayAll;
  }

  /** The client is given the page as far as its sends allow; the run has failed unless they wait. */
  ghost predicate PageGiven(out: Outcome, page: Bytes, sends: seq<SendEvent>) {
    && out.delivered == SendAllSpec(page, sends).delivered
    && out.status == if NeverDone(|page|, sends) then Pending else Refused
  }

  lemma RejectGives(code: string, message: string, sends: seq<SendEvent>)
    ensures PageGiven(Reject(code, message, sends), ErrorPage(code, message), sends)
  {
    SendAllStatus(ErrorPage(code, message), sends);
    hide SendAllSpec, Succeeds, Fails, Taken;
  }

  /** A run that reads nothing from the origin, and why: no hostname gives the client a 400 page, a port
      that is no number throws, and no connection, a request that cannot be sent or an origin that answers
      nothing gives it a 502 page.  Otherwise the run is waiting, for the origin to take the request or to
      answer. */
  lemma NothingComesBack(r: Parsed, w: World, clock: Clock)
    requires Forward(r, w, clock).consumed == ""
    ensures var out := Forward(r, w, clock);
            var bad, gateway := ErrorPage("400", "Bad Request"), ErrorPage("502", "Bad Gateway");
            if r.hostname == "" then PageGiven(out, bad, w.clientSends) && out.requested == ""
            else if Stoi(Port(r)).None? then out.delivered == "" && out.status == Threw && out.requested == ""
            else if !w.connects then PageGiven(out, gateway, w.clientSends) && out.requested == ""
            else if r.raw != "" && Fails(|r.raw|, w.originSends) then
              PageGiven(out, gateway, w.clientSends) && out.requested < r.raw
            else if r.raw != "" && NeverDone(|r.raw|, w.originSends) then
              out.delivered == "" && out.status == Pending && out.requested < r.raw
            else
              && out.requested == r.raw
              && if w.originRecvs == [] then out.delivered == "" && out.status == Pending
                 else PageGiven(out, gateway, w.clientSends) && !w.originRecvs[0].Data?
  {
    var head := ReadHead(w.originRecvs, "");
    RejectGives("400", "Bad Request", w.clientSends);
    RejectGives("502", "Bad Gateway", w.clientSends);
    SendAllExact(r.raw, w.originSends);
    if r.raw != "" {
      SendAllStatus(r.raw, w.originSends);
    }
    HeadOfNothing(w.originRecvs);
    hide SendAllSpec, Stoi, ErrorPage, Fails, NeverDone, ReadHead, Succeeds, Reject;
    if !head.blocked && head.bytes != "" {
      RelayReadsHead(r, head, w.clientSends, clock);
    }
    hide RelayAll;
  }

  lemma HeadOfNothing(recvs: seq<RecvEvent>)
    ensures var head := ReadHead(recvs, "");
            && (head.bytes == "" <==> recvs == [] || !recvs[0].Data?)
            && (head.bytes == "" ==> (head.blocked <==> recvs == []))
  {
    if recvs != [] && recvs[0].Data? && !Contains("" + recvs[0].bytes, HEADER_END) {
      ReadHeadReads(recvs[1..], "" + recvs[0].bytes);
    }
  }

  lemma RelayReadsHead(r: Parsed, head: Head, sends: seq<SendEvent>, clock: Clock)
    ensures head.bytes <= RelayAll(r, head, sends, clock).consumed
  {
    hide SendAllSpec, ContentLength, StoreSpec, Cacheable;
    if ContentLength(head.bytes).Some? {
      BodyRunEnds(FramingOf(r, head.bytes), BodyStart(r, head, SendAllSpec(head.bytes, sends)));
    }
  }

  // ---------------------------------------------------------------- what the connection sees

  /** The client's schedule where `stoi` throws: on the port nothing has been sent yet, on the
      Content-Length the whole head has. */
  function SendsLeft(r: Parsed, w: World): seq<SendEvent> {
    if Stoi(Port(r)).None? then w.clientSends
    else SendAllSpec(ReadHead(w.originRecvs, "").bytes, w.clientSends).rest
  }

  /** A forwarding run as the client's connection sees it: `handle_connection` catches what the run
      throws and sends an error page on the same socket. */
  function Caught(r: Parsed, w: World, clock: Clock): Outcome {
    var out := Forward(r, w, clock);
    if out.status != Threw then out
    else
      var page := Reject("500", "Internal Server Error", SendsLeft(r, w));
      Outcome(page.status, out.requested, out.consumed, out.delivered + page.delivered, None)
  }

  /** The run gets as far as sending what it has read to the client. */
  predicate Relays(r: Parsed, w: World) {
    var head := ReadHead(w.originRecvs, "");
    && r.hostname != "" && Stoi(Port(r)).Some? && w.connects
    && SendAllSpec(r.raw, w.originSends).status == Sent
    && !head.blocked && head.bytes != ""
  }

  /** Once it relays, a run throws exactly if the head arrived and its Content-Length is no number. */
  lemma ThrowsExactly(r: Parsed, w: World, clock: Clock)
    requires Relays(r, w)
    ensures var head := ReadHead(w.originRecvs, "").bytes;
            var out := Forward(r, w, clock);
            && (out.status == Threw <==>
                  SendAllSpec(head, w.clientSends).status == Sent && ContentLength(head).None?)
            && (out.status == Threw ==> out.consumed == head && out.delivered == head)
  {
    var head := ReadHead(w.originRecvs, "");
    SendAllExact(head.bytes, w.clientSends);
    hide StoreSpec, ContentLength, Cacheable, ReadHead, Stoi, SendAllSpec, BodyRun, BodyOf;
  }

  /** What the connection gives the client of a run that relays is a prefix of what was read from the
      origin, except that an error page follows the head where `stoi` throws on its Content-Length. */
  lemma CaughtDelivers(r: Parsed, w: World, clock: Clock)
    requires Relays(r, w)
    ensures var head := ReadHead(w.originRecvs, "").bytes;
            var out := Caught(r, w, clock);
            var page := SendAllSpec(ErrorPage("500", "Internal Server Error"), SendsLeft(r, w)).delivered;
            if SendAllSpec(head, w.clientSends).status == Sent && ContentLength(head).None? then
              && out.consumed == head && out.delivered == head + page
              && page <= ErrorPage("500", "Internal Server Error")
              && (out.delivered <= out.consumed <==> page == "")
            else out.delivered <= out.consumed
  {
    ThrowsExactly(r, w, clock);
    SendAllExact(ErrorPage("500", "Internal Server Error"), SendsLeft(r, w));
    hide StoreSpec, ContentLength, Cacheable, Stoi, SendAllSpec, BodyRun, BodyOf, ErrorPage, SendsLeft, RelayAll;
    var head := ReadHead(w.originRecvs, "");
    var out := Forward(r, w, clock);
    if out.status == Finished {
      Transparent(r, w, clock);
    } else if out.status != Threw {
      RelayFailure(r, head, w.clientSends, clock);
    }
    hide ReadHead;
  }

  // ---------------------------------------------------------------- progress of the body loop

  /** Successful reads in a schedule. */
  function Reads(recvs: seq<RecvEvent>): nat {
    if recvs == [] then 0 else Reads(recvs[1..]) + if recvs[0].Data? then 1 else 0
  }

  /** The last event of `before` that is no longer in its tail `after`: the last one consumed. */
  ghost predicate LastReadWasEnd(before: seq<RecvEvent>, after: seq<RecvEvent>) {
    && |after| < |before|
    && !before[|before| - |after| - 1].Data?
  }

  /** With a positive Content-Length N and no chunked marker the loop ends after at most
      max(1, N - received) successful reads: N - received is a measure that every read lowers.  A
      normal end means that N body bytes were read or that the origin ended the stream. */
  lemma {:induction false} BodyProgress(f: Framing, s: Body)
    requires f.contentLength > 0 && !f.chunked && s.phase == Reading
    ensures var end := BodyRun(f, s);
            && |end.recvs| <= |s.recvs|
            && Reads(s.recvs) - Reads(end.recvs)
               <= (if f.contentLength > s.received then f.contentLength - s.received else 1)
            && (end.phase == Done ==>
                  end.received >= f.contentLength || LastReadWasEnd(s.recvs, end.recvs))
    decreases |s.recvs|
  {
    if s.recvs != [] {
      var s' := BodyStep(f, s);
      if s'.phase == Reading {
        BodyProgress(f, s');
        var end := BodyRun(f, s');
        if LastReadWasEnd(s'.recvs, end.recvs) {
          assert s'.recvs[|s'.recvs| - |end.recvs| - 1] == s.recvs[|s.recvs| - |end.recvs| - 1];
        }
      }
    }
  }
}
