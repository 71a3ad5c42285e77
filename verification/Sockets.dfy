/** Sockets as oracles, and `sendAll` (proxy/handler.cpp:46-62).  A schedule lists what successive
    `recv` or `send` calls will do.  Schedules are finite: where one ends, the run being described is
    still inside that call, so results about all schedules are results about all prefixes of runs. */
module Sockets {
  import opened CacheEntries

  const BUFFER_SIZE := 8192

  type Bytes = string

  /** What one successful `recv` into the buffer can yield. */
  type Chunk = c: Bytes | 1 <= |c| <= BUFFER_SIZE witness "x"

  datatype RecvEvent = Data(bytes: Chunk) | Closed | RecvError

  type Positive = n: nat | n > 0 witness 1

  /** One `send`: the kernel takes up to `n` bytes, or the call returns no bytes. */
  datatype SendEvent = Accept(n: Positive) | Refuse(interrupted: bool)

  datatype SendStatus = Sent | SendFailed | SendBlocked

  datatype SendResult = SendResult(status: SendStatus, delivered: Bytes, rest: seq<SendEvent>)

  /** What `sendAll` delivers: it retries after a partial or interrupted send and stops at the first
      other failure. */
  function SendAllSpec(data: Bytes, sends: seq<SendEvent>): SendResult {
    if data == "" then SendResult(Sent, "", sends)
    else if sends == [] then SendResult(SendBlocked, "", [])
    else
      match sends[0]
      case Accept(n) =>
        var m := if n < |data| then n else |data|;
        var r := SendAllSpec(data[m..], sends[1..]);
        r.(delivered := data[..m] + r.delivered)
      case Refuse(interrupted) =>
        if interrupted then SendAllSpec(data, sends[1..])
        else SendResult(SendFailed, "", sends[1..])
  }

  /** Whatever the schedule, the peer receives a prefix of the data, and all of it exactly when
      `sendAll` succeeds. */
  lemma {:induction false} SendAllExact(data: Bytes, sends: seq<SendEvent>)
    ensures var r := SendAllSpec(data, sends);
            r.delivered <= data && (r.status == Sent <==> r.delivered == data)
  {
    if data != "" && sends != [] {
      match sends[0]
      case Accept(n) =>
        var m := if n < |data| then n else |data|;
        SendAllExact(data[m..], sends[1..]);
        assert data == data[..m] + data[m..];
      case Refuse(interrupted) => SendAllExact(data, sends[1..]);
    }
  }

  /** How many bytes a schedule of sends takes at most. */
  function Taken(sends: seq<SendEvent>): nat {
    if sends == [] then 0 else (if sends[0].Accept? then sends[0].n else 0) + Taken(sends[1..])
  }

  lemma {:induction false} TakenConcat(a: seq<SendEvent>, b: seq<SendEvent>)
    ensures Taken(a + b) == Taken(a) + Taken(b)
  {
    if a == [] {
      assert a + b == b;
    } else {
      assert (a + b)[1..] == a[1..] + b;
      TakenConcat(a[1..], b);
    }
  }

  const FAILURE := Refuse(false)

  /** What the first `k` events of a schedule do to data of length `n`: they take all of it with the last
      one, or the last one fails before all is taken, or there are no more. */
  ghost predicate SentAfter(n: nat, sends: seq<SendEvent>, k: nat) {
    0 < k <= |sends| && FAILURE !in sends[..k] && Taken(sends[..k - 1]) < n <= Taken(sends[..k])
  }

  ghost predicate FailedAfter(n: nat, sends: seq<SendEvent>, k: nat) {
    0 < k <= |sends| && FAILURE !in sends[..k - 1] && sends[k - 1] == FAILURE && Taken(sends[..k - 1]) < n
  }

  ghost predicate NeverDone(n: nat, sends: seq<SendEvent>) {
    FAILURE !in sends && Taken(sends) < n
  }

  /** The number of events that `sendAll` uses up. */
  function Used(data: Bytes, sends: seq<SendEvent>): int { |sends| - |SendAllSpec(data, sends).rest| }

  lemma PrefixCons(sends: seq<SendEvent>, k: nat)
    requires 0 < k <= |sends|
    ensures sends[..k] == [sends[0]] + sends[1..][..k - 1]
    ensures Taken(sends[..k]) == Taken([sends[0]]) + Taken(sends[1..][..k - 1])
  {
    TakenConcat([sends[0]], sends[1..][..k - 1]);
  }

  lemma TakenOne(e: SendEvent)
    ensures Taken([e]) == if e.Accept? then e.n else 0
  {
    assert [e][1..] == [];
  }

  /** `sendAll`, event by event: what it returns, what it has sent and what is left of the schedule. */
  lemma {:induction false} SendAllSteps(data: Bytes, sends: seq<SendEvent>)
    requires data != ""
    ensures var r, k := SendAllSpec(data, sends), Used(data, sends);
            && 0 <= k <= |sends| && r.rest == sends[k..]
            && |r.delivered| == (if Taken(sends[..k]) < |data| then Taken(sends[..k]) else |data|)
            && match r.status
               case Sent => SentAfter(|data|, sends, k)
               case SendFailed => FailedAfter(|data|, sends, k)
               case SendBlocked => k == |sends| && NeverDone(|data|, sends)
  {
    if sends != [] {
      var e, rest := sends[0], sends[1..];
      TakenOne(e);
      PrefixCons(sends, 1);
      assert rest[..0] == [] && Taken([]) == 0;
      var m := if e.Accept? then (if e.n < |data| then e.n else |data|) else 0;
      if e != FAILURE && m < |data| {
        assert data[0..] == data;
        assert SendAllSpec(data, sends).rest == SendAllSpec(data[m..], rest).rest;
        assert SendAllSpec(data, sends).status == SendAllSpec(data[m..], rest).status;
        SendAllSteps(data[m..], rest);
        var k := Used(data[m..], rest);
        assert Used(data, sends) == k + 1;
        PrefixCons(sends, k + 1);
        if k > 0 {
          PrefixCons(sends, k);
        }
        PrefixCons(sends, |sends|);
        assert sends[..|sends|] == sends && rest[..|rest|] == rest;
      } else if e != FAILURE {
        assert data[m..] == "" && sends[..0] == [];
        assert SendAllSpec(data, sends).rest == SendAllSpec("", rest).rest == rest;
      } else {
        assert sends[..0] == [];
      }
    }
  }

  lemma TakenMonotone(sends: seq<SendEvent>, i: nat, j: nat)
    requires i <= |sends| && j <= |sends|
    ensures i <= j ==> Taken(sends[..i]) <= Taken(sends[..j])
  {
    if i <= j {
      assert sends[..j] == sends[..i] + sends[i..j];
      TakenConcat(sends[..i], sends[i..j]);
    }
  }

  /** Some number of events takes the data, and none of them fails. */
  ghost predicate Succeeds(n: nat, sends: seq<SendEvent>) {
    exists i: nat :: i <= |sends| && Taken(sends[..i]) >= n && FAILURE !in sends[..i]
  }

  /** Some event fails, and those before it do not take the data. */
  ghost predicate Fails(n: nat, sends: seq<SendEvent>) {
    exists i: nat :: i < |sends| && sends[i] == FAILURE && Taken(sends[..i]) < n
  }

  lemma FailureInPrefix(sends: seq<SendEvent>, i: nat, j: nat)
    requires i < j <= |sends| && FAILURE !in sends[..j]
    ensures sends[i] != FAILURE
  {
    assert sends[..j][i] == sends[i];
  }

  lemma SentMeans(n: nat, sends: seq<SendEvent>, k: nat)
    requires SentAfter(n, sends, k)
    ensures Succeeds(n, sends) && !Fails(n, sends) && !NeverDone(n, sends)
  {
    hide Taken;
    TakenMonotone(sends, k, |sends|);
    assert sends[..|sends|] == sends;
    forall i: nat | i < |sends| && sends[i] == FAILURE ensures Taken(sends[..i]) >= n {
      if i < k {
        FailureInPrefix(sends, i, k);
      } else {
        TakenMonotone(sends, k, i);
      }
    }
  }

  lemma FailedMeans(n: nat, sends: seq<SendEvent>, k: nat)
    requires FailedAfter(n, sends, k)
    ensures Fails(n, sends) && !Succeeds(n, sends) && !NeverDone(n, sends)
  {
    hide Taken;
    var last: nat := k - 1;
    assert sends[last] == FAILURE;
    forall i: nat | i <= |sends| && FAILURE !in sends[..i] ensures Taken(sends[..i]) < n {
      TakenMonotone(sends, i, last);
    }
  }

  lemma NeverDoneMeans(n: nat, sends: seq<SendEvent>)
    requires NeverDone(n, sends)
    ensures !Fails(n, sends) && !Succeeds(n, sends)
  {
    hide Taken;
    assert sends[..|sends|] == sends;
    forall i: nat | i <= |sends| ensures Taken(sends[..i]) < n {
      TakenMonotone(sends, i, |sends|);
    }
  }

  /** The result of `sendAll` from the schedule alone.  It succeeds exactly if the data is taken before
      any failure; it fails exactly if a failure comes before the data is taken; and otherwise it is still
      waiting.  However many pieces the data is taken in makes no difference. */
  lemma SendAllStatus(data: Bytes, sends: seq<SendEvent>)
    requires data != ""
    ensures var status := SendAllSpec(data, sends).status;
            && (status == Sent <==> Succeeds(|data|, sends))
            && (status == SendFailed <==> Fails(|data|, sends))
            && (status == SendBlocked <==> FAILURE !in sends && Taken(sends) < |data|)
  {
    SendAllSteps(data, sends);
    hide Taken, SendAllSpec, Succeeds, Fails, SentAfter, FailedAfter;
    var k := Used(data, sends);
    match SendAllSpec(data, sends).status
    case Sent => SentMeans(|data|, sends, k);
    case SendFailed => FailedMeans(|data|, sends, k);
    case SendBlocked => NeverDoneMeans(|data|, sends);
  }

  /** Where the failures of a schedule are when the call returns: a call that succeeds leaves them all, one
      that fails met one, and one that waits met none. */
  lemma {:induction false} FailuresLeft(data: Bytes, sends: seq<SendEvent>)
    ensures var r := SendAllSpec(data, sends);
            match r.status
            case Sent => FAILURE in sends <==> FAILURE in r.rest
            case SendFailed => FAILURE in sends
            case SendBlocked => FAILURE !in sends
    decreases |sends|
  {
    if data != "" && sends != [] {
      assert sends == [sends[0]] + sends[1..];
      match sends[0]
      case Accept(n) => FailuresLeft(data[if n < |data| then n else |data|..], sends[1..]);
      case Refuse(interrupted) => FailuresLeft(data, sends[1..]);
    }
  }

  /** How many sends of a schedule make progress; each takes at least one byte. */
  function Accepts(sends: seq<SendEvent>): nat {
    if sends == [] then 0 else (if sends[0].Accept? then 1 else 0) + Accepts(sends[1..])
  }

  /** A schedule that never fails and makes progress often enough sends the data, and has enough left for
      what else it is good for. */
  lemma {:induction false} PatientSends(data: Bytes, sends: seq<SendEvent>)
    requires FAILURE !in sends && Accepts(sends) >= |data|
    ensures var r := SendAllSpec(data, sends);
            r.status == Sent && FAILURE !in r.rest && Accepts(r.rest) >= Accepts(sends) - |data|
  {
    if data != "" {
      var rest := sends[1..];
      assert sends[0] != FAILURE && sends == [sends[0]] + rest;
      if sends[0].Accept? {
        var m := if sends[0].n < |data| then sends[0].n else |data|;
        PatientSends(data[m..], rest);
      } else {
        PatientSends(data, rest);
      }
    }
  }

  function WithoutInterrupts(sends: seq<SendEvent>): seq<SendEvent> {
    if sends == [] then []
    else (if sends[0] == Refuse(true) then [] else [sends[0]]) + WithoutInterrupts(sends[1..])
  }

  /** Interrupted calls make no difference to what is sent or returned. */
  lemma {:induction false} InterruptsIgnored(data: Bytes, sends: seq<SendEvent>)
    ensures var r, r' := SendAllSpec(data, sends), SendAllSpec(data, WithoutInterrupts(sends));
            r.status == r'.status && r.delivered == r'.delivered
    decreases |sends|
  {
    if data != "" && sends != [] {
      var rest := WithoutInterrupts(sends[1..]);
      if sends[0] == Refuse(true) {
        InterruptsIgnored(data, sends[1..]);
        assert WithoutInterrupts(sends) == rest;
      } else {
        assert WithoutInterrupts(sends) == [sends[0]] + rest && ([sends[0]] + rest)[1..] == rest;
        if sends[0].Accept? {
          var m := if sends[0].n < |data| then sends[0].n else |data|;
          InterruptsIgnored(data[m..], sends[1..]);
        }
      }
    }
  }

  class Socket {
    /** What the kernel will do on this socket. */
    var recvs: seq<RecvEvent>
    var sends: seq<SendEvent>
    /** What came in and what the peer was given. */
    ghost var received: Bytes
    ghost var delivered: Bytes

    constructor (recvs: seq<RecvEvent>, sends: seq<SendEvent>)
      ensures this.recvs == recvs && this.sends == sends && received == "" && delivered == ""
    {
      this.recvs, this.sends, received, delivered := recvs, sends, "", "";
    }

    /** `recv(fd, buffer, BUFFER_SIZE, 0)`: a count, 0 at end of stream, -1 on error; None while the
        call has not returned.  Only the bytes read are written to the buffer. */
    method Recv(buffer: array<char>) returns (n: Option<int>)
      requires buffer.Length == BUFFER_SIZE
      modifies `recvs, `received, buffer
      ensures old(recvs) == [] ==> n == None && recvs == [] && received == old(received)
      ensures old(recvs) != [] ==> n.Some? && recvs == old(recvs)[1..]
      ensures old(recvs) != [] ==>
                match old(recvs)[0]
                case Data(bytes) =>
                  && n == Some(|bytes|) && buffer[..|bytes|] == bytes
                  && received == old(received) + bytes
                case Closed => n == Some(0) && received == old(received)
                case RecvError => n == Some(-1) && received == old(received)
    {
      if recvs == [] { return None; }
      var event := recvs[0];
      recvs := recvs[1..];
      match event
      case Closed => n := Some(0);
      case RecvError => n := Some(-1);
      case Data(bytes) =>
        for i := 0 to |bytes|
          invariant buffer[..i] == bytes[..i]
          invariant recvs == old(recvs)[1..] && received == old(received)
        {
          buffer[i] := bytes[i];
        }
        received := received + bytes;
        n := Some(|bytes|);
    }

    /** `send(fd, data, size, 0)`: a count, or -1 with `errno == EINTR` or not; None while blocked. */
    method Send(data: Bytes) returns (n: Option<int>, interrupted: bool)
      requires data != ""
      modifies `sends, `delivered
      ensures old(sends) == [] ==> n == None && sends == [] && delivered == old(delivered)
      ensures old(sends) != [] ==> n.Some? && sends == old(sends)[1..]
      ensures old(sends) != [] ==>
                match old(sends)[0]
                case Accept(m) =>
                  && n == Some(if m < |data| then m else |data|)
                  && delivered == old(delivered) + data[..n.value]
                case Refuse(eintr) => n == Some(-1) && interrupted == eintr && delivered == old(delivered)
    {
      interrupted := false;
      if sends == [] { return None, false; }
      var event := sends[0];
      sends := sends[1..];
      match event
      case Accept(m) =>
        n := Some(if m < |data| then m else |data|);
        delivered := delivered + data[..n.value];
      case Refuse(eintr) =>
        n, interrupted := Some(-1), eintr;
    }

    method SendAll(data: Bytes) returns (status: SendStatus)
      modifies `sends, `delivered
      ensures var r := SendAllSpec(data, old(sends));
              status == r.status && sends == r.rest && delivered == old(delivered) + r.delivered
    {
      var totalSent := 0;
      while totalSent < |data|
        invariant 0 <= totalSent <= |data|
        invariant SendAllSpec(data, old(sends)).status == SendAllSpec(data[totalSent..], sends).status
        invariant SendAllSpec(data, old(sends)).rest == SendAllSpec(data[totalSent..], sends).rest
        invariant old(delivered) + SendAllSpec(data, old(sends)).delivered
                  == delivered + SendAllSpec(data[totalSent..], sends).delivered
        decreases |sends|
      {
        ghost var left, schedule := data[totalSent..], sends;
        var sent, interrupted := Send(data[totalSent..]);
        if sent.None? {
          return SendBlocked;
        }
        if sent.value <= 0 {
          if interrupted {
            continue;
          }
          return SendFailed;
        }
        totalSent := totalSent + sent.value;
        assert left[sent.value..] == data[totalSent..];
      }
      assert data[totalSent..] == "";
      return Sent;
    }
  }
}
