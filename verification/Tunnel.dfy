/** `tunnelTraffic` (proxy/handler.cpp:528-599): two directions share one buffer under `poll`. */
module Tunnel {
  import opened CacheEntries
  import opened Sockets

  /** One return of `poll`: failure, timeout, or readable flags and an error or hangup flag. */
  datatype PollEvent = PollFailed | Timeout | Ready(client: bool, server: bool, hangup: bool)

  /** One peer: its schedules, the bytes read from it and the bytes it was given. */
  datatype Side = Side(
    recvs: seq<RecvEvent>, sends: seq<SendEvent>, received: Bytes, delivered: Bytes)

  /** `Open` is a loop head; `Stuck` is inside a `recv` or `send` that has not returned. */
  datatype Phase = Open | Ended(ok: bool) | Stuck

  /** `clientEnded`: a read from the client found its end or failed.  `clientBroken`: a delivery to the
      client failed or has not returned.  The same for the server. */
  datatype Tunnel = Tunnel(
    client: Side, server: Side, clientEnded: bool, serverEnded: bool, clientBroken: bool,
    serverBroken: bool, phase: Phase)
  {
    /** The two loop variables of the source: each stands for either reason. */
    predicate ClientClosed() { clientEnded || clientBroken }

    predicate ServerClosed() { serverEnded || serverBroken }
  }

  datatype Copied = Moved | SourceEnded | TargetFailed | ReadBlocked | TargetBlocked

  predicate Broke(r: Copied) { r == TargetFailed || r == TargetBlocked }

  predicate Blocks(r: Copied) { r == ReadBlocked || r == TargetBlocked }

  function CopiedOf(status: SendStatus): Copied {
    match status
    case Sent => Moved
    case SendFailed => TargetFailed
    case SendBlocked => TargetBlocked
  }

  /** One read from `from` and, if it yields bytes, their delivery to `to`. */
  function Copy(from: Side, to: Side): (Side, Side, Copied) {
    if from.recvs == [] then (from, to, ReadBlocked)
    else
      var from' := from.(recvs := from.recvs[1..]);
      match from.recvs[0]
      case Data(b) =>
        var out := SendAllSpec(b, to.sends);
        (from'.(received := from.received + b),
         to.(sends := out.rest, delivered := to.delivered + out.delivered),
         CopiedOf(out.status))
      case _ => (from', to, SourceEnded)
  }

  function FromClient(t: Tunnel): Tunnel {
    var (client, server, r) := Copy(t.client, t.server);
    t.(client := client, server := server,
       serverBroken := t.serverBroken || Broke(r), clientEnded := t.clientEnded || r == SourceEnded,
       phase := if Blocks(r) then Stuck else t.phase)
  }

  function FromServer(t: Tunnel): Tunnel {
    var (server, client, r) := Copy(t.server, t.client);
    t.(client := client, server := server,
       clientBroken := t.clientBroken || Broke(r), serverEnded := t.serverEnded || r == SourceEnded,
       phase := if Blocks(r) then Stuck else t.phase)
  }

  /** One iteration of the loop. */
  function Step(t: Tunnel, poll: PollEvent): Tunnel {
    match poll
    case PollFailed => t.(phase := Ended(false))
    case Timeout => t
    case Ready(c, s, hangup) =>
      var t1 := if c then FromClient(t) else t;
      if t1.phase == Stuck then t1
      else
        var t2 := if s then FromServer(t1) else t1;
        if t2.phase == Stuck then t2
        else if hangup || t2.ClientClosed() || t2.ServerClosed() then t2.(phase := Ended(true))
        else t2
  }

  /** The tunnel after as many returns of `poll` as the schedule lists. */
  function Run(t: Tunnel, polls: seq<PollEvent>): Tunnel
    decreases |polls|
  {
    if polls == [] || t.phase != Open then t else Run(Step(t, polls[0]), polls[1..])
  }

  function Start(client: Side, server: Side): Tunnel {
    Tunnel(client, server, false, false, false, false, Open)
  }

  // ---------------------------------------------------------------- integrity

  /** All bytes that a schedule of reads has to offer. */
  function Offered(recvs: seq<RecvEvent>): Bytes {
    if recvs == [] then ""
    else (if recvs[0].Data? then recvs[0].bytes else "") + Offered(recvs[1..])
  }

  /** What one direction keeps, from the sides `from0` and `to0` on: a read takes what the source offers
      next, the target is given a prefix of what was read, and all of it exactly as long as no delivery
      of this direction is broken. */
  ghost predicate Faithful(from0: Side, to0: Side, from: Side, to: Side, broken: bool) {
    && from0.received <= from.received && to0.delivered <= to.delivered
    && var read, given := from.received[|from0.received|..], to.delivered[|to0.delivered|..];
       && Offered(from0.recvs) == read + Offered(from.recvs)
       && given <= read && (given == read <==> !broken)
  }

  ghost predicate Inv(t0: Tunnel, t: Tunnel) {
    && Faithful(t0.client, t0.server, t.client, t.server, t.serverBroken)
    && Faithful(t0.server, t0.client, t.server, t.client, t.clientBroken)
    && (t.phase == Open ==> !t.ClientClosed() && !t.ServerClosed())
  }

  /** One copy in an unbroken direction; nothing changes in what the other direction keeps. */
  lemma CopyFaithful(from0: Side, to0: Side, from: Side, to: Side)
    requires Faithful(from0, to0, from, to, false)
    ensures var (from', to', r) := Copy(from, to);
            && Faithful(from0, to0, from', to', Broke(r))
            && from'.delivered == from.delivered && to'.received == to.received && to'.recvs == to.recvs
  {
    if from.recvs != [] && from.recvs[0].Data? {
      var b := from.recvs[0].bytes;
      var out := SendAllSpec(b, to.sends);
      SendAllExact(b, to.sends);
      hide SendAllSpec;
      var read := from.received[|from0.received|..];
      assert (from.received + b)[|from0.received|..] == read + b;
      assert (to.delivered + out.delivered)[|to0.delivered|..] == read + out.delivered;
      assert read + (b + Offered(from.recvs[1..])) == (read + b) + Offered(from.recvs[1..]);
      assert read + out.delivered == read + b <==> out.delivered == b by {
        assert (read + out.delivered)[|read|..] == out.delivered && (read + b)[|read|..] == b;
      }
    }
  }

  lemma FromClientInv(t0: Tunnel, t: Tunnel)
    requires Inv(t0, t) && !t.serverBroken
    ensures Faithful(t0.client, t0.server, FromClient(t).client, FromClient(t).server, FromClient(t).serverBroken)
    ensures Faithful(t0.server, t0.client, FromClient(t).server, FromClient(t).client, FromClient(t).clientBroken)
  {
    CopyFaithful(t0.client, t0.server, t.client, t.server);
    hide Copy, Offered;
  }

  lemma FromServerInv(t0: Tunnel, t: Tunnel)
    requires !t.clientBroken
    requires Faithful(t0.client, t0.server, t.client, t.server, t.serverBroken)
    requires Faithful(t0.server, t0.client, t.server, t.client, t.clientBroken)
    ensures Faithful(t0.client, t0.server, FromServer(t).client, FromServer(t).server, FromServer(t).serverBroken)
    ensures Faithful(t0.server, t0.client, FromServer(t).server, FromServer(t).client, FromServer(t).clientBroken)
  {
    CopyFaithful(t0.server, t0.client, t.server, t.client);
    hide Copy, Offered;
  }

  lemma StepInv(t0: Tunnel, t: Tunnel, poll: PollEvent)
    requires Inv(t0, t) && t.phase == Open
    ensures Inv(t0, Step(t, poll))
  {
    hide Copy, Faithful;
    match poll
    case Ready(c, s, hangup) =>
      FromClientInv(t0, t);
      var t1 := if c then FromClient(t) else t;
      FromServerInv(t0, t1);
    case _ =>
  }

  lemma {:induction false} RunInv(t0: Tunnel, t: Tunnel, polls: seq<PollEvent>)
    requires Inv(t0, t)
    ensures Inv(t0, Run(t, polls))
    decreases |polls|
  {
    if polls != [] && t.phase == Open {
      StepInv(t0, t, polls[0]);
      RunInv(t0, Step(t, polls[0]), polls[1..]);
    }
  }

  /** Tunnel integrity, for sockets with any past, for all poll, recv and send schedules and after any
      number of iterations.  In each direction on its own: what was read is what the source had to offer
      up to where its schedule stands, the target was given a prefix of it, and all of it exactly if no
      delivery in that direction has failed or is still under way.  What happens to the other direction,
      and which side has ended its stream, makes no difference to what was read. */
  lemma Integrity(client: Side, server: Side, polls: seq<PollEvent>)
    ensures var t := Run(Start(client, server), polls);
            && Faithful(client, server, t.client, t.server, t.serverBroken)
            && Faithful(server, client, t.server, t.client, t.clientBroken)
  {
    var t0 := Start(client, server);
    assert forall b: Bytes :: b[|b|..] == "" && "" + b == b;
    assert Inv(t0, t0);
    RunInv(t0, t0, polls);
  }

  /** At every loop head both directions are exact. */
  lemma LoopHeadExact(client: Side, server: Side, polls: seq<PollEvent>)
    ensures var t := Run(Start(client, server), polls);
            t.phase == Open ==>
              && Faithful(client, server, t.client, t.server, false)
              && Faithful(server, client, t.server, t.client, false)
  {
    var t0 := Start(client, server);
    assert forall b: Bytes :: b[|b|..] == "" && "" + b == b;
    assert Inv(t0, t0);
    RunInv(t0, t0, polls);
    hide Faithful, Run;
  }

  /** What a direction loses when the loop has ended: if no delivery of it failed, exactly what the source
      still has to offer and nobody will read.  The loop ends when either side does, so this need not be
      nothing. */
  lemma LeftUnread(client: Side, server: Side, polls: seq<PollEvent>)
    ensures var t := Run(Start(client, server), polls);
            && (!t.serverBroken ==>
                  server.delivered + Offered(client.recvs) == t.server.delivered + Offered(t.client.recvs))
            && (!t.clientBroken ==>
                  client.delivered + Offered(server.recvs) == t.client.delivered + Offered(t.server.recvs))
  {
    Integrity(client, server, polls);
    var t := Run(Start(client, server), polls);
    hide Offered, Run;
    NothingElseLost(client, server, t.client, t.server, t.serverBroken);
    NothingElseLost(server, client, t.server, t.client, t.clientBroken);
  }

  lemma NothingElseLost(from0: Side, to0: Side, from: Side, to: Side, broken: bool)
    requires Faithful(from0, to0, from, to, broken)
    ensures !broken ==> to0.delivered + Offered(from0.recvs) == to.delivered + Offered(from.recvs)
  {
    hide Offered;
    var read, given := from.received[|from0.received|..], to.delivered[|to0.delivered|..];
    assert to.delivered == to0.delivered + given;
    assert to0.delivered + (read + Offered(from.recvs)) == (to0.delivered + read) + Offered(from.recvs);
  }

  // ---------------------------------------------------------------- what is read, and when the loop ends

  /** The next event of the source ends its stream. */
  predicate EndsStream(from: Side) { from.recvs != [] && !from.recvs[0].Data? }

  /** The next event of the source brings bytes that the target's schedule fails to take. */
  ghost predicate Breaks(from: Side, to: Side) {
    from.recvs != [] && from.recvs[0].Data? && Fails(|from.recvs[0].bytes|, to.sends)
  }

  /** The source has no next event, or one whose bytes the target's schedule never takes. */
  ghost predicate Waits(from: Side, to: Side) {
    from.recvs == [] || (from.recvs[0].Data? && NeverDone(|from.recvs[0].bytes|, to.sends))
  }

  lemma CopyOutcome(from: Side, to: Side)
    ensures var (from', to', r) := Copy(from, to);
            && (r == SourceEnded <==> EndsStream(from)) && (Broke(r) && !Blocks(r) <==> Breaks(from, to))
            && (Blocks(r) <==> Waits(from, to))
            && from' == from.(recvs := from'.recvs, received := from'.received)
            && to' == to.(sends := to'.sends, delivered := to'.delivered)
            && (from.recvs != [] ==> from'.recvs == from.recvs[1..])
  {
    if from.recvs != [] && from.recvs[0].Data? {
      SendAllStatus(from.recvs[0].bytes, to.sends);
      hide SendAllSpec, Fails, NeverDone;
    }
  }

  /** What one return of `poll` does to a tunnel at a loop head.  A side is read exactly if it is marked
      readable, one event of it.  The loop ends there exactly for a failed poll, a hangup, the end of a
      stream that is read or bytes that cannot be delivered; it waits exactly if a read or a delivery
      does; and otherwise it goes on. */
  lemma StepOutcome(t: Tunnel, poll: PollEvent)
    requires t.phase == Open && !t.ClientClosed() && !t.ServerClosed()
    ensures var t' := Step(t, poll);
            match poll
            case PollFailed => t' == t.(phase := Ended(false))
            case Timeout => t' == t
            case Ready(c, s, hangup) =>
              && (t'.phase == Stuck <==> (c && Waits(t.client, t.server)) || (s && Waits(t.server, t.client)))
              && (t'.phase == Ended(true) <==>
                    && t'.phase != Stuck
                    && (hangup || (c && (EndsStream(t.client) || Breaks(t.client, t.server)))
                        || (s && (EndsStream(t.server) || Breaks(t.server, t.client)))))
              && (t'.phase != Open && t'.phase != Stuck ==> t'.phase == Ended(true))
              && (t'.phase != Stuck ==>
                    && (c ==> t.client.recvs != []) && (s ==> t.server.recvs != [])
                    && t'.client.recvs == (if c then t.client.recvs[1..] else t.client.recvs)
                    && t'.server.recvs == (if s then t.server.recvs[1..] else t.server.recvs))
  {
    CopyOutcome(t.client, t.server);
    var t1 := if poll.Ready? && poll.client then FromClient(t) else t;
    CopyOutcome(t1.server, t1.client);
    hide Copy, Fails, NeverDone;
  }

  /** How many of these returns of `poll` marked a side as readable. */
  function Marked(polls: seq<PollEvent>, server: bool): nat {
    if polls == [] then 0
    else
      (if polls[0].Ready? && (if server then polls[0].server else polls[0].client) then 1 else 0)
      + Marked(polls[1..], server)
  }

  /** How many returns of `poll` the loop uses before it ends, waits or runs out of them. */
  function Returns(t: Tunnel, polls: seq<PollEvent>): (n: nat)
    ensures n <= |polls|
    ensures n < |polls| ==> Run(t, polls).phase != Open
    decreases |polls|
  {
    if polls == [] || t.phase != Open then 0 else 1 + Returns(Step(t, polls[0]), polls[1..])
  }

  /** Every side is read exactly as often as a return of `poll` marked it, up to the last return that the
      loop used: at every loop head, and when the loop has ended. */
  lemma {:induction false} ReadsAsMarked(t: Tunnel, polls: seq<PollEvent>)
    requires t.phase == Open && !t.ClientClosed() && !t.ServerClosed()
    ensures var t', used := Run(t, polls), polls[..Returns(t, polls)];
            t'.phase != Stuck ==>
              && Marked(used, false) <= |t.client.recvs| && Marked(used, true) <= |t.server.recvs|
              && t'.client.recvs == t.client.recvs[Marked(used, false)..]
              && t'.server.recvs == t.server.recvs[Marked(used, true)..]
    decreases |polls|
  {
    if polls != [] {
      var t1, rest := Step(t, polls[0]), polls[1..];
      var n := Returns(t1, rest);
      StepOutcome(t, polls[0]);
      StepEnds(t, polls[0]);
      assert polls[..n + 1][0] == polls[0] && polls[..n + 1][1..] == rest[..n];
      assert polls[..Returns(t, polls)] == polls[..n + 1] && Run(t, polls) == Run(t1, rest);
      hide Step, Waits, Breaks, EndsLoop;
      if t1.phase == Open {
        ReadsAsMarked(t1, rest);
      } else {
        EndedStays(t1, rest);
        assert n == 0 && rest[..0] == [];
      }
    } else {
      assert polls[..0] == [];
    }
  }

  /** Return `i` of `poll` is the one that ended the loop. */
  ghost predicate LastReturn(t: Tunnel, polls: seq<PollEvent>, i: nat) {
    i < |polls| && Run(t, polls[..i]).phase == Open && Run(t, polls[..i + 1]) == Run(t, polls)
  }

  /** Why a return of `poll` ends the loop: `poll` fails, reports a hangup, finds the end of a stream
      or has bytes that cannot be delivered. */
  predicate EndsLoop(poll: PollEvent, end: Tunnel) {
    match end.phase
    case Ended(ok) =>
      if ok then
        poll.Ready?
        && (poll.hangup
            || (poll.client && (end.clientEnded || end.serverBroken))
            || (poll.server && (end.serverEnded || end.clientBroken)))
      else poll == PollFailed
    case _ => false
  }

  lemma StepEnds(t: Tunnel, poll: PollEvent)
    requires t.phase == Open && !t.ClientClosed() && !t.ServerClosed()
    ensures Step(t, poll).phase.Ended? ==> EndsLoop(poll, Step(t, poll))
    ensures Step(t, poll).phase == Open ==> !Step(t, poll).ClientClosed() && !Step(t, poll).ServerClosed()
  {
    hide Copy;
  }

  /** The loop that has ended was ended by its last return of `poll`, for one of the reasons above: the
      failure that gives the result false, a hangup, a peer that closed, or a failed delivery. */
  lemma {:induction false} EndsForAReason(t: Tunnel, polls: seq<PollEvent>)
    requires t.phase == Open && !t.ClientClosed() && !t.ServerClosed()
    ensures Run(t, polls).phase.Ended? ==>
              exists i: nat :: LastReturn(t, polls, i) && EndsLoop(polls[i], Run(t, polls))
    decreases |polls|
  {
    if polls != [] {
      var t', rest := Step(t, polls[0]), polls[1..];
      StepEnds(t, polls[0]);
      hide Step, EndsLoop;
      if t'.phase != Open {
        EndedStays(t', rest);
        EndedStays(t', []);
        assert polls[..0] == [] && polls[..1] == [polls[0]] && [polls[0]][1..] == [];
        assert Run(t, polls[..1]) == Run(t', []) && Run(t, []) == t;
        assert LastReturn(t, polls, 0);
      } else {
        EndsForAReason(t', rest);
        if Run(t', rest).phase.Ended? {
          var i: nat :| LastReturn(t', rest, i) && EndsLoop(rest[i], Run(t', rest));
          assert polls[..i + 1][1..] == rest[..i] && polls[..i + 2][1..] == rest[..i + 1];
          assert LastReturn(t, polls, i + 1) && polls[i + 1] == rest[i];
        }
      }
    }
  }

  // ---------------------------------------------------------------- the loop

  ghost function SideOf(s: Socket): Side
    reads s
  {
    Side(s.recvs, s.sends, s.received, s.delivered)
  }

  /** One direction of one iteration, through the shared buffer. */
  method CopyOnce(source: Socket, target: Socket, buffer: array<char>) returns (r: Copied)
    requires source != target && buffer.Length == BUFFER_SIZE
    modifies source`recvs, source`received, target`sends, target`delivered, buffer
    ensures (SideOf(source), SideOf(target), r) == Copy(old(SideOf(source)), old(SideOf(target)))
  {
    var bytesRead := source.Recv(buffer);
    if bytesRead.None? {
      return ReadBlocked;
    }
    if bytesRead.value > 0 {
      var status := target.SendAll(buffer[..bytesRead.value]);
      return CopiedOf(status);
    }
    return SourceEnded;
  }

  /** `ended` is false while the run is inside `poll`, `recv` or `send`; `ok` is the result then. */
  method TunnelTraffic(client: Socket, server: Socket, polls: seq<PollEvent>)
    returns (ended: bool, ok: bool)
    requires client != server
    modifies client, server
    ensures var t := Run(Start(old(SideOf(client)), old(SideOf(server))), polls);
            && SideOf(client) == t.client && SideOf(server) == t.server
            && ended == t.phase.Ended? && (ended ==> ok == t.phase.ok)
  {
    var buffer := new char[BUFFER_SIZE];
    var clientClosed, serverClosed := false, false;
    var i := 0;
    ghost var t := Start(SideOf(client), SideOf(server));
    while !clientClosed && !serverClosed
      invariant 0 <= i <= |polls|
      invariant Run(t, polls[i..]) == Run(Start(old(SideOf(client)), old(SideOf(server))), polls)
      invariant t.client == SideOf(client) && t.server == SideOf(server)
      invariant t.ClientClosed() == clientClosed && t.ServerClosed() == serverClosed
      invariant t.phase == if clientClosed || serverClosed then Ended(true) else Open
      decreases |polls| - i
    {
      hide Copy;
      if i == |polls| {
        return false, false;
      }
      var poll := polls[i];
      i := i + 1;
      ghost var next := Step(t, poll);
      assert polls[i - 1..][0] == poll && polls[i - 1..][1..] == polls[i..];
      assert Run(next, polls[i..]) == Run(t, polls[i - 1..]);
      hide Run;
      if poll == PollFailed {
        assert Run(next, polls[i..]) == next by { EndedStays(next, polls[i..]); }
        return true, false;
      }
      if poll == Timeout {
        t := next;
        continue;
      }
      if poll.client {
        var r := CopyOnce(client, server, buffer);
        if Blocks(r) {
          EndedStays(next, polls[i..]);
          return false, false;
        }
        serverClosed := serverClosed || r == TargetFailed;
        clientClosed := clientClosed || r == SourceEnded;
      }
      if poll.server {
        var r := CopyOnce(server, client, buffer);
        if Blocks(r) {
          EndedStays(next, polls[i..]);
          return false, false;
        }
        clientClosed := clientClosed || r == TargetFailed;
        serverClosed := serverClosed || r == SourceEnded;
      }
      t := next;
      if poll.hangup {
        EndedStays(next, polls[i..]);
        return true, true;
      }
    }
    EndedStays(t, polls[i..]);
    return true, true;
  }

  lemma EndedStays(t: Tunnel, polls: seq<PollEvent>)
    requires t.phase != Open
    ensures Run(t, polls) == t
  {}
}
