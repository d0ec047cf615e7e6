/**
  Message routing and the TCP endpoint registry of the main loop
  (`Mainloop::route_msg`, `write_msg`, `process_tcp_hangups`,
  `_add_tcp_endpoint`, `_add_tcp_retry`, `_retry_timeout_cb`, `open`).

  The router knows two registries: the fixed array of UART and UDP
  endpoints, and the list of accepted TCP connections, newest first.  A
  TCP connection that reports a broken pipe is only marked; the loop then
  removes the marked ones, handing each either to a reconnection timer or
  to deletion.

  What an endpoint's `write_msg` returns for the message being routed is a
  parameter, `answer`; the epoll and socket calls are reduced to their
  success or failure.
 */
module Router {
  import opened Common
  import opened Scheduler

  /** An endpoint as the router sees it: an identity, the system id it
      talks for (0 while unknown), and the reconnection period in seconds
      (TCP only; 0 or less means "do not reconnect"). */
  datatype Endpoint = Endpoint(id: nat, sysid: int, retryTimeout: int)

  /** A `struct endpoint_entry` of the TCP list. */
  datatype Entry = Entry(ep: Endpoint, remove: bool)

  /** One call of `Mainloop::write_msg`: the endpoint, what it returned, and
      whether the loop started watching the endpoint for writability. */
  datatype Delivery = Delivery(ep: Endpoint, ret: int, watchOut: bool)

  /** `Mainloop::write_msg`: the endpoint's result is passed on unchanged;
      a full endpoint (-EAGAIN) is additionally watched for EPOLLOUT. */
  function WriteMsg(e: Endpoint, answer: Endpoint -> int): (d: Delivery)
    ensures d.ep == e && d.ret == answer(e)
    ensures d.watchOut <==> answer(e) == -EAGAIN
  {
    var r := answer(e);
    Delivery(e, r, r == -EAGAIN)
  }

  /** The endpoints of a TCP list, in list order. */
  function Eps(tcp: seq<Entry>): (r: seq<Endpoint>)
    ensures |r| == |tcp|
    ensures forall i :: 0 <= i < |tcp| ==> r[i] == tcp[i].ep
    decreases |tcp|
  {
    if tcp == [] then [] else Eps(tcp[..|tcp| - 1]) + [tcp[|tcp| - 1].ep]
  }

  /** The deliveries of writing the message to `eps`, one after the other. */
  function Deliver(eps: seq<Endpoint>, answer: Endpoint -> int): (ds: seq<Delivery>)
    ensures |ds| == |eps|
    decreases |eps|
  {
    if eps == [] then [] else Deliver(eps[..|eps| - 1], answer) + [WriteMsg(eps[|eps| - 1], answer)]
  }

  lemma DeliverSnoc(eps: seq<Endpoint>, e: Endpoint, answer: Endpoint -> int)
    ensures Deliver(eps + [e], answer) == Deliver(eps, answer) + [WriteMsg(e, answer)]
  {
    assert (eps + [e])[..|eps|] == eps;
  }

  lemma {:induction false} DeliverConcat(a: seq<Endpoint>, b: seq<Endpoint>, answer: Endpoint -> int)
    ensures Deliver(a + b, answer) == Deliver(a, answer) + Deliver(b, answer)
    decreases |b|
  {
    if b == [] {
      assert a + b == a;
    } else {
      var n := |b| - 1;
      DeliverConcat(a, b[..n], answer);
      assert a + b == (a + b[..n]) + [b[n]];
      assert b == b[..n] + [b[n]];
      DeliverSnoc(a + b[..n], b[n], answer);
      DeliverSnoc(b[..n], b[n], answer);
    }
  }

  /** Each delivery went to the endpoint at the same position and carries
      that endpoint's own answer. */
  lemma {:induction false} DeliverSpec(eps: seq<Endpoint>, answer: Endpoint -> int)
    ensures forall i :: 0 <= i < |eps| ==> Deliver(eps, answer)[i] == WriteMsg(eps[i], answer)
    decreases |eps|
  {
    if eps != [] {
      DeliverSpec(eps[..|eps| - 1], answer);
    }
  }

  /** The endpoints the main loop starts watching for writability after
      writing a message to `eps` are exactly the ones that answered
      -EAGAIN. */
  lemma DeliverWatchesBlocked(eps: seq<Endpoint>, answer: Endpoint -> int)
    ensures (set d | d in Deliver(eps, answer) && d.watchOut :: d.ep) == (set e | e in eps && answer(e) == -EAGAIN)
  {
    var ds := Deliver(eps, answer);
    DeliverSpec(eps, answer);
    forall e | e in eps && answer(e) == -EAGAIN
      ensures exists d :: d in ds && d.watchOut && d.ep == e
    {
      var i :| 0 <= i < |eps| && eps[i] == e;
      assert ds[i] in ds;
    }
  }

  /** The endpoints a broadcast from `sender` reaches. */
  function NotFrom(sender: int): Endpoint -> bool {
    (e: Endpoint) => e.sysid != sender
  }

  /** A TCP connection that is written to by a broadcast from `sender` and
      answers with a broken pipe. */
  predicate HungUp(x: Entry, sender: int, answer: Endpoint -> int) {
    x.ep.sysid != sender && answer(x.ep) == -EPIPE
  }

  /** The TCP list after a broadcast from `sender`: every connection that
      hung up is marked. */
  function Mark(tcp: seq<Entry>, sender: int, answer: Endpoint -> int): (m: seq<Entry>)
    ensures |m| == |tcp|
    decreases |tcp|
  {
    if tcp == [] then []
    else
      var x := tcp[|tcp| - 1];
      Mark(tcp[..|tcp| - 1], sender, answer) + [x.(remove := x.remove || HungUp(x, sender, answer))]
  }

  /** Marking changes nothing but the mark of the connections that hung up. */
  lemma {:induction false} MarkSpec(tcp: seq<Entry>, sender: int, answer: Endpoint -> int)
    ensures forall i :: 0 <= i < |tcp| ==>
      Mark(tcp, sender, answer)[i] == tcp[i].(remove := tcp[i].remove || HungUp(tcp[i], sender, answer))
    decreases |tcp|
  {
    if tcp != [] {
      MarkSpec(tcp[..|tcp| - 1], sender, answer);
    }
  }

  /** Whether some connection of the list hangs up on a broadcast. */
  function AnyHangup(tcp: seq<Entry>, sender: int, answer: Endpoint -> int): bool
    decreases |tcp|
  {
    if tcp == [] then false
    else AnyHangup(tcp[..|tcp| - 1], sender, answer) || HungUp(tcp[|tcp| - 1], sender, answer)
  }

  lemma {:induction false} AnyHangupSpec(tcp: seq<Entry>, sender: int, answer: Endpoint -> int)
    ensures AnyHangup(tcp, sender, answer) <==> exists i :: 0 <= i < |tcp| && HungUp(tcp[i], sender, answer)
    decreases |tcp|
  {
    if tcp != [] {
      var n := |tcp| - 1;
      AnyHangupSpec(tcp[..n], sender, answer);
      if AnyHangup(tcp[..n], sender, answer) {
        var i :| 0 <= i < n && HungUp(tcp[..n][i], sender, answer);
        assert HungUp(tcp[i], sender, answer);
      }
    }
  }

  /** Marking and the hang-up test over a list grown by one connection. */
  lemma MarkSnoc(tcp: seq<Entry>, k: nat, sender: int, answer: Endpoint -> int)
    requires k < |tcp|
    ensures Mark(tcp[..k + 1], sender, answer) ==
      Mark(tcp[..k], sender, answer) + [tcp[k].(remove := tcp[k].remove || HungUp(tcp[k], sender, answer))]
    ensures AnyHangup(tcp[..k + 1], sender, answer) == (AnyHangup(tcp[..k], sender, answer) || HungUp(tcp[k], sender, answer))
  {
    assert tcp[..k + 1][..k] == tcp[..k];
  }

  /** The first loop of a broadcast: every fixed endpoint outside the
      sender's system, in array order. */
  method BroadcastFixed(fixed: seq<Endpoint>, sender: int, answer: Endpoint -> int) returns (ds: seq<Delivery>)
    ensures ds == Deliver(Filter(fixed, NotFrom(sender)), answer)
  {
    ds := [];
    var i := 0;
    while i < |fixed|
      invariant 0 <= i <= |fixed|
      invariant ds == Deliver(Filter(fixed[..i], NotFrom(sender)), answer)
    {
      assert fixed[..i + 1] == fixed[..i] + [fixed[i]];
      FilterSnoc(fixed[..i], fixed[i], NotFrom(sender));
      assert NotFrom(sender)(fixed[i]) == (fixed[i].sysid != sender);
      if sender != fixed[i].sysid {
        DeliverSnoc(Filter(fixed[..i], NotFrom(sender)), fixed[i], answer);
        ds := ds + [WriteMsg(fixed[i], answer)];
        assert ds == Deliver(Filter(fixed[..i + 1], NotFrom(sender)), answer);
      } else {
        assert Filter(fixed[..i + 1], NotFrom(sender)) == Filter(fixed[..i], NotFrom(sender));
      }
      i := i + 1;
    }
    assert fixed[..i] == fixed;
  }

  /** The second loop of a broadcast: every TCP connection outside the
      sender's system, in list order, marking the ones that hang up. */
  method BroadcastTcp(tcp: seq<Entry>, sender: int, answer: Endpoint -> int)
    returns (ds: seq<Delivery>, marked: seq<Entry>, hup: bool)
    ensures ds == Deliver(Filter(Eps(tcp), NotFrom(sender)), answer)
    ensures marked == Mark(tcp, sender, answer)
    ensures hup == AnyHangup(tcp, sender, answer)
  {
    ds, marked, hup := [], [], false;
    var k := 0;
    while k < |tcp|
      invariant 0 <= k <= |tcp|
      invariant ds == Deliver(Filter(Eps(tcp[..k]), NotFrom(sender)), answer)
      invariant marked == Mark(tcp[..k], sender, answer)
      invariant hup == AnyHangup(tcp[..k], sender, answer)
    {
      var d, x, hung := VisitTcp(tcp[k], sender, answer);
      TcpSnoc(tcp, k, sender, answer);
      ds := ds + d;
      marked := marked + [x];
      hup := hup || hung;
      k := k + 1;
    }
    assert tcp[..k] == tcp;
  }

  /** One iteration of the broadcast over the TCP list: write to the
      connection unless it belongs to the sender's system, and mark it
      when the write reports a broken pipe. */
  method VisitTcp(x: Entry, sender: int, answer: Endpoint -> int) returns (d: seq<Delivery>, y: Entry, hung: bool)
    ensures d == (if NotFrom(sender)(x.ep) then [WriteMsg(x.ep, answer)] else [])
    ensures hung == HungUp(x, sender, answer)
    ensures y == x.(remove := x.remove || hung)
  {
    d, y, hung := [], x, false;
    if sender != x.ep.sysid {
      var w := WriteMsg(x.ep, answer);
      d := [w];
      if w.ret == -EPIPE {
        y := x.(remove := true);
        hung := true;
      }
    }
  }

  /** The three results of the broadcast over a list grown by one connection. */
  lemma TcpSnoc(tcp: seq<Entry>, k: nat, sender: int, answer: Endpoint -> int)
    requires k < |tcp|
    ensures Deliver(Filter(Eps(tcp[..k + 1]), NotFrom(sender)), answer) ==
      Deliver(Filter(Eps(tcp[..k]), NotFrom(sender)), answer) +
      (if NotFrom(sender)(tcp[k].ep) then [WriteMsg(tcp[k].ep, answer)] else [])
    ensures Mark(tcp[..k + 1], sender, answer) ==
      Mark(tcp[..k], sender, answer) + [tcp[k].(remove := tcp[k].remove || HungUp(tcp[k], sender, answer))]
    ensures AnyHangup(tcp[..k + 1], sender, answer) == (AnyHangup(tcp[..k], sender, answer) || HungUp(tcp[k], sender, answer))
  {
    MarkSnoc(tcp, k, sender, answer);
    EpsSnoc(tcp, k);
    FilterSnoc(Eps(tcp[..k]), tcp[k].ep, NotFrom(sender));
    var f := Filter(Eps(tcp[..k]), NotFrom(sender));
    if NotFrom(sender)(tcp[k].ep) {
      DeliverSnoc(f, tcp[k].ep, answer);
    } else {
      assert f + [] == f;
    }
  }

  lemma EpsSnoc(tcp: seq<Entry>, k: nat)
    requires k < |tcp|
    ensures Eps(tcp[..k + 1]) == Eps(tcp[..k]) + [tcp[k].ep]
  {
    assert tcp[..k + 1][..k] == tcp[..k];
  }

  datatype Routed = Routed(deliveries: seq<Delivery>, tcp: seq<Entry>, hangups: bool)

  /**
    `Mainloop::route_msg(buf, target_sysid, sender_sysid)`.

    A positive target goes to the first endpoint with that system id,
    looking through the fixed endpoints before the TCP list; when there is
    none the message is dropped (the code logs an error).  Any other target
    means broadcast: the message goes once to every endpoint, fixed ones
    first and in registry order, except to those of the sender's system.
    A TCP destination that answers -EPIPE is marked for removal and the
    loop is told to process hang-ups; a fixed one is never marked.
  */
  method RouteMsg(fixed: seq<Endpoint>, tcp: seq<Entry>, hangups: bool, target: int, sender: int,
                  answer: Endpoint -> int) returns (r: Routed)
    ensures target > 0 ==>
      match FirstIndex(fixed, (e: Endpoint) => e.sysid == target)
      case Some(i) => r == Routed([WriteMsg(fixed[i], answer)], tcp, hangups)
      case None =>
        match FirstIndex(tcp, (x: Entry) => x.ep.sysid == target)
        case Some(j) =>
          var hup := answer(tcp[j].ep) == -EPIPE;
          r.deliveries == [WriteMsg(tcp[j].ep, answer)] &&
          r.tcp == (if hup then tcp[j := tcp[j].(remove := true)] else tcp) &&
          r.hangups == (hangups || hup)
        case None => r == Routed([], tcp, hangups)
    ensures target <= 0 ==>
      r.deliveries == Deliver(Filter(fixed, NotFrom(sender)) + Filter(Eps(tcp), NotFrom(sender)), answer)
    ensures target <= 0 ==> r.tcp == Mark(tcp, sender, answer)
    ensures target <= 0 ==> r.hangups == (hangups || AnyHangup(tcp, sender, answer))
  {
    if target > 0 {
      var fi := FirstIndex(fixed, (e: Endpoint) => e.sysid == target);
      if fi.Some? {
        return Routed([WriteMsg(fixed[fi.value], answer)], tcp, hangups);
      }
      var ti := FirstIndex(tcp, (x: Entry) => x.ep.sysid == target);
      if ti.Some? {
        var j := ti.value;
        var d := WriteMsg(tcp[j].ep, answer);
        if d.ret == -EPIPE {
          return Routed([d], tcp[j := tcp[j].(remove := true)], true);
        }
        return Routed([d], tcp, hangups);
      }
      return Routed([], tcp, hangups);
    }
    var front := BroadcastFixed(fixed, sender, answer);
    var back, marked, hup := BroadcastTcp(tcp, sender, answer);
    DeliverConcat(Filter(fixed, NotFrom(sender)), Filter(Eps(tcp), NotFrom(sender)), answer);
    r := Routed(front + back, marked, hangups || hup);
  }

  /** A broadcast never writes to the sender's own system, and a
      connection is marked only when it was written to. */
  lemma BroadcastSkipsSender(fixed: seq<Endpoint>, tcp: seq<Entry>, sender: int, answer: Endpoint -> int)
    ensures forall e :: e in Filter(fixed, NotFrom(sender)) + Filter(Eps(tcp), NotFrom(sender)) ==> e.sysid != sender
    ensures forall i :: 0 <= i < |tcp| && tcp[i].ep.sysid == sender ==> Mark(tcp, sender, answer)[i] == tcp[i]
  {
    FilterMembers(fixed, NotFrom(sender));
    FilterMembers(Eps(tcp), NotFrom(sender));
    MarkSpec(tcp, sender, answer);
  }

  predicate Live(x: Entry) {
    !x.remove
  }

  /** A marked connection with a reconnection period goes to a retry timer. */
  predicate ToRetry(x: Entry) {
    x.remove && x.ep.retryTimeout > 0
  }

  /** A marked connection without one is deleted. */
  predicate ToDelete(x: Entry) {
    x.remove && x.ep.retryTimeout <= 0
  }

  /** How the three outcome lists of the sweep grow with one more entry. */
  lemma SweepStep(tcp: seq<Entry>, i: nat)
    requires i < |tcp|
    ensures Filter(tcp[..i + 1], Live) == Filter(tcp[..i], Live) + (if Live(tcp[i]) then [tcp[i]] else [])
    ensures Eps(Filter(tcp[..i + 1], ToRetry)) == Eps(Filter(tcp[..i], ToRetry)) + (if ToRetry(tcp[i]) then [tcp[i].ep] else [])
    ensures Eps(Filter(tcp[..i + 1], ToDelete)) == Eps(Filter(tcp[..i], ToDelete)) + (if ToDelete(tcp[i]) then [tcp[i].ep] else [])
  {
    assert tcp[..i + 1] == tcp[..i] + [tcp[i]];
    FilterSnoc(tcp[..i], tcp[i], Live);
    FilterSnoc(tcp[..i], tcp[i], ToRetry);
    FilterSnoc(tcp[..i], tcp[i], ToDelete);
    var r := Filter(tcp[..i], ToRetry) + [tcp[i]];
    assert r[..|r| - 1] == Filter(tcp[..i], ToRetry);
    var d := Filter(tcp[..i], ToDelete) + [tcp[i]];
    assert d[..|d| - 1] == Filter(tcp[..i], ToDelete);
  }

  /**
    `Mainloop::process_tcp_hangups`: unlinks the marked connections, first
    at the head of the list and then after the first live one.  Each
    removed connection is handed to `_add_tcp_retry` when it has a positive
    reconnection period and deleted otherwise; the flag is cleared.
  */
  method ProcessTcpHangups(tcp: seq<Entry>) returns (kept: seq<Entry>, retried: seq<Endpoint>, deleted: seq<Endpoint>, hangups: bool)
    ensures kept == Filter(tcp, Live)
    ensures retried == Eps(Filter(tcp, ToRetry))
    ensures deleted == Eps(Filter(tcp, ToDelete))
    ensures !hangups
  {
    kept, retried, deleted := [], [], [];
    var first := 0;
    while first < |tcp| && tcp[first].remove
      invariant 0 <= first <= |tcp|
      invariant kept == Filter(tcp[..first], Live)
      invariant retried == Eps(Filter(tcp[..first], ToRetry))
      invariant deleted == Eps(Filter(tcp[..first], ToDelete))
    {
      SweepStep(tcp, first);
      if tcp[first].ep.retryTimeout > 0 {
        retried := retried + [tcp[first].ep];
      } else {
        deleted := deleted + [tcp[first].ep];
      }
      first := first + 1;
    }
    var current := first;
    while current < |tcp|
      invariant first <= current <= |tcp|
      invariant kept == Filter(tcp[..current], Live)
      invariant retried == Eps(Filter(tcp[..current], ToRetry))
      invariant deleted == Eps(Filter(tcp[..current], ToDelete))
    {
      SweepStep(tcp, current);
      if tcp[current].remove {
        if tcp[current].ep.retryTimeout > 0 {
          retried := retried + [tcp[current].ep];
        } else {
          deleted := deleted + [tcp[current].ep];
        }
      } else {
        kept := kept + [tcp[current]];
      }
      current := current + 1;
    }
    assert tcp[..current] == tcp;
    hangups := false;
  }

  /** Every connection leaves the sweep in exactly one way: kept, handed to
      a retry timer, or deleted; and no marked connection is kept. */
  lemma HangupsPartition(tcp: seq<Entry>)
    ensures |Filter(tcp, Live)| + |Filter(tcp, ToRetry)| + |Filter(tcp, ToDelete)| == |tcp|
    ensures forall x :: x in Filter(tcp, ToRetry) ==> x !in Filter(tcp, ToDelete) && x !in Filter(tcp, Live)
    ensures forall x :: x in Filter(tcp, Live) ==> !x.remove
  {
    HangupsCount(tcp);
    FilterMembers(tcp, Live);
    FilterMembers(tcp, ToRetry);
    FilterMembers(tcp, ToDelete);
  }

  lemma {:induction false} HangupsCount(tcp: seq<Entry>)
    ensures |Filter(tcp, Live)| + |Filter(tcp, ToRetry)| + |Filter(tcp, ToDelete)| == |tcp|
    decreases |tcp|
  {
    if tcp != [] {
      var n := |tcp| - 1;
      HangupsCount(tcp[..n]);
      assert tcp == tcp[..n] + [tcp[n]];
      FilterSnoc(tcp[..n], tcp[n], Live);
      FilterSnoc(tcp[..n], tcp[n], ToRetry);
      FilterSnoc(tcp[..n], tcp[n], ToDelete);
    }
  }

  datatype Registered = Registered(ret: int, tcp: seq<Entry>)

  /** `_add_tcp_endpoint`: the new connection, unmarked, becomes the head of
      the list; when allocating the entry fails the call fails with
      -ENOMEM and the list is untouched. */
  function AddTcpEndpoint(tcp: seq<Entry>, ep: Endpoint, allocOk: bool): (r: Registered)
    ensures !allocOk ==> r == Registered(-ENOMEM, tcp)
    ensures allocOk ==> r.ret == 0 && |r.tcp| == |tcp| + 1 && r.tcp[0] == Entry(ep, false) && r.tcp[1..] == tcp
  {
    if !allocOk then Registered(-ENOMEM, tcp) else Registered(0, [Entry(ep, false)] + tcp)
  }

  /** A connection registered by `_add_tcp_endpoint` takes part in every
      later broadcast from another system: its delivery comes right after
      the fixed endpoints' and ahead of the connections already listed. */
  lemma AddedConnectionReceivesBroadcast(fixed: seq<Endpoint>, tcp: seq<Entry>, ep: Endpoint, sender: int,
                                         answer: Endpoint -> int)
    requires ep.sysid != sender
    ensures
      var tcp' := AddTcpEndpoint(tcp, ep, true).tcp;
      Deliver(Filter(fixed, NotFrom(sender)) + Filter(Eps(tcp'), NotFrom(sender)), answer) ==
        Deliver(Filter(fixed, NotFrom(sender)), answer) +
        ([WriteMsg(ep, answer)] + Deliver(Filter(Eps(tcp), NotFrom(sender)), answer))
  {
    var tcp' := AddTcpEndpoint(tcp, ep, true).tcp;
    assert tcp' == [Entry(ep, false)] + tcp;
    var f := Filter(fixed, NotFrom(sender));
    var t := Filter(Eps(tcp), NotFrom(sender));
    EpsCons(Entry(ep, false), tcp);
    FilterCons(ep, Eps(tcp), NotFrom(sender));
    assert Filter(Eps(tcp'), NotFrom(sender)) == [ep] + t;
    DeliverConcat(f, [ep] + t, answer);
    DeliverCons(ep, t, answer);
  }

  lemma FilterCons(e: Endpoint, eps: seq<Endpoint>, keep: Endpoint -> bool)
    requires keep(e)
    ensures Filter([e] + eps, keep) == [e] + Filter(eps, keep)
  {
    FilterConcat([e], eps, keep);
    assert Filter([e], keep) == [e] by { assert [e][..0] == []; }
  }

  lemma DeliverCons(e: Endpoint, eps: seq<Endpoint>, answer: Endpoint -> int)
    ensures Deliver([e] + eps, answer) == [WriteMsg(e, answer)] + Deliver(eps, answer)
  {
    DeliverConcat([e], eps, answer);
    assert Deliver([e], answer) == [WriteMsg(e, answer)] by { assert [e][..0] == []; }
  }

  lemma EpsCons(x: Entry, tcp: seq<Entry>)
    ensures Eps([x] + tcp) == [x.ep] + Eps(tcp)
  {
    var a := Eps([x] + tcp);
    assert |a| == |[x.ep] + Eps(tcp)|;
    forall i | 0 <= i < |a| ensures a[i] == ([x.ep] + Eps(tcp))[i] {
      assert ([x] + tcp)[i] == if i == 0 then x else tcp[i - 1];
    }
  }

  datatype Retry = Retry(timers: seq<Timer>, closed: bool, timer: Option<Timer>)

  /**
    `_add_tcp_retry`: a connection without a positive reconnection period
    is left alone.  Otherwise its socket is closed and a timer is armed
    with a period of `retry_timeout` seconds, computed in milliseconds and
    passed as a `uint32_t`.  A timer that cannot be created only costs a
    warning: no reconnection will be attempted.
  */
  function AddTcpRetry(timers: seq<Timer>, ep: Endpoint, id: nat, created: bool): (r: Retry)
    ensures ep.retryTimeout <= 0 ==> r == Retry(timers, false, None)
    ensures ep.retryTimeout > 0 ==> r.closed && (r.timer.Some? <==> created)
    ensures ep.retryTimeout > 0 && created ==> r.timers == [r.timer.value] + timers
    ensures ep.retryTimeout > 0 && !created ==> r.timers == timers
    ensures r.timer.Some? ==> ToMsec(r.timer.value.period) == (MsecPerSec * ep.retryTimeout) % Uint32Modulus
  {
    if ep.retryTimeout <= 0 then
      Retry(timers, false, None)
    else
      var a := AddTimeout(timers, MsecPerSec * ep.retryTimeout, id, created);
      Retry(a.timers, true, a.t)
  }

  /** Reconnection periods up to 4294967 s become timers of exactly that
      many seconds; a longer one wraps around in the 32-bit millisecond
      count (4294968 s becomes 704 ms). */
  lemma RetryPeriod(timers: seq<Timer>, ep: Endpoint, id: nat)
    requires 0 < ep.retryTimeout
    ensures ep.retryTimeout <= 4294967 ==> AddTcpRetry(timers, ep, id, true).timer.value.period == Interval(ep.retryTimeout, 0)
    ensures ep.retryTimeout == 4294968 ==> AddTcpRetry(timers, ep, id, true).timer.value.period == Interval(0, 704 * NsecPerMsec)
  {
  }

  datatype Reconnect = Reconnect(keep: bool, tcp: seq<Entry>, closed: bool)

  /**
    `_retry_timeout_cb`, fired by a connection's retry timer.  When the
    connection cannot be reopened, or reopened but not registered (its
    socket is then closed again), the timer keeps firing; once the
    connection is back at the head of the TCP list the timer stops.
  */
  function RetryTimeoutCb(tcp: seq<Entry>, ep: Endpoint, openOk: bool, allocOk: bool): (r: Reconnect)
    ensures !openOk ==> r == Reconnect(true, tcp, false)
    ensures openOk && !allocOk ==> r == Reconnect(true, tcp, true)
    ensures openOk && allocOk ==> !r.keep && !r.closed && r.tcp == [Entry(ep, false)] + tcp
  {
    if !openOk then
      Reconnect(true, tcp, false)
    else
      var a := AddTcpEndpoint(tcp, ep, allocOk);
      if a.ret < 0 then Reconnect(true, tcp, true) else Reconnect(false, a.tcp, false)
  }

  /** The timer stops exactly when the connection was registered again. */
  lemma RetryStopsOnlyWhenRegistered(tcp: seq<Entry>, ep: Endpoint, openOk: bool, allocOk: bool)
    ensures !RetryTimeoutCb(tcp, ep, openOk, allocOk).keep <==>
      |RetryTimeoutCb(tcp, ep, openOk, allocOk).tcp| == |tcp| + 1
    ensures RetryTimeoutCb(tcp, ep, openOk, allocOk).keep ==> RetryTimeoutCb(tcp, ep, openOk, allocOk).tcp == tcp
  {
  }

  datatype Opened = Opened(ret: int, epollfd: int)

  /** `Mainloop::open`: refuses with -EBUSY when an epoll instance exists;
      otherwise `created` is what `epoll_create1` returned. */
  function Open(epollfd: int, created: int): (o: Opened)
    ensures epollfd != -1 ==> o == Opened(-EBUSY, epollfd)
    ensures epollfd == -1 && created == -1 ==> o == Opened(-1, -1)
    ensures epollfd == -1 && created != -1 ==> o == Opened(0, created)
  {
    if epollfd != -1 then Opened(-EBUSY, epollfd)
    else if created == -1 then Opened(-1, -1)
    else Opened(0, created)
  }

  /** Once the loop has been opened, opening it again is refused and
      leaves the epoll instance in place. */
  lemma SecondOpenBusy(created: int, again: int)
    requires Open(-1, created).ret == 0
    ensures Open(Open(-1, created).epollfd, again) == Opened(-EBUSY, created)
  {
  }
}
