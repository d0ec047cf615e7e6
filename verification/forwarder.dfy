/**
  The stand-alone master/slave forwarder of main.cpp: one UART endpoint,
  the master (the flight stack), and an array of other endpoints.  Traffic
  from the master goes to every endpoint of the array; traffic from any
  other endpoint goes to the master.  An endpoint whose write would block
  is watched for writability until its pending data has been flushed.

  Endpoints are numbered.  What `read_msg`, `write_msg` and
  `flush_pending_msgs` return is given as parameters; command-line
  tokenizing by `getopt_long` and the number conversion `safe_atoul` are
  library code, so the parser receives the options getopt reports, the
  positional arguments it leaves, and the conversion as a function.
 */
module Forwarder {
  import opened Common
  import Router

  /** MAX_PORTS: the size of the null-terminated endpoint array. */
  const MaxPorts: nat := 10

  /** The UART speed used when no `-b` is given. */
  const DefaultBaudrate: nat := 57600

  /** The epoll events an endpoint is registered for. */
  datatype Watch = In | InOut

  /** One `write_msg` of packet number `packet` to endpoint `dest`, and
      whether it blocked (-EAGAIN), which makes the loop watch `dest` for
      EPOLLOUT. */
  datatype Write = Write(dest: nat, packet: nat, watchOut: bool)

  function WriteMsg(dest: nat, packet: nat, answer: (nat, nat) -> int): (w: Write)
    ensures w.dest == dest && w.packet == packet
    ensures w.watchOut <==> answer(dest, packet) == -EAGAIN
  {
    Write(dest, packet, answer(dest, packet) == -EAGAIN)
  }

  /** Where packet number `k`, read from endpoint `from`, is written. */
  function Burst(from: nat, master: nat, endpoints: seq<nat>, k: nat, answer: (nat, nat) -> int): (ws: seq<Write>)
    ensures from == master ==> |ws| == |endpoints|
    ensures from != master ==> |ws| == 1
    decreases |endpoints|
  {
    if from != master then [WriteMsg(master, k, answer)]
    else if endpoints == [] then []
    else Burst(from, master, endpoints[..|endpoints| - 1], k, answer) + [WriteMsg(endpoints[|endpoints| - 1], k, answer)]
  }

  /** The writes caused by the first `n` packets read from `from`. */
  function Bursts(from: nat, master: nat, endpoints: seq<nat>, n: nat, answer: (nat, nat) -> int): (ws: seq<Write>)
    ensures |ws| == n * (if from == master then |endpoints| else 1)
  {
    if n == 0 then [] else Bursts(from, master, endpoints, n - 1, answer) + Burst(from, master, endpoints, n - 1, answer)
  }

  /** The number of packets `read_msg` delivers before its first result
      that is not positive (running out of results counts as that). */
  function Delivered(results: seq<int>): (n: nat)
    ensures n <= |results|
    ensures forall i :: 0 <= i < n ==> results[i] > 0
    ensures n < |results| ==> results[n] <= 0
  {
    if results == [] || results[0] <= 0 then 0 else 1 + Delivered(results[1..])
  }

  /**
    `Mainloop::handle_read(endpoint)`: reads packets until `read_msg`
    returns 0 or less, forwarding each as it arrives.  `results` are the
    successive results of `read_msg`; packets are numbered from 0.
  */
  method HandleRead(from: nat, master: nat, endpoints: seq<nat>, results: seq<int>, answer: (nat, nat) -> int)
    returns (ws: seq<Write>)
    requires |endpoints| < MaxPorts
    ensures ws == Bursts(from, master, endpoints, Delivered(results), answer)
  {
    ws := [];
    var k := 0;
    while k < |results| && results[k] > 0
      invariant 0 <= k <= Delivered(results)
      invariant ws == Bursts(from, master, endpoints, k, answer)
    {
      DeliveredPrefix(results, k);
      var burst: seq<Write> := [];
      if from == master {
        var j := 0;
        while j < |endpoints|
          invariant 0 <= j <= |endpoints|
          invariant burst == Burst(from, master, endpoints[..j], k, answer)
        {
          assert endpoints[..j + 1][..j] == endpoints[..j];
          burst := burst + [WriteMsg(endpoints[j], k, answer)];
          j := j + 1;
        }
        assert endpoints[..j] == endpoints;
      } else {
        burst := [WriteMsg(master, k, answer)];
      }
      ws := ws + burst;
      k := k + 1;
    }
    DeliveredStop(results, k);
  }

  lemma {:induction false} DeliveredPrefix(results: seq<int>, k: nat)
    requires k < |results| && results[k] > 0 && k <= Delivered(results)
    ensures k + 1 <= Delivered(results)
  {
  }

  lemma DeliveredStop(results: seq<int>, k: nat)
    requires k <= Delivered(results)
    requires k == |results| || results[k] <= 0
    ensures k == Delivered(results)
  {
  }

  /** Packet `k` from the master reaches endpoint `j` of the array in write
      number `k * |endpoints| + j`: every endpoint gets every packet, once,
      packet after packet and in array order. */
  lemma {:induction false} MasterFansOut(master: nat, endpoints: seq<nat>, n: nat, answer: (nat, nat) -> int, k: nat, j: nat)
    requires k < n && j < |endpoints|
    ensures k * |endpoints| + j < |Bursts(master, master, endpoints, n, answer)|
    ensures Bursts(master, master, endpoints, n, answer)[k * |endpoints| + j] == WriteMsg(endpoints[j], k, answer)
  {
    var m := |endpoints|;
    var prev := Bursts(master, master, endpoints, n - 1, answer);
    assert |prev| == (n - 1) * m;
    if k < n - 1 {
      MasterFansOut(master, endpoints, n - 1, answer, k, j);
      assert k * m + j < (k + 1) * m <= (n - 1) * m;
    } else {
      assert k * m == (n - 1) * m;
      BurstIndex(master, endpoints, k, answer, j);
    }
  }

  lemma {:induction false} BurstIndex(master: nat, endpoints: seq<nat>, k: nat, answer: (nat, nat) -> int, j: nat)
    requires j < |endpoints|
    ensures Burst(master, master, endpoints, k, answer)[j] == WriteMsg(endpoints[j], k, answer)
    decreases |endpoints|
  {
    var n := |endpoints| - 1;
    if j < n {
      BurstIndex(master, endpoints[..n], k, answer, j);
    }
  }

  /** Every packet from any other endpoint goes to the master, and only there. */
  lemma {:induction false} OthersReachMaster(from: nat, master: nat, endpoints: seq<nat>, n: nat, answer: (nat, nat) -> int, k: nat)
    requires from != master && k < n
    ensures Bursts(from, master, endpoints, n, answer)[k] == WriteMsg(master, k, answer)
  {
    if k < n - 1 {
      OthersReachMaster(from, master, endpoints, n - 1, answer, k);
    }
  }

  /** The watch after writes: each blocked write adds EPOLLOUT to its destination. */
  function AfterWrites(watch: map<nat, Watch>, ws: seq<Write>): (w: map<nat, Watch>)
    ensures w.Keys == watch.Keys + (set i | 0 <= i < |ws| && ws[i].watchOut :: ws[i].dest)
    ensures forall i :: 0 <= i < |ws| && ws[i].watchOut ==> w[ws[i].dest] == InOut
    ensures forall d :: d in watch && (forall i :: 0 <= i < |ws| && ws[i].watchOut ==> ws[i].dest != d) ==>
      w[d] == watch[d]
    decreases |ws|
  {
    if ws == [] then watch
    else
      var init := ws[..|ws| - 1];
      var w0 := AfterWrites(watch, init);
      var last := ws[|ws| - 1];
      assert forall i :: 0 <= i < |init| ==> init[i] == ws[i];
      if last.watchOut then w0[last.dest := InOut] else w0
  }

  /** `Mainloop::handle_canwrite(e)`: `flushed` is what `flush_pending_msgs`
      returned.  Unless it would block again, EPOLLOUT is dropped. */
  function HandleCanwrite(watch: map<nat, Watch>, e: nat, flushed: int): (w: map<nat, Watch>)
    ensures flushed != -EAGAIN ==> w == watch[e := In]
    ensures flushed == -EAGAIN ==> w == watch
  {
    if flushed != -EAGAIN then watch[e := In] else watch
  }

  /** An epoll event on endpoint `ep`. */
  datatype Event = Event(ep: nat, readable: bool, writable: bool)

  /**
    One event of `Mainloop::loop`: the read side is handled first, then the
    write side.  Returns the writes made and the resulting watches.
  */
  method HandleEvent(ev: Event, master: nat, endpoints: seq<nat>, watch: map<nat, Watch>,
                     results: seq<int>, answer: (nat, nat) -> int, flushed: int)
    returns (ws: seq<Write>, w: map<nat, Watch>)
    requires |endpoints| < MaxPorts
    ensures ws == (if ev.readable then Bursts(ev.ep, master, endpoints, Delivered(results), answer) else [])
    ensures w == (if ev.writable then HandleCanwrite(AfterWrites(watch, ws), ev.ep, flushed) else AfterWrites(watch, ws))
  {
    ws := [];
    if ev.readable {
      ws := HandleRead(ev.ep, master, endpoints, results, answer);
    }
    w := AfterWrites(watch, ws);
    if ev.writable {
      w := HandleCanwrite(w, ev.ep, flushed);
    }
  }

  /** Because writing is handled after reading, an endpoint that drained
      its queue ends the event watched for input only, whatever the
      packets read in the same event did to its watch. */
  lemma DrainedAfterRead(watch: map<nat, Watch>, ws: seq<Write>, e: nat, flushed: int)
    requires flushed != -EAGAIN
    ensures e in HandleCanwrite(AfterWrites(watch, ws), e, flushed)
    ensures HandleCanwrite(AfterWrites(watch, ws), e, flushed)[e] == In
  {
  }

  /** Reading and writing in the same event do not undo each other for
      other endpoints: a destination whose write blocked is still watched
      for EPOLLOUT after the event's write side has run. */
  lemma BlockedWriteWatched(watch: map<nat, Watch>, ws: seq<Write>, e: nat, flushed: int, i: nat)
    requires i < |ws| && ws[i].watchOut && ws[i].dest != e
    ensures ws[i].dest in HandleCanwrite(AfterWrites(watch, ws), e, flushed)
    ensures HandleCanwrite(AfterWrites(watch, ws), e, flushed)[ws[i].dest] == InOut
  {
  }

  /** An option as `getopt_long` reports it: `-h`, `-b`/`--baudrate` with
      its argument, or anything it does not accept ('?').  The long-option
      table holds only `baudrate`, so `--help` is reported as '?'. */
  datatype Opt = Help | Baudrate(arg: string) | Invalid

  datatype Parsed = Parsed(ret: int, baudrate: nat, uart: Option<string>, addr: Option<string>)

  /** Every option before position `i` is a baudrate that converts. */
  predicate ValidBefore(opts: seq<Opt>, i: nat, atoul: string -> Option<nat>)
    requires i <= |opts|
  {
    forall j :: 0 <= j < i ==> opts[j].Baudrate? && atoul(opts[j].arg).Some?
  }

  /** The value of the last baudrate option, or `dflt` when there is none. */
  function LastBaudrate(opts: seq<Opt>, dflt: nat, atoul: string -> Option<nat>): nat
    requires ValidBefore(opts, |opts|, atoul)
    decreases |opts|
  {
    if opts == [] then dflt else LastBaudrate(opts[1..], atoul(opts[0].arg).value, atoul)
  }

  /**
    `parse_argv`: options are handled in order.  `-h` stops with 0; a
    baudrate that does not convert, or an unknown option, stops with
    -EINVAL; afterwards exactly two positional arguments must remain, the
    UART device and the UDP address, and the result is 2.
  */
  function ParseArgv(opts: seq<Opt>, positional: seq<string>, baudrate: nat, atoul: string -> Option<nat>): (p: Parsed)
    ensures p.ret == 0 || p.ret == 2 || p.ret == -EINVAL
    ensures p.ret == 0 <==> exists i :: 0 <= i < |opts| && opts[i].Help? && ValidBefore(opts, i, atoul)
    ensures p.ret == 2 <==> ValidBefore(opts, |opts|, atoul) && |positional| == 2
    ensures p.ret == 2 ==> p.uart == Some(positional[0]) && p.addr == Some(positional[1])
    ensures p.ret == 2 ==> p.baudrate == LastBaudrate(opts, baudrate, atoul)
    ensures p.ret != 2 ==> p.uart == None && p.addr == None
    decreases |opts|
  {
    if opts == [] then
      if |positional| != 2 then Parsed(-EINVAL, baudrate, None, None)
      else Parsed(2, baudrate, Some(positional[0]), Some(positional[1]))
    else match opts[0]
      case Help => Parsed(0, baudrate, None, None)
      case Invalid => Parsed(-EINVAL, baudrate, None, None)
      case Baudrate(arg) =>
        match atoul(arg)
        case None => Parsed(-EINVAL, baudrate, None, None)
        case Some(v) =>
          var p := ParseArgv(opts[1..], positional, v, atoul);
          assert p.ret == 0 ==> exists i :: 0 <= i < |opts| && opts[i].Help? && ValidBefore(opts, i, atoul) by {
            if p.ret == 0 {
              var i :| 0 <= i < |opts[1..]| && opts[1..][i].Help? && ValidBefore(opts[1..], i, atoul);
              assert opts[i + 1].Help? && ValidBefore(opts, i + 1, atoul);
            }
          }
          assert (exists i :: 0 <= i < |opts| && opts[i].Help? && ValidBefore(opts, i, atoul)) ==> p.ret == 0 by {
            if i :| 0 <= i < |opts| && opts[i].Help? && ValidBefore(opts, i, atoul) {
              assert i > 0;
              assert opts[1..][i - 1].Help? && ValidBefore(opts[1..], i - 1, atoul);
            }
          }
          p
  }

  /** Without options the baudrate stays the default one. */
  lemma DefaultBaudrateKept(positional: seq<string>, atoul: string -> Option<nat>)
    requires |positional| == 2
    ensures ParseArgv([], positional, DefaultBaudrate, atoul) == Parsed(2, DefaultBaudrate, Some(positional[0]), Some(positional[1]))
  {
  }

  /** `Mainloop::open` of main.cpp behaves as the router's: once open, a
      second call is refused with -EBUSY. */
  lemma SecondOpenBusy(created: int, again: int)
    requires Router.Open(-1, created).ret == 0
    ensures Router.Open(Router.Open(-1, created).epollfd, again).ret == -EBUSY
  {
    Router.SecondOpenBusy(created, again);
  }
}
