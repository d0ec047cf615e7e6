/**
  The main loop's timers (`Mainloop::add_timeout`, `del_timeout` and
  `_del_timeouts`).  A timer is a periodic timerfd; the loop keeps them in
  a list, newest first.  Deleting a timer only marks it: the sweep at the
  end of every loop iteration unlinks the marked ones, so that a callback
  may delete its own timer while the loop still walks the list.

  Creating the timerfd and registering it with epoll are system calls; the
  model receives whether both succeeded.
 */
module Scheduler {
  import opened Common

  /** A `struct timespec` without the clock: whole seconds and the
      nanoseconds below one second. */
  datatype Interval = Interval(sec: nat, nsec: nat)

  /** A timer: its identity (the `Timeout *` of the code), the period it
      was armed with, the time to its first expiry, and the deletion mark. */
  datatype Timer = Timer(id: nat, period: Interval, first: Interval, removeMe: bool)

  /** The interval `add_timeout` programs for `msec` milliseconds. */
  function ToInterval(msec: nat): (i: Interval)
    ensures i.nsec < MsecPerSec * NsecPerMsec && i.nsec % NsecPerMsec == 0
    ensures i.sec * MsecPerSec + i.nsec / NsecPerMsec == msec
  {
    Interval(msec / MsecPerSec, (msec % MsecPerSec) * NsecPerMsec)
  }

  /** The length of an interval in whole milliseconds. */
  function ToMsec(i: Interval): nat {
    i.sec * MsecPerSec + i.nsec / NsecPerMsec
  }

  /** Two different millisecond counts never give the same interval, and
      every interval with whole milliseconds below a second comes from
      exactly one count. */
  lemma IntervalRoundTrip(msec: nat, i: Interval)
    ensures ToMsec(ToInterval(msec)) == msec
    ensures i.nsec < MsecPerSec * NsecPerMsec && i.nsec % NsecPerMsec == 0 ==> ToInterval(ToMsec(i)) == i
  {
    if i.nsec < MsecPerSec * NsecPerMsec && i.nsec % NsecPerMsec == 0 {
      var m := i.nsec / NsecPerMsec;
      assert m < MsecPerSec;
      assert ToMsec(i) == i.sec * MsecPerSec + m;
      assert ToMsec(i) / MsecPerSec == i.sec;
      assert ToMsec(i) % MsecPerSec == m;
    }
  }

  datatype Added = Added(timers: seq<Timer>, t: Option<Timer>)

  /**
    `add_timeout(timeout_msec, cb, data)`.  The argument is a `uint32_t`,
    so whatever the caller computed is reduced modulo 2^32.  On success the
    new timer, unmarked, becomes the head of the list; on failure the call
    returns NULL and the list is untouched.
  */
  function AddTimeout(timers: seq<Timer>, msec: int, id: nat, created: bool): (a: Added)
    ensures !created ==> a == Added(timers, None)
    ensures created ==> a.t.Some? && a.timers == [a.t.value] + timers
    ensures a.t.Some? ==>
      var t := a.t.value;
      t.id == id && !t.removeMe && t.first == t.period &&
      ToMsec(t.period) == msec % Uint32Modulus && t.period.nsec < MsecPerSec * NsecPerMsec
  {
    if !created then
      Added(timers, None)
    else
      var period := ToInterval(msec % Uint32Modulus);
      var t := Timer(id, period, period, false);
      Added([t] + timers, Some(t))
  }

  /** `del_timeout(t)`: marks the timer and nothing else. */
  function DelTimeout(timers: seq<Timer>, id: nat): (r: seq<Timer>)
    ensures |r| == |timers|
    ensures forall i :: 0 <= i < |r| ==>
      r[i] == timers[i].(removeMe := timers[i].removeMe || timers[i].id == id)
  {
    if timers == [] then []
    else
      var t := timers[0];
      [t.(removeMe := t.removeMe || t.id == id)] + DelTimeout(timers[1..], id)
  }

  predicate Unmarked(t: Timer) {
    !t.removeMe
  }

  /**
    `_del_timeouts`: first drops the marked timers at the head, so that the
    list starts with a live one, then unlinks every later marked timer.
    The result is the list of unmarked timers, in their order.
  */
  method DelTimeouts(timers: seq<Timer>) returns (kept: seq<Timer>)
    ensures kept == Filter(timers, Unmarked)
  {
    var i := 0;
    while i < |timers| && timers[i].removeMe
      invariant 0 <= i <= |timers|
      invariant Filter(timers[..i], Unmarked) == []
    {
      assert timers[..i + 1][..i] == timers[..i];
      i := i + 1;
    }
    kept := [];
    if i < |timers| {
      assert timers[..i + 1][..i] == timers[..i];
      kept := [timers[i]];
      var current := i + 1;
      while current < |timers|
        invariant i < current <= |timers|
        invariant kept == Filter(timers[..current], Unmarked)
      {
        assert timers[..current + 1][..current] == timers[..current];
        if !timers[current].removeMe {
          kept := kept + [timers[current]];
        }
        current := current + 1;
      }
      assert timers[..current] == timers;
    } else {
      assert timers[..i] == timers;
    }
  }

  /** The timers other than `id`. */
  function OtherThan(id: nat): Timer -> bool {
    (t: Timer) => t.id != id
  }

  /** Sweeping a list whose marks were set, on an unmarked list, exactly
      on the timers that fail `keep` leaves the timers that pass it. */
  lemma {:induction false} SweepMarked(timers: seq<Timer>, marked: seq<Timer>, keep: Timer -> bool)
    requires |marked| == |timers|
    requires forall i :: 0 <= i < |timers| ==>
      (Unmarked(marked[i]) <==> keep(timers[i])) && (Unmarked(marked[i]) ==> marked[i] == timers[i])
    ensures Filter(marked, Unmarked) == Filter(timers, keep)
    decreases |timers|
  {
    if timers != [] {
      var n := |timers| - 1;
      SweepMarked(timers[..n], marked[..n], keep);
      assert timers == timers[..n] + [timers[n]];
      assert marked == marked[..n] + [marked[n]];
      FilterSnoc(marked[..n], marked[n], Unmarked);
      FilterSnoc(timers[..n], timers[n], keep);
    }
  }

  /** Deleting a timer and sweeping removes that timer, and only it, from a
      list with no other marks; the others keep their order. */
  lemma DeleteThenSweep(timers: seq<Timer>, id: nat)
    requires forall i :: 0 <= i < |timers| ==> !timers[i].removeMe
    ensures Filter(DelTimeout(timers, id), Unmarked) == Filter(timers, OtherThan(id))
  {
    SweepMarked(timers, DelTimeout(timers, id), OtherThan(id));
  }

  /** A second sweep finds nothing left to remove. */
  lemma SweepIdempotent(timers: seq<Timer>)
    ensures Filter(Filter(timers, Unmarked), Unmarked) == Filter(timers, Unmarked)
  {
    FilterIdempotent(timers, Unmarked);
  }
}
