/**
  The automatic plot refresh of lobster/actions.py. `Actions` owns a queue
  of messages for a plotting process; `take` asks for a new set of plots at
  most every 15 minutes (or always, when forced), and the process renders
  once per message until it reads `'stop'`. Without a `plotdir` the queue is
  a DummyQueue that swallows every message and answers every read with None.
  Instants are counted in microseconds, the resolution of `datetime`.
*/
module Refresh {
  import opened Common

  /** A message on the plot queue: `'plot'` or `'stop'`. */
  datatype Message = Plot | Stop

  const MicrosPerSecond: int := 1_000_000
  const SecondsPerDay: int := 86_400

  /** `15 * 60`: the refresh interval in seconds. */
  const Interval: int := 900

  /**
    The `seconds` field of a `timedelta` of `delta` microseconds. A
    timedelta is normalised to days, seconds in [0, 86400) and microseconds
    in [0, 1000000), rounding towards minus infinity, so whole days (also
    negative ones) are not in this field.
  */
  function Seconds(delta: int): (s: int)
    ensures 0 <= s < SecondsPerDay
  {
    (delta / MicrosPerSecond) % SecondsPerDay
  }

  /** The `days` field of the same timedelta. */
  function Days(delta: int): int
  {
    (delta / MicrosPerSecond) / SecondsPerDay
  }

  /** The `microseconds` field of the same timedelta. */
  function Micros(delta: int): (u: int)
    ensures 0 <= u < MicrosPerSecond
  {
    delta % MicrosPerSecond
  }

  /** The three fields together make up the whole difference. */
  lemma Normalised(delta: int)
    ensures delta == (Days(delta) * SecondsPerDay + Seconds(delta)) * MicrosPerSecond + Micros(delta)
  {
  }

  /** The normal form is unique: any split into days, seconds and microseconds in range is the one `Seconds` reads. */
  lemma SecondsUnique(delta: int, days: int, s: int, u: int)
    requires 0 <= s < SecondsPerDay && 0 <= u < MicrosPerSecond
    requires delta == (days * SecondsPerDay + s) * MicrosPerSecond + u
    ensures Seconds(delta) == s && Days(delta) == days && Micros(delta) == u
  {
    var q := days * SecondsPerDay + s;
    assert delta == q * MicrosPerSecond + u;
    assert delta / MicrosPerSecond == q;
    assert q / SecondsPerDay == days && q % SecondsPerDay == s;
  }

  /** Whether `take` posts a request: forced, or more than 900 in the seconds field of the elapsed time. */
  predicate Due(delta: int, force: bool)
  {
    force || Seconds(delta) > Interval
  }

  /** Whole days in the elapsed time change nothing. */
  lemma {:induction false} DaysIgnored(delta: int, days: int)
    ensures Seconds(delta + days * SecondsPerDay * MicrosPerSecond) == Seconds(delta)
    ensures Due(delta + days * SecondsPerDay * MicrosPerSecond, false) == Due(delta, false)
  {
    Normalised(delta);
    SecondsUnique(delta + days * SecondsPerDay * MicrosPerSecond, Days(delta) + days, Seconds(delta), Micros(delta));
  }

  /** One day and ten seconds after the last refresh, an unforced `take` does nothing. */
  lemma DayAndTenSecondsNotDue()
    ensures !Due((SecondsPerDay + 10) * MicrosPerSecond, false)
  {
    SecondsUnique((SecondsPerDay + 10) * MicrosPerSecond, 1, 10, 0);
  }

  /** Within the first day, an unforced `take` posts exactly once 901 whole seconds have passed. */
  lemma DueWithinDay(delta: int)
    requires 0 <= delta < SecondsPerDay * MicrosPerSecond
    ensures Due(delta, false) <==> delta >= (Interval + 1) * MicrosPerSecond
  {
    SecondsUnique(delta, 0, delta / MicrosPerSecond, delta % MicrosPerSecond);
  }

  /** A clock set back by less than 85499 seconds makes an unforced `take` post at once. */
  lemma ClockBackDue(delta: int)
    requires -(SecondsPerDay - Interval - 1) * MicrosPerSecond <= delta < 0
    ensures Due(delta, false)
  {
    var q := delta / MicrosPerSecond;
    SecondsUnique(delta, -1, q + SecondsPerDay, delta % MicrosPerSecond);
  }

  /** The number of messages before the first `Stop`: how many the plotting process renders for. */
  function FirstStop(msgs: seq<Message>): (n: nat)
    ensures n <= |msgs|
    ensures forall i :: 0 <= i < n ==> msgs[i] == Plot
    ensures n < |msgs| <==> Stop in msgs
    ensures n < |msgs| ==> msgs[n] == Stop
  {
    if msgs == [] then 0
    else if msgs[0] == Stop then 0
    else
      var n := FirstStop(msgs[1..]);
      assert Stop in msgs <==> Stop in msgs[1..] by {
        assert msgs == [msgs[0]] + msgs[1..];
      }
      assert forall i :: 1 <= i < |msgs| ==> msgs[i] == msgs[1..][i - 1];
      1 + n
  }

  /** Requests queued behind a final stop are all rendered before the process ends. */
  lemma {:induction false} RendersAllBeforeStop(msgs: seq<Message>)
    requires forall i :: 0 <= i < |msgs| ==> msgs[i] == Plot
    ensures FirstStop(msgs + [Stop]) == |msgs|
  {
    var n := FirstStop(msgs + [Stop]);
    assert (msgs + [Stop])[|msgs|] == Stop;
  }

  /**
    The plot queue. A real queue (`multiprocessing.Queue`) hands messages out
    in the order they were put; a DummyQueue (`dummy`) keeps nothing, and its
    `get` returns None.
  */
  class PlotQueue {
    const dummy: bool
    /** The messages put and not yet read. */
    var items: seq<Message>

    constructor(dummy: bool)
      ensures this.dummy == dummy && items == []
    {
      this.dummy := dummy;
      items := [];
    }

    /** `put`: appends to a real queue, does nothing on a DummyQueue. */
    method Put(m: Message)
      modifies this
      ensures items == if dummy then old(items) else old(items) + [m]
    {
      if !dummy {
        items := items + [m];
      }
    }

    /**
      `get`: None from a DummyQueue; the oldest message of a real queue,
      which must hold one (a real `get` waits until it does).
    */
    method Get() returns (m: Option<Message>)
      requires dummy || items != []
      modifies this
      ensures dummy ==> m == None && items == old(items)
      ensures !dummy ==> m == Some(old(items)[0]) && items == old(items)[1..]
    {
      if dummy {
        m := None;
      } else {
        m := Some(items[0]);
        items := items[1..];
      }
    }
  }

  /**
    `plotf`: reads messages until `'stop'` or None, calling `make_plots` once
    for each other message. A call that raises is ignored and the loop goes
    on; `fails(k)` says whether the k-th call raises, and `rendered[k]`
    whether it completed. The queue must hold a stop for the loop to end.
  */
  method PlotF(q: PlotQueue, fails: nat -> bool) returns (rendered: seq<bool>)
    requires q.dummy || Stop in q.items
    modifies q
    ensures q.dummy ==> rendered == [] && q.items == old(q.items)
    ensures !q.dummy ==> |rendered| == FirstStop(old(q.items)) && q.items == old(q.items)[FirstStop(old(q.items)) + 1..]
    ensures forall k :: 0 <= k < |rendered| ==> rendered[k] == !fails(k)
  {
    ghost var msgs := q.items;
    rendered := [];
    var m := q.Get();
    while m != None && m != Some(Stop)
      invariant q.dummy ==> m == None && q.items == msgs && rendered == []
      invariant !q.dummy ==> |rendered| < |msgs| && m == Some(msgs[|rendered|]) && q.items == msgs[|rendered| + 1..]
      invariant !q.dummy ==> forall k :: 0 <= k < |rendered| ==> msgs[k] == Plot
      invariant !q.dummy ==> Stop in msgs
      invariant forall k :: 0 <= k < |rendered| ==> rendered[k] == !fails(k)
      decreases |q.items|
    {
      rendered := rendered + [!fails(|rendered|)];
      StopAhead(msgs, |rendered|);
      m := q.Get();
    }
    if !q.dummy {
      StopAt(msgs, |rendered|);
    }
  }

  /** When the first `n` messages are requests, a stop lies beyond them. */
  lemma StopAhead(msgs: seq<Message>, n: nat)
    requires n <= |msgs| && Stop in msgs && forall k :: 0 <= k < n ==> msgs[k] == Plot
    ensures n < |msgs| && Stop in msgs[n..]
  {
    var j :| 0 <= j < |msgs| && msgs[j] == Stop;
    assert msgs[n..][j - n] == Stop;
  }

  /** The first stop is where the requests before it end. */
  lemma StopAt(msgs: seq<Message>, n: nat)
    requires n < |msgs| && msgs[n] == Stop && forall k :: 0 <= k < n ==> msgs[k] == Plot
    ensures FirstStop(msgs) == n
  {
  }

  /**
    The refresh state of one Lobster run: the plot queue, whether a plotting
    process was spawned (`self.plotp` exists), and the time of the last
    request (`self.__last`).
  */
  class Actions {
    const plotq: PlotQueue
    const spawned: bool
    var last: int

    /** A process exists exactly when the queue is real, and only requests have been put on it. */
    ghost predicate Valid()
      reads this, plotq
    {
      spawned == !plotq.dummy && forall k :: 0 <= k < |plotq.items| ==> plotq.items[k] == Plot
    }

    /** `__init__` at time `now`: a DummyQueue without `plotdir`, else a real queue and a plotting process. */
    constructor(hasPlotdir: bool, now: int)
      ensures fresh(plotq) && Valid()
      ensures plotq.dummy == !hasPlotdir && plotq.items == [] && spawned == hasPlotdir && last == now
    {
      plotq := new PlotQueue(!hasPlotdir);
      spawned := hasPlotdir;
      last := now;
    }

    /**
      `take` at time `now`: when due, puts one request and records `now`;
      otherwise nothing changes.
    */
    method Take(now: int, force: bool)
      requires Valid()
      modifies this, plotq
      ensures Valid()
      ensures Due(now - old(last), force) ==> last == now && plotq.items == if plotq.dummy then old(plotq.items) else old(plotq.items) + [Plot]
      ensures !Due(now - old(last), force) ==> last == old(last) && plotq.items == old(plotq.items)
    {
      if Seconds(now - last) > Interval || force {
        plotq.Put(Plot);
        last := now;
      }
    }

    /**
      `__del__`: with no plotting process, reading `self.plotp.pid` raises
      AttributeError before anything is sent; otherwise a stop is put behind
      the pending requests (the wait for the process to end is not modelled).
    */
    method Shutdown() returns (r: Result<Message>)
      requires Valid()
      modifies plotq
      ensures !spawned ==> r == Err(AttributeError) && plotq.items == old(plotq.items)
      ensures spawned ==> r == Ok(Stop) && plotq.items == old(plotq.items) + [Stop]
      ensures spawned ==> FirstStop(plotq.items) == |old(plotq.items)|
    {
      if !spawned {
        r := Err(AttributeError);
      } else {
        plotq.Put(Stop);
        RendersAllBeforeStop(old(plotq.items));
        r := Ok(Stop);
      }
    }
  }
}
