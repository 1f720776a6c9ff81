// What the pool's steps do for those who ask it for connections.
module PoolSteps {
  import opened Pool

  // ---- nobody is lost, and connections come from where they should ----

  // Acquirers that have asked and have not been answered.
  function Acquirers(s: State): nat {
    s.entering + s.parked + s.woken + if ByAcquirer(s.lock) then 1 else 0
  }

  // The connections of the pool, in use and free.
  function Known(s: State): set<Conn> {
    s.used + (set c | c in s.free)
  }

  // The steps in which an acquirer runs.
  predicate OfAcquirer(s: State, e: Event) {
    e.EnterFirst? || e.EnterAgain? || e.ExpiredClosed? || (e.Connected? && s.lock != FillingMin(true))
  }

  lemma FillConserves(s: State, prefill: bool)
    requires Disjoint(s)
    ensures var t := Fill(s, prefill);
            if prefill then
              t.used == s.used && t.free == s.free && t.entering + t.parked + t.woken == s.entering + s.parked + s.woken
              && !ByAcquirer(t.lock)
            else Acquirers(t) + |t.used| == s.entering + s.parked + s.woken + 1 + |s.used|
    ensures Known(Fill(s, prefill)) == Known(s)
  {
    if Size(s) >= s.minsize && !prefill {
      ServeConserves(s);
    }
  }

  lemma ServeConserves(s: State)
    requires Disjoint(s)
    ensures var t := ServeOrPark(s); Acquirers(t) + |t.used| == s.entering + s.parked + s.woken + 1 + |s.used|
    ensures Known(ServeOrPark(s)) == Known(s)
  {
    if s.free != [] {
      assert s.free[0] in s.free;
      assert s.free == [s.free[0]] + s.free[1..];
      assert |s.used + {s.free[0]}| == |s.used| + 1;
    }
  }

  lemma {:induction false} SweepConserves(s: State, left: nat, broken: set<Conn>, expired: set<Conn>)
    requires Disjoint(s) && left <= |s.free|
    ensures var t := Sweep(s, left, broken, expired);
            Acquirers(t) + |t.used| == s.entering + s.parked + s.woken + 1 + |s.used|
    decreases left
  {
    hide Fill, Disjoint;
    if left == 0 {
      FillConserves(s, false);
    } else {
      var init, conn := s.free[..|s.free| - 1], s.free[|s.free| - 1];
      if conn in broken {
        DropLast(s);
        SweepConserves(s.(free := init), left - 1, broken, expired);
      } else if conn !in expired {
        Rotate(s);
        SweepConserves(s.(free := [conn] + init), left - 1, broken, expired);
      }
    }
  }

  lemma {:induction false} SweepKnown(s: State, left: nat, broken: set<Conn>, expired: set<Conn>)
    requires Disjoint(s) && left <= |s.free|
    ensures var t := Sweep(s, left, broken, expired); Known(t) <= Known(s) && Known(s) - Known(t) <= broken + expired
    decreases left
  {
    hide Fill, Disjoint;
    if left == 0 {
      FillConserves(s, false);
    } else {
      hide Known;
      var init, conn := s.free[..|s.free| - 1], s.free[|s.free| - 1];
      TakenKnown(s, init, conn);
      if conn in broken {
        DropLast(s);
        SweepKnown(s.(free := init), left - 1, broken, expired);
      } else if conn in expired {
        SameKnown(s.(free := init), Sweep(s, left, broken, expired));
      } else {
        Rotate(s);
        SweepKnown(s.(free := [conn] + init), left - 1, broken, expired);
      }
    }
  }

  lemma TakenKnown(s: State, init: seq<Conn>, conn: Conn)
    requires s.free == init + [conn]
    ensures Known(s.(free := [conn] + init)) == Known(s)
    ensures Known(s.(free := init)) <= Known(s) && Known(s) - Known(s.(free := init)) <= {conn}
  {
  }

  lemma ConnectedConserves(s: State)
    requires Inv(s) && Connecting(s)
    ensures var t := Next(s, Connected);
            if s.lock == FillingMin(true) then Acquirers(t) == Acquirers(s) && t.used == s.used
            else Acquirers(t) + |t.used| == Acquirers(s) + |s.used|
  {
    hide Inv, Fill, ServeOrPark, Disjoint, Opened, Next;
    OpenedCounts(s);
    NextConnected(s);
    if s.lock.FillingMin? {
      FillConserves(Opened(s), s.lock.prefill);
    } else {
      ServeConserves(Opened(s));
    }
  }

  lemma OpenedCounts(s: State)
    requires Inv(s) && Connecting(s)
    ensures var t := Opened(s);
            Disjoint(t) && t.used == s.used && t.entering == s.entering && t.parked + t.woken == s.parked + s.woken
  {
    OpenedReady(s);
  }

  lemma NextConnected(s: State)
    requires Connecting(s)
    ensures Next(s, Connected)
         == if s.lock.FillingMin? then Fill(Opened(s), s.lock.prefill) else ServeOrPark(Opened(s))
  {
  }

  // In an open pool an acquirer is answered with exactly one connection or goes on waiting; only a failed
  // connect takes the acquirer that tried it away, with its exception.
  lemma NobodyLost(s: State, e: Event)
    requires Inv(s) && !s.closing && Enabled(s, e)
    ensures var t := Next(s, e);
            if e.Acquire? then Acquirers(t) == Acquirers(s) + 1 && t.used == s.used
            else if OfAcquirer(s, e) then Acquirers(t) + |t.used| == Acquirers(s) + |s.used|
            else if e.ConnectFailed? && ByAcquirer(s.lock) then Acquirers(t) + 1 == Acquirers(s) && t.used == s.used
            else Acquirers(t) == Acquirers(s) && t.used <= s.used
  {
    hide Sweep, Fill, ServeOrPark, Opened, Inv;
    InvParts(s);
    match e
    case EnterFirst(broken, expired) => SweepConserves(s.(entering := s.entering - 1), |s.free|, broken, expired);
    case EnterAgain(broken, expired) => SweepConserves(s.(woken := s.woken - 1), |s.free|, broken, expired);
    case ExpiredClosed(broken, expired) => SweepConserves(s, s.lock.left, broken, expired);
    case Connected => ConnectedConserves(s);
    case _ =>
  }

  // Connections come in by connecting, one at a time, and go only where something is wrong with them or
  // the pool is being emptied.
  lemma NoneLost(s: State, e: Event)
    requires Inv(s) && !s.closing && Enabled(s, e)
    ensures var t := Next(s, e);
            match e
            case Connected => Known(t) == Known(s) + {s.nextConn} && s.nextConn !in Known(s)
            case EnterFirst(broken, expired) => Known(t) <= Known(s) && Known(s) - Known(t) <= broken + expired
            case EnterAgain(broken, expired) => Known(t) <= Known(s) && Known(s) - Known(t) <= broken + expired
            case ExpiredClosed(broken, expired) => Known(t) <= Known(s) && Known(s) - Known(t) <= broken + expired
            case Release(conn, connected, inTransaction) =>
              if (connected && !inTransaction) || conn !in s.used then Known(t) == Known(s) else Known(t) == Known(s) - {conn}
            case EnterClear => Known(t) <= Known(s) && s.used <= t.used
            case FreeClosed => Known(t) <= Known(s) && s.used <= t.used
            case Terminate => Known(t) == Known(s) - s.used && s.used <= t.terminated
            case _ => Known(t) == Known(s)
  {
    hide Sweep, Fill, ServeOrPark, Opened, Released, ClearOn, Inv, Known;
    InvParts(s);
    var t := Next(s, e);
    match e
    case EnterFirst(broken, expired) =>
      SameKnown(s, s.(entering := s.entering - 1));
      SweepKnown(s.(entering := s.entering - 1), |s.free|, broken, expired);
    case EnterAgain(broken, expired) =>
      SameKnown(s, s.(woken := s.woken - 1));
      SweepKnown(s.(woken := s.woken - 1), |s.free|, broken, expired);
    case ExpiredClosed(broken, expired) => SweepKnown(s, s.lock.left, broken, expired);
    case Connected => ConnectedKnown(s);
    case Release(conn, connected, inTransaction) => ReleasedKnown(s, conn, connected, inTransaction);
    case EnterClear =>
      SameKnown(s, s.(clears := s.clears - 1));
      ClearKnown(s.(clears := s.clears - 1));
    case FreeClosed => ClearKnown(s);
    case Terminate => TerminateKnown(s);
    case _ => SameKnown(s, t);
  }

  lemma InvParts(s: State)
    requires Inv(s)
    ensures Disjoint(s) && (!s.closing && s.lock.Sweeping? ==> s.lock.left <= |s.free|)
  {
  }

  lemma SameKnown(s: State, t: State)
    ensures s.used == t.used && s.free == t.free ==> Known(s) == Known(t)
  {
  }

  lemma OpenedKnown(s: State)
    requires Inv(s) && Connecting(s)
    ensures Disjoint(Opened(s)) && Known(Opened(s)) == Known(s) + {s.nextConn} && s.nextConn !in Known(s)
  {
    OpenedReady(s);
    KnownAppend(s, s.nextConn);
  }

  lemma ConnectedKnown(s: State)
    requires Inv(s) && Connecting(s)
    ensures Known(Next(s, Connected)) == Known(s) + {s.nextConn} && s.nextConn !in Known(s)
  {
    hide Fill, ServeOrPark, Inv, Opened, Known, Disjoint;
    OpenedKnown(s);
    if s.lock.FillingMin? {
      FillConserves(Opened(s), s.lock.prefill);
    } else {
      ServeConserves(Opened(s));
    }
  }

  lemma ReleasedKnown(s: State, conn: Conn, connected: bool, inTransaction: bool)
    requires Inv(s) && !s.closing
    ensures var t := Released(s, conn, connected, inTransaction);
            Known(t) == if (connected && !inTransaction) || conn !in s.used then Known(s) else Known(s) - {conn}
  {
    if conn in s.used {
      assert s.used == (s.used - {conn}) + {conn};
      AppendFits(s.free, conn, s.maxsize);
      KnownAppend(s, conn);
    }
  }

  lemma ClearKnown(s: State)
    ensures Known(ClearOn(s)) <= Known(s) && s.used <= ClearOn(s).used
  {
  }

  lemma TerminateKnown(s: State)
    requires Disjoint(s)
    ensures var t := Next(s, Terminate); Known(t) == Known(s) - s.used && s.used <= t.terminated
  {
  }

  lemma KnownAppend(s: State, conn: Conn)
    ensures (set c | c in s.free + [conn]) == (set c | c in s.free) + {conn}
  {
  }

  // ---- when it connects, and when somebody has to wait ----

  // A pool short of its minimum connects; then a free connection is handed out, the one that came back
  // first; with none free it connects again if the limit allows it, and only else the acquirer waits.
  lemma WhatAnAcquirerGets(s: State)
    requires Inv(s) && !s.closing && Enabled(s, EnterFirst({}, {}))
    ensures var t := Next(s, EnterFirst({}, {}));
            && t.entering == s.entering - 1
            && if |s.free| + |s.used| < s.minsize then
                 t.lock == FillingMin(false) && t.acquiring == 1 && t.free == s.free && t.used == s.used
               else if s.free != [] then
                 t.lock == Unlocked && t.used == s.used + {s.free[0]} && [s.free[0]] + t.free == s.free
               else if |s.used| < s.maxsize then
                 t.lock == FillingExtra && t.acquiring == 1 && t.free == [] && t.used == s.used
               else t.lock == Unlocked && t.parked == s.parked + 1 && t.used == s.used && t.free == []
  {
    var s1 := s.(entering := s.entering - 1);
    CleanSweep(s1, |s.free|);
    if s.free != [] {
      assert [s.free[0]] + s.free[1..] == s.free;
    }
  }

  lemma CleanSweep(s: State, left: nat)
    requires left == |s.free|
    ensures Sweep(s, left, {}, {}) == Fill(s, false)
  {
    hide Sweep, Fill, Swept, Healthy;
    SweepIsSwept(s, left, {}, {});
    SweepKeepsHealthyInOrder(s.free, {});
    AllHealthy(s.free);
    var none: set<Conn> := {};
    assert none + none == none;
    NotSuspended(s, left);
  }

  lemma {:induction false} NotSuspended(s: State, left: nat)
    requires left <= |s.free|
    ensures !Sweep(s, left, {}, {}).lock.Sweeping?
    decreases left
  {
    if left > 0 {
      NotSuspended(s.(free := [s.free[|s.free| - 1]] + s.free[..|s.free| - 1]), left - 1);
    }
  }

  lemma {:induction false} AllHealthy(free: seq<Conn>)
    ensures Healthy(free, {}) == free
  {
    if free != [] {
      AllHealthy(free[..|free| - 1]);
    }
  }

  // Somebody starts to wait only when all connections there may be are in use.
  lemma ParksOnlyWhenFull(s: State, e: Event)
    requires Inv(s) && !s.closing && Enabled(s, e) && Next(s, e).parked > s.parked
    ensures var t := Next(s, e); t.free == [] && |t.used| == t.maxsize
  {
    hide Sweep, Fill;
    match e
    case EnterFirst(broken, expired) => SweepParks(s.(entering := s.entering - 1), |s.free|, broken, expired);
    case EnterAgain(broken, expired) => SweepParks(s.(woken := s.woken - 1), |s.free|, broken, expired);
    case ExpiredClosed(broken, expired) => SweepParks(s, s.lock.left, broken, expired);
    case Connected =>
      OpenedReady(s);
      if s.lock.FillingMin? {
        FillParks(Opened(s), s.lock.prefill);
      }
    case _ =>
  }

  lemma FillParks(s: State, prefill: bool)
    requires s.acquiring == 0 && Size(s) <= s.maxsize && s.minsize <= s.maxsize
    ensures var t := Fill(s, prefill);
            && t.maxsize == s.maxsize
            && (t.parked > s.parked ==> t.parked == s.parked + 1 && t.free == [] && |t.used| == s.maxsize)
  {
  }

  lemma {:induction false} SweepParks(s: State, left: nat, broken: set<Conn>, expired: set<Conn>)
    requires left <= |s.free| && s.acquiring == 0 && Size(s) <= s.maxsize && s.minsize <= s.maxsize
    ensures var t := Sweep(s, left, broken, expired);
            t.maxsize == s.maxsize && (t.parked > s.parked ==> t.free == [] && |t.used| == s.maxsize)
    decreases left
  {
    hide Fill;
    if left == 0 {
      FillParks(s, false);
    } else {
      var init, conn := s.free[..|s.free| - 1], s.free[|s.free| - 1];
      if conn in broken {
        SweepParks(s.(free := init), left - 1, broken, expired);
      } else if conn !in expired {
        SweepParks(s.(free := [conn] + init), left - 1, broken, expired);
      }
    }
  }

  // ---- uninterrupted stretches ----

  // An open pool that nobody has asked anything of yet.
  predicate Untouched(s: State) {
    !s.closing && s.terminated == {} && s.entering == s.parked == s.woken == s.wakeups == s.clears == 0
  }

  // create_pool() returns with exactly the minimum of connections open and free, and none in use.
  lemma Prefilled(minsize: nat, maxsize: nat)
    requires minsize <= maxsize
    ensures var t := After(minsize, maxsize, seq(minsize, i => Connected));
            && t.lock == Unlocked && |t.free| == minsize && t.used == {} && t.acquiring == 0 && t.nextConn == minsize
            && Untouched(t)
  {
    InitInv(minsize, maxsize);
    if minsize > 0 {
      PrefillGoesOn(Init(minsize, maxsize), minsize);
    }
  }

  lemma {:induction false} PrefillGoesOn(s: State, k: nat)
    requires Inv(s) && s.lock == FillingMin(true) && s.used == {} && k > 0 && |s.free| + k == s.minsize
    requires s.nextConn == |s.free| && Untouched(s)
    ensures var t := Run(s, seq(k, i => Connected));
            && t.lock == Unlocked && |t.free| == s.minsize && t.used == {} && t.acquiring == 0 && t.nextConn == s.minsize
            && Untouched(t)
    decreases k
  {
    var events := seq(k, i => Connected);
    assert events[1..] == seq(k - 1, i => Connected);
    OpenedReady(s);
    NextKeeps(s, Connected);
    hide Inv;
    var t := Next(s, Connected);
    if k > 1 {
      PrefillGoesOn(t, k - 1);
    }
  }

  // clear() taken to its end with nothing in between.
  function FinishClear(s: State): State
    decreases |s.free| + if s.lock == Clearing then 1 else 0
  {
    if s.lock != Clearing then s else FinishClear(Next(s, FreeClosed))
  }

  // It closes every free connection, notifies one waiting task and leaves the rest alone.
  lemma {:induction false} ClearsAll(s: State)
    requires s.lock != Clearing
    ensures FinishClear(ClearOn(s)) == Notify(s.(free := [], lock := Unlocked))
    decreases |s.free|
  {
    if s.free != [] {
      var t := s.(free := s.free[1..]);
      assert FinishClear(ClearOn(s)) == FinishClear(ClearOn(t.(lock := Clearing)));
      ClearLock(t);
      ClearsAll(t);
    }
  }

  lemma ClearLock(s: State)
    ensures FinishClear(ClearOn(s.(lock := Clearing))) == FinishClear(ClearOn(s))
  {
  }
}
