// The connection pool as a transition system. One event is one stretch of code between two awaits
// on the event loop; tasks waiting for the condition's lock, parked in its wait() or woken by
// notify() are counted, and any of them may run next.
module Pool {
  type Conn = nat

  // What the task holding the condition's lock is doing at its await.
  datatype Lock =
    | Unlocked
    | Sweeping(left: nat)         // an acquirer closes an expired connection, with `left` more to look at
    | FillingMin(prefill: bool)   // connecting to reach the minimum size, for create_pool or an acquirer
    | FillingExtra                // an acquirer that found nothing free connects
    | Clearing                    // clear() closes a free connection

  datatype State = State(
    minsize: nat,
    maxsize: nat,
    free: seq<Conn>,
    used: set<Conn>,
    terminated: set<Conn>,
    acquiring: nat,
    closing: bool,
    lock: Lock,
    entering: nat,   // acquirers waiting for the lock for the first time
    parked: nat,     // acquirers in wait(), not notified
    woken: nat,      // notified acquirers waiting for the lock again
    wakeups: nat,    // wakeup tasks that have not run
    clears: nat,     // clear() calls waiting for the lock
    nextConn: Conn      // the next connection to be opened
  )

  datatype Event =
    | Acquire
    | EnterFirst(broken: set<Conn>, expired: set<Conn>)
    | EnterAgain(broken: set<Conn>, expired: set<Conn>)
    | ExpiredClosed(broken: set<Conn>, expired: set<Conn>)
    | Connected
    | ConnectFailed
    | Release(conn: Conn, connected: bool, inTransaction: bool)
    | RunWakeup
    | Clear
    | EnterClear
    | FreeClosed
    | ClearFailed
    | Close
    | Terminate
    | CloserPops

  function Size(s: State): nat {
    |s.free| + |s.used| + s.acquiring
  }

  function Notify(s: State): State {
    if s.parked > 0 then s.(parked := s.parked - 1, woken := s.woken + 1) else s
  }

  // deque.append with a maximum length: a full deque silently drops its leftmost element.
  function AppendBounded(free: seq<Conn>, conn: Conn, maxsize: nat): seq<Conn> {
    var all := free + [conn];
    if |all| > maxsize then all[|all| - maxsize..] else all
  }

  function Leave(s: State): State {
    s.(lock := Unlocked)
  }

  function ServeOrPark(s: State): State {
    if s.free != [] then s.(free := s.free[1..], used := s.used + {s.free[0]}, lock := Unlocked)
    else s.(lock := Unlocked, parked := s.parked + 1)
  }

  // fill_free_pool from the minimum-size loop on, and what its caller does next.
  function Fill(s: State, prefill: bool): State {
    if Size(s) < s.minsize then s.(acquiring := s.acquiring + 1, lock := FillingMin(prefill))
    else if prefill then Leave(s)
    else if s.free == [] && Size(s) < s.maxsize then s.(acquiring := s.acquiring + 1, lock := FillingExtra)
    else ServeOrPark(s)
  }

  // The sweep over the last `left` connections; on an empty deque it raises.
  function Sweep(s: State, left: nat, broken: set<Conn>, expired: set<Conn>): State
    decreases left
  {
    if left == 0 then Fill(s, false)
    else if s.free == [] then Leave(s)
    else
      var init, conn := s.free[..|s.free| - 1], s.free[|s.free| - 1];
      if conn in broken then Sweep(s.(free := init), left - 1, broken, expired)
      else if conn in expired then s.(free := init, lock := Sweeping(left - 1))
      else Sweep(s.(free := [conn] + init), left - 1, broken, expired)
  }

  function ClearOn(s: State): State {
    if s.free != [] then s.(free := s.free[1..], lock := Clearing)
    else Leave(Notify(s))
  }

  // A connection handed back. A terminated one is only forgotten; one that is not in use is an error.
  function Released(s: State, conn: Conn, connected: bool, inTransaction: bool): State {
    if conn in s.terminated then s.(terminated := s.terminated - {conn})
    else if conn !in s.used then s
    else
      var free := if connected && !inTransaction && !s.closing then AppendBounded(s.free, conn, s.maxsize) else s.free;
      s.(used := s.used - {conn}, free := free, wakeups := s.wakeups + 1)
  }

  function Opened(s: State): State {
    Notify(s.(free := AppendBounded(s.free, s.nextConn, s.maxsize), nextConn := s.nextConn + 1, acquiring := Less(s.acquiring)))
  }

  function Less(n: nat): nat {
    if n == 0 then 0 else n - 1
  }

  predicate Connecting(s: State) {
    s.lock.FillingMin? || s.lock.FillingExtra?
  }

  predicate ByAcquirer(lock: Lock) {
    lock.Sweeping? || lock.FillingExtra? || lock == FillingMin(false)
  }

  predicate Enabled(s: State, e: Event) {
    match e
    case Acquire => !s.closing
    case EnterFirst(_, _) => s.lock == Unlocked && s.entering > 0
    case EnterAgain(_, _) => s.lock == Unlocked && s.woken > 0
    case ExpiredClosed(_, _) => s.lock.Sweeping?
    case Connected => Connecting(s)
    case ConnectFailed => Connecting(s)
    case Release(_, _, _) => true
    case RunWakeup => s.lock == Unlocked && s.wakeups > 0
    case Clear => true
    case EnterClear => s.lock == Unlocked && s.clears > 0
    case FreeClosed => s.lock == Clearing
    case ClearFailed => s.lock == Clearing
    case Close => true
    case Terminate => true
    case CloserPops => s.closing && s.free != []
  }

  function Next(s: State, e: Event): State
    requires Enabled(s, e)
  {
    match e
    case Acquire => s.(entering := s.entering + 1)
    case EnterFirst(broken, expired) => Sweep(s.(entering := s.entering - 1), |s.free|, broken, expired)
    case EnterAgain(broken, expired) => Sweep(s.(woken := s.woken - 1), |s.free|, broken, expired)
    case ExpiredClosed(broken, expired) => Sweep(s, s.lock.left, broken, expired)
    case Connected => if s.lock.FillingMin? then Fill(Opened(s), s.lock.prefill) else ServeOrPark(Opened(s))
    case ConnectFailed => Leave(Notify(s.(acquiring := Less(s.acquiring))))
    case Release(conn, connected, inTransaction) => Released(s, conn, connected, inTransaction)
    case RunWakeup => Notify(s.(wakeups := s.wakeups - 1))
    case Clear => s.(clears := s.clears + 1)
    case EnterClear => ClearOn(s.(clears := s.clears - 1))
    case FreeClosed => ClearOn(s)
    case ClearFailed => Leave(s)
    case Close => s.(closing := true)
    case Terminate => s.(closing := true, terminated := s.terminated + s.used, used := {})
    case CloserPops => s.(free := s.free[1..])
  }

  function Init(minsize: nat, maxsize: nat): State {
    var s := State(minsize, maxsize, [], {}, {}, 0, false, Unlocked, 0, 0, 0, 0, 0, 0);
    if minsize > 0 then Fill(s, true) else s
  }

  // ---- what holds in every state of every run ----

  ghost predicate NoDuplicates(xs: seq<Conn>) {
    forall i, j :: 0 <= i < j < |xs| ==> xs[i] != xs[j]
  }

  ghost predicate Disjoint(s: State) {
    && NoDuplicates(s.free)
    && (forall c :: c in s.free ==> c !in s.used && c !in s.terminated && c < s.nextConn)
    && (forall c :: c in s.used ==> c !in s.terminated && c < s.nextConn)
    && (forall c :: c in s.terminated ==> c < s.nextConn)
  }

  ghost predicate Counted(s: State) {
    && s.minsize <= s.maxsize
    && s.acquiring == (if Connecting(s) then 1 else 0)
    && Size(s) <= s.maxsize
  }

  // In an open pool the sweep never looks at an empty deque.
  ghost predicate SweepCovered(s: State) {
    !s.closing && s.lock.Sweeping? ==> s.lock.left <= |s.free|
  }

  // Acquirers that will look for a connection without anybody's help.
  function Awake(s: State): nat {
    s.entering + s.woken + if ByAcquirer(s.lock) then 1 else 0
  }

  // As long as somebody is parked in an open pool, every connection that is not in use is accounted
  // for by a wakeup still to run or an acquirer that is awake.
  ghost predicate NobodyStranded(s: State) {
    !s.closing && s.parked > 0 ==> s.maxsize - |s.used| <= s.wakeups + Awake(s)
  }

  ghost predicate Inv(s: State) {
    Disjoint(s) && Counted(s) && SweepCovered(s) && NobodyStranded(s)
  }

  function Run(s: State, events: seq<Event>): State
    decreases |events|
  {
    if events == [] then s
    else Run(if Enabled(s, events[0]) then Next(s, events[0]) else s, events[1..])
  }

  // What Fill and Sweep may assume: a state whose lock is held by nobody in particular yet.
  ghost predicate Ready(s: State, prefill: bool) {
    && Disjoint(s) && s.minsize <= s.maxsize
    && s.acquiring == 0 && Size(s) <= s.maxsize
    && (!s.closing && s.parked > 0 ==>
          s.maxsize - |s.used| <= s.wakeups + s.entering + s.woken + if prefill then 0 else 1)
  }

  lemma FirstApart(s: State)
    requires Disjoint(s) && s.free != []
    ensures s.free[0] !in s.free[1..] && NoDuplicates(s.free[1..]) && forall c :: c in s.free[1..] ==> c in s.free
  {
    var tail := s.free[1..];
    assert forall i :: 0 <= i < |tail| ==> tail[i] == s.free[i + 1];
  }

  lemma ServeOrParkKeeps(s: State)
    requires Ready(s, false) && s.free != []
    ensures Inv(ServeOrPark(s))
  {
    FirstApart(s);
    hide NoDuplicates;
    assert s.free[0] in s.free;
    assert |s.used + {s.free[0]}| == |s.used| + 1;
  }

  lemma FillKeeps(s: State, prefill: bool)
    requires Ready(s, prefill)
    ensures Inv(Fill(s, prefill))
  {
    if Size(s) >= s.minsize && !prefill && s.free != [] {
      hide Inv, ServeOrPark, Ready;
      ServeOrParkKeeps(s);
    }
  }

  lemma DropFirst(s: State)
    requires Disjoint(s) && s.free != []
    ensures Disjoint(s.(free := s.free[1..]))
  {
    assert s.free == [s.free[0]] + s.free[1..];
  }

  lemma DropLast(s: State)
    requires Disjoint(s) && s.free != []
    ensures Disjoint(s.(free := s.free[..|s.free| - 1]))
  {
    var init := s.free[..|s.free| - 1];
    assert forall i :: 0 <= i < |init| ==> init[i] == s.free[i];
    assert forall c :: c in init ==> c in s.free;
  }

  lemma Rotate(s: State)
    requires Disjoint(s) && s.free != []
    ensures Disjoint(s.(free := [s.free[|s.free| - 1]] + s.free[..|s.free| - 1]))
  {
    var rotated := [s.free[|s.free| - 1]] + s.free[..|s.free| - 1];
    forall i, j | 0 <= i < j < |rotated|
      ensures rotated[i] != rotated[j]
    {
      assert rotated[j] == s.free[j - 1];
      assert rotated[i] == s.free[if i == 0 then |s.free| - 1 else i - 1];
    }
    assert forall c :: c in rotated ==> c in s.free;
  }

  lemma {:induction false} SweepKeeps(s: State, left: nat, broken: set<Conn>, expired: set<Conn>)
    requires Ready(s, false) && (!s.closing ==> left <= |s.free|)
    ensures Inv(Sweep(s, left, broken, expired))
    decreases left
  {
    hide Fill, Disjoint;
    if left == 0 {
      FillKeeps(s, false);
    } else if s.free != [] {
      var init, conn := s.free[..|s.free| - 1], s.free[|s.free| - 1];
      DropLast(s);
      Rotate(s);
      if conn in broken {
        SweepKeeps(s.(free := init), left - 1, broken, expired);
      } else if conn !in expired {
        SweepKeeps(s.(free := [conn] + init), left - 1, broken, expired);
      } else {
        SameDisjoint(s.(free := init), s.(free := init, lock := Sweeping(left - 1)));
      }
    } else {
      SameDisjoint(s, Leave(s));
    }
  }

  // Only the collections and the connection counter matter for disjointness.
  lemma SameDisjoint(s: State, t: State)
    requires Disjoint(s)
    requires t.free == s.free && t.used == s.used && t.terminated == s.terminated && t.nextConn == s.nextConn
    ensures Disjoint(t)
  {
  }

  lemma ReleaseKeeps(s: State, conn: Conn, connected: bool, inTransaction: bool)
    requires Inv(s)
    ensures Inv(Released(s, conn, connected, inTransaction))
  {
    if conn in s.used && conn !in s.terminated {
      assert |s.used - {conn}| == |s.used| - 1;
    }
  }

  lemma AppendFits(free: seq<Conn>, conn: Conn, maxsize: nat)
    requires |free| < maxsize
    ensures AppendBounded(free, conn, maxsize) == free + [conn]
  {
  }

  // A connection just opened fits into the deque: nothing is evicted.
  lemma OpenedReady(s: State)
    requires Inv(s) && Connecting(s)
    ensures Ready(Opened(s), s.lock == FillingMin(true))
    ensures Opened(s).free == s.free + [s.nextConn]
  {
    var free := s.free + [s.nextConn];
    AppendFits(s.free, s.nextConn, s.maxsize);
    assert forall i :: 0 <= i < |s.free| ==> free[i] == s.free[i] && free[i] in s.free;
    assert NoDuplicates(free);
  }

  lemma ClearKeeps(s: State)
    requires Disjoint(s) && s.minsize <= s.maxsize && s.acquiring == 0 && Size(s) <= s.maxsize
    requires !s.closing && s.parked > 0 ==> s.maxsize - |s.used| <= s.wakeups + s.entering + s.woken
    ensures Inv(ClearOn(s))
  {
    if s.free != [] {
      DropFirst(s);
    }
  }

  lemma TerminateKeeps(s: State)
    requires Inv(s)
    ensures Inv(Next(s, Terminate))
  {
  }

  // Every event keeps the invariant.
  lemma NextKeeps(s: State, e: Event)
    requires Inv(s) && Enabled(s, e)
    ensures Inv(Next(s, e))
  {
    hide Sweep, Fill, Released, Opened, ClearOn, ServeOrPark;
    match e {
      case EnterFirst(broken, expired) =>
        SweepKeeps(s.(entering := s.entering - 1), |s.free|, broken, expired);
      case EnterAgain(broken, expired) =>
        SweepKeeps(s.(woken := s.woken - 1), |s.free|, broken, expired);
      case ExpiredClosed(broken, expired) =>
        SweepKeeps(s, s.lock.left, broken, expired);
      case Connected =>
        OpenedReady(s);
        if s.lock.FillingMin? {
          FillKeeps(Opened(s), s.lock.prefill);
        } else {
          ServeOrParkKeeps(Opened(s));
        }
      case Release(conn, connected, inTransaction) =>
        ReleaseKeeps(s, conn, connected, inTransaction);
      case EnterClear =>
        ClearKeeps(s.(clears := s.clears - 1));
      case FreeClosed =>
        ClearKeeps(s);
      case Terminate =>
        TerminateKeeps(s);
      case CloserPops =>
        DropFirst(s);
      case _ =>
    }
  }

  lemma InitInv(minsize: nat, maxsize: nat)
    requires minsize <= maxsize
    ensures Inv(Init(minsize, maxsize))
  {
  }

  lemma {:induction false} RunKeeps(s: State, events: seq<Event>)
    requires Inv(s)
    ensures Inv(Run(s, events))
    decreases |events|
  {
    hide Inv, Next;
    if events != [] {
      if Enabled(s, events[0]) {
        NextKeeps(s, events[0]);
        RunKeeps(Next(s, events[0]), events[1..]);
      } else {
        RunKeeps(s, events[1..]);
      }
    }
  }

  lemma {:induction false} SweepLimits(s: State, left: nat, broken: set<Conn>, expired: set<Conn>)
    ensures var t := Sweep(s, left, broken, expired); t.maxsize == s.maxsize && t.minsize == s.minsize
    decreases left
  {
    if left > 0 && s.free != [] {
      var init, conn := s.free[..|s.free| - 1], s.free[|s.free| - 1];
      if conn in broken {
        SweepLimits(s.(free := init), left - 1, broken, expired);
      } else if conn !in expired {
        SweepLimits(s.(free := [conn] + init), left - 1, broken, expired);
      }
    }
  }

  // The limits never change.
  lemma {:induction false} RunLimits(s: State, events: seq<Event>)
    ensures var t := Run(s, events); t.maxsize == s.maxsize && t.minsize == s.minsize
    decreases |events|
  {
    if events != [] {
      if Enabled(s, events[0]) {
        NextLimits(s, events[0]);
        hide Next, Enabled;
        RunLimits(Next(s, events[0]), events[1..]);
      } else {
        RunLimits(s, events[1..]);
      }
    }
  }

  lemma NextLimits(s: State, e: Event)
    requires Enabled(s, e)
    ensures Next(s, e).maxsize == s.maxsize && Next(s, e).minsize == s.minsize
  {
    hide Sweep;
    match e
    case EnterFirst(broken, expired) => SweepLimits(s.(entering := s.entering - 1), |s.free|, broken, expired);
    case EnterAgain(broken, expired) => SweepLimits(s.(woken := s.woken - 1), |s.free|, broken, expired);
    case ExpiredClosed(broken, expired) => SweepLimits(s, s.lock.left, broken, expired);
    case _ =>
  }

  function After(minsize: nat, maxsize: nat, events: seq<Event>): State {
    Run(Init(minsize, maxsize), events)
  }

  // Over every run the free, used and terminated connections are pairwise disjoint, and free, used
  // and opening connections together never exceed the maximum.
  lemma PoolSafety(minsize: nat, maxsize: nat, events: seq<Event>)
    requires minsize <= maxsize
    ensures var s := After(minsize, maxsize, events);
            && NoDuplicates(s.free)
            && (forall c :: c in s.free ==> c !in s.used && c !in s.terminated)
            && s.used !! s.terminated
            && Size(s) <= s.maxsize == maxsize
  {
    InitInv(minsize, maxsize);
    RunLimits(Init(minsize, maxsize), events);
    RunKeeps(Init(minsize, maxsize), events);
  }

  // Nothing is lost on the way back: a healthy connection released to an open pool joins the free
  // ones at the right end and no other leaves.
  lemma ReleaseNeverEvicts(minsize: nat, maxsize: nat, events: seq<Event>, conn: Conn)
    requires minsize <= maxsize
    requires var s := After(minsize, maxsize, events); !s.closing && conn in s.used
    ensures var s := After(minsize, maxsize, events);
            Released(s, conn, true, false).free == s.free + [conn]
  {
    InitInv(minsize, maxsize);
    RunKeeps(Init(minsize, maxsize), events);
    var s := After(minsize, maxsize, events);
    assert s.used == (s.used - {conn}) + {conn};
    AppendFits(s.free, conn, s.maxsize);
  }

  // Any release in any reachable state. A connection in use leaves `used` and adds a wakeup; it joins the
  // free ones if it is connected, outside a transaction and the pool open, and is closed otherwise. A
  // terminated one is only forgotten, and an unknown one changes nothing.
  lemma ReleaseIs(minsize: nat, maxsize: nat, events: seq<Event>, conn: Conn, connected: bool, inTransaction: bool)
    requires minsize <= maxsize
    ensures var s := After(minsize, maxsize, events);
            var t := Released(s, conn, connected, inTransaction);
            && (conn in s.used ==>
                  && conn !in t.used && (forall c :: c != conn ==> (c in t.used <==> c in s.used))
                  && t.wakeups == s.wakeups + 1
                  && t.free == (if !connected || inTransaction || s.closing then s.free else s.free + [conn])
                  && t.terminated == s.terminated)
            && (conn in s.terminated ==>
                  && conn !in t.terminated && (forall c :: c != conn ==> (c in t.terminated <==> c in s.terminated))
                  && t.free == s.free && t.used == s.used && t.wakeups == s.wakeups)
            && (conn !in s.used && conn !in s.terminated ==> t == s)
            && t.maxsize == s.maxsize && t.acquiring == s.acquiring && t.closing == s.closing && t.lock == s.lock
            && t.entering == s.entering && t.parked == s.parked && t.woken == s.woken && t.nextConn == s.nextConn
  {
    InitInv(minsize, maxsize);
    RunKeeps(Init(minsize, maxsize), events);
    var s := After(minsize, maxsize, events);
    if conn in s.used {
      assert s.used == (s.used - {conn}) + {conn};
      AppendFits(s.free, conn, s.maxsize);
    }
  }

  // A connection the pool has opened and no longer knows.
  predicate Gone(s: State, conn: Conn) {
    conn < s.nextConn && conn !in s.free && conn !in s.used && conn !in s.terminated
  }

  lemma {:induction false} SweepGone(s: State, left: nat, broken: set<Conn>, expired: set<Conn>, conn: Conn)
    requires Gone(s, conn)
    ensures Gone(Sweep(s, left, broken, expired), conn)
    decreases left
  {
    hide Fill;
    if left == 0 {
      FillGone(s, false, conn);
    } else if s.free != [] {
      var init, last := s.free[..|s.free| - 1], s.free[|s.free| - 1];
      if last in broken {
        SweepGone(s.(free := init), left - 1, broken, expired, conn);
      } else if last !in expired {
        SweepGone(s.(free := [last] + init), left - 1, broken, expired, conn);
      }
    }
  }

  lemma OpenedGone(s: State, conn: Conn)
    requires Gone(s, conn)
    ensures Gone(Opened(s), conn)
  {
  }

  lemma FillGone(s: State, prefill: bool, conn: Conn)
    requires Gone(s, conn)
    ensures Gone(Fill(s, prefill), conn) && Gone(ServeOrPark(s), conn)
  {
  }

  lemma NextGone(s: State, e: Event, conn: Conn)
    requires Enabled(s, e) && Gone(s, conn)
    ensures Gone(Next(s, e), conn)
  {
    hide Sweep, Fill, ServeOrPark, Opened;
    match e
    case EnterFirst(broken, expired) => SweepGone(s.(entering := s.entering - 1), |s.free|, broken, expired, conn);
    case EnterAgain(broken, expired) => SweepGone(s.(woken := s.woken - 1), |s.free|, broken, expired, conn);
    case ExpiredClosed(broken, expired) => SweepGone(s, s.lock.left, broken, expired, conn);
    case Connected =>
      OpenedGone(s, conn);
      FillGone(Opened(s), s.lock == FillingMin(true), conn);
    case _ =>
  }

  lemma {:induction false} RunGone(s: State, events: seq<Event>, conn: Conn)
    requires Gone(s, conn)
    ensures Gone(Run(s, events), conn)
    decreases |events|
  {
    hide Gone, Next, Enabled;
    if events != [] {
      if Enabled(s, events[0]) {
        NextGone(s, events[0], conn);
        RunGone(Next(s, events[0]), events[1..], conn);
      } else {
        RunGone(s, events[1..], conn);
      }
    }
  }

  // Whatever happens afterwards, nobody is ever handed a connection that came back disconnected, inside a
  // transaction or to a closing pool.
  lemma DirtyNeverReused(minsize: nat, maxsize: nat, events: seq<Event>, conn: Conn, connected: bool, inTransaction: bool,
                         more: seq<Event>)
    requires minsize <= maxsize
    requires var s := After(minsize, maxsize, events); conn in s.used && (!connected || inTransaction || s.closing)
    ensures var t := Run(Next(After(minsize, maxsize, events), Release(conn, connected, inTransaction)), more);
            conn !in t.free && conn !in t.used
  {
    InitInv(minsize, maxsize);
    RunKeeps(Init(minsize, maxsize), events);
    var s := After(minsize, maxsize, events);
    RunGone(Released(s, conn, connected, inTransaction), more, conn);
  }

  // No task of the pool is left that could hand out a connection.
  ghost predicate Quiescent(s: State) {
    s.lock == Unlocked && s.entering == 0 && s.woken == 0 && s.wakeups == 0
  }

  // No stranded acquirer, over every run of an open pool: connections not in use never outnumber
  // the pending wakeups and awake acquirers while somebody is parked; and when everything has come
  // to rest with somebody parked, all maxsize connections are in use.
  lemma NoStrandedAcquirer(minsize: nat, maxsize: nat, events: seq<Event>)
    requires minsize <= maxsize
    requires var s := After(minsize, maxsize, events); !s.closing && s.parked > 0
    ensures var s := After(minsize, maxsize, events);
            && s.maxsize == maxsize
            && s.maxsize - |s.used| <= s.wakeups + Awake(s)
            && (Quiescent(s) ==> |s.used| == s.maxsize && s.free == [])
  {
    InitInv(minsize, maxsize);
    RunLimits(Init(minsize, maxsize), events);
    RunKeeps(Init(minsize, maxsize), events);
  }

  // ---- coming to rest ----

  // Events the pool's own tasks go through, including connects and closes that fail.
  predicate Internal(e: Event) {
    !(e.Acquire? || e.Release? || e.Clear? || e.Close? || e.Terminate? || e.CloserPops?)
  }

  ghost predicate AtRest(s: State) {
    Quiescent(s) && s.clears == 0
  }

  function Waiting(s: State): nat {
    s.entering + s.woken + s.parked + if s.lock.Sweeping? then 1 else 0
  }

  function Connects(s: State): nat
    requires Size(s) <= s.maxsize
  {
    if Connecting(s) then s.maxsize - Size(s) + 1 else 0
  }

  function Work(s: State): nat {
    8 * s.clears + 4 * s.wakeups + 2 * (s.entering + s.woken)
    + (if s.lock.Sweeping? then 1 else 0) + (if s.lock.Clearing? then 4 else 0)
  }

  function Turns(s: State): nat {
    match s.lock
    case Sweeping(left) => left
    case Clearing => |s.free|
    case _ => 0
  }

  ghost predicate Closer(t: State, s: State)
    requires Size(t) <= t.maxsize && Size(s) <= s.maxsize
  {
    || Waiting(t) < Waiting(s)
    || (Waiting(t) == Waiting(s) && Connects(t) < Connects(s))
    || (Waiting(t) == Waiting(s) && Connects(t) == Connects(s) && Work(t) < Work(s))
    || (Waiting(t) == Waiting(s) && Connects(t) == Connects(s) && Work(t) == Work(s) && Turns(t) < Turns(s))
  }

  // A sweep ends in one of these ways: suspended with fewer turns left, connecting, done, or parked.
  lemma {:induction false} SweepOutcome(s: State, left: nat, broken: set<Conn>, expired: set<Conn>)
    ensures var t := Sweep(s, left, broken, expired);
            && t.entering == s.entering && t.woken == s.woken && t.wakeups == s.wakeups && t.clears == s.clears
            && t.closing == s.closing && t.lock != Clearing
            && (t.lock.Sweeping? ==> t.parked == s.parked && t.lock.left < left)
            && (Connecting(t) ==> t.parked == s.parked)
            && (t.lock == Unlocked ==> t.parked <= s.parked + 1)
    decreases left
  {
    if left > 0 && s.free != [] {
      var init, conn := s.free[..|s.free| - 1], s.free[|s.free| - 1];
      if conn in broken {
        SweepOutcome(s.(free := init), left - 1, broken, expired);
      } else if conn !in expired {
        SweepOutcome(s.(free := [conn] + init), left - 1, broken, expired);
      }
    }
  }

  lemma SweepCloser(s: State, e: Event)
    requires Inv(s) && Enabled(s, e) && Inv(Next(s, e)) && (e.EnterFirst? || e.EnterAgain? || e.ExpiredClosed?)
    ensures Closer(Next(s, e), s) && Next(s, e).closing == s.closing
  {
    hide Sweep, Disjoint, SweepCovered, NobodyStranded;
    match e
    case EnterFirst(broken, expired) => SweepOutcome(s.(entering := s.entering - 1), |s.free|, broken, expired);
    case EnterAgain(broken, expired) => SweepOutcome(s.(woken := s.woken - 1), |s.free|, broken, expired);
    case ExpiredClosed(broken, expired) => SweepOutcome(s, s.lock.left, broken, expired);
  }

  lemma ConnectedCloser(s: State)
    requires Inv(s) && Connecting(s) && Inv(Next(s, Connected))
    ensures Closer(Next(s, Connected), s) && Next(s, Connected).closing == s.closing
  {
    OpenedReady(s);
    hide Disjoint, SweepCovered, NobodyStranded;
  }

  // Every internal event brings the pool closer to rest.
  lemma InternalCloser(s: State, e: Event)
    requires Inv(s) && Enabled(s, e) && Internal(e)
    ensures Inv(Next(s, e)) && Closer(Next(s, e), s) && Next(s, e).closing == s.closing
  {
    NextKeeps(s, e);
    if e.EnterFirst? || e.EnterAgain? || e.ExpiredClosed? {
      hide Inv, Next, Closer, Enabled;
      SweepCloser(s, e);
    } else if e.Connected? {
      hide Inv, Next, Closer;
      ConnectedCloser(s);
    } else {
      hide Inv;
    }
  }

  // A schedule of the pool's tasks: some internal event that can happen, as long as there is one.
  ghost predicate Schedules(pick: State -> Event) {
    forall s :: Inv(s) && !AtRest(s) ==> Enabled(s, pick(s)) && Internal(pick(s))
  }

  function SomeEvent(s: State): Event {
    match s.lock
    case Sweeping(_) => ExpiredClosed({}, {})
    case FillingMin(_) => Connected
    case FillingExtra => Connected
    case Clearing => FreeClosed
    case Unlocked =>
      if s.entering > 0 then EnterFirst({}, {})
      else if s.woken > 0 then EnterAgain({}, {})
      else if s.wakeups > 0 then RunWakeup
      else EnterClear
  }

  // While the pool is not at rest, one of its tasks can always run.
  lemma NoDeadlock()
    ensures Schedules(SomeEvent)
  {
  }

  ghost function Settle(s: State, pick: State -> Event): (t: State)
    requires Inv(s) && Schedules(pick)
    ensures Inv(t) && AtRest(t) && t.closing == s.closing && t.maxsize == s.maxsize
    decreases Waiting(s), Connects(s), Work(s), Turns(s)
  {
    if AtRest(s) then s
    else
      InternalCloser(s, pick(s));
      NextLimits(s, pick(s));
      Settle(Next(s, pick(s)), pick)
  }

  // After any run of an open pool, whatever order its tasks then run in and whatever fails, they
  // come to rest, and by then every acquirer has been answered or all maxsize connections are in use.
  lemma EveryAcquirerAnswered(minsize: nat, maxsize: nat, events: seq<Event>, pick: State -> Event)
    requires minsize <= maxsize && Schedules(pick)
    requires !After(minsize, maxsize, events).closing
    ensures Inv(After(minsize, maxsize, events))
    ensures var t := Settle(After(minsize, maxsize, events), pick);
            t.parked == 0 || (|t.used| == maxsize && t.free == [])
  {
    InitInv(minsize, maxsize);
    RunLimits(Init(minsize, maxsize), events);
    RunKeeps(Init(minsize, maxsize), events);
  }

  // ---- the sweep ----

  // The sweep comes to an empty deque with connections still to look at, and raises.
  predicate SweepRaises(free: seq<Conn>, left: nat, broken: set<Conn>, expired: set<Conn>)
    decreases left
  {
    left > 0 &&
    (free == [] ||
     var init, conn := free[..|free| - 1], free[|free| - 1];
     if conn in broken then SweepRaises(init, left - 1, broken, expired)
     else conn !in expired && SweepRaises([conn] + init, left - 1, broken, expired))
  }

  lemma {:induction false} SweepSafe(free: seq<Conn>, left: nat, broken: set<Conn>, expired: set<Conn>)
    requires left <= |free|
    ensures !SweepRaises(free, left, broken, expired)
    decreases left
  {
    if left > 0 {
      var init, conn := free[..|free| - 1], free[|free| - 1];
      if conn in broken {
        SweepSafe(init, left - 1, broken, expired);
      } else if conn !in expired {
        SweepSafe([conn] + init, left - 1, broken, expired);
      }
    }
  }

  // Over every run of an open pool, whatever was released while the sweep was suspended, the sweep
  // goes on without meeting an empty deque.
  lemma SweepNeverRaises(minsize: nat, maxsize: nat, events: seq<Event>, broken: set<Conn>, expired: set<Conn>)
    requires minsize <= maxsize
    requires var s := After(minsize, maxsize, events); !s.closing && s.lock.Sweeping?
    ensures var s := After(minsize, maxsize, events); !SweepRaises(s.free, s.lock.left, broken, expired)
  {
    InitInv(minsize, maxsize);
    RunKeeps(Init(minsize, maxsize), events);
    var s := After(minsize, maxsize, events);
    SweepSafe(s.free, s.lock.left, broken, expired);
  }

  // The deque after `left` turns of a sweep that nothing interferes with.
  function Swept(free: seq<Conn>, left: nat, bad: set<Conn>): seq<Conn>
    requires left <= |free|
    decreases left
  {
    if left == 0 then free
    else
      var init, conn := free[..|free| - 1], free[|free| - 1];
      Swept(if conn in bad then init else [conn] + init, left - 1, bad)
  }

  function Healthy(free: seq<Conn>, bad: set<Conn>): seq<Conn> {
    if free == [] then []
    else
      var rest := Healthy(free[..|free| - 1], bad);
      if free[|free| - 1] in bad then rest else rest + [free[|free| - 1]]
  }

  // A sweep either reaches its end or is suspended half way with the same outcome ahead of it.
  lemma {:induction false} SweepIsSwept(s: State, left: nat, broken: set<Conn>, expired: set<Conn>)
    requires left <= |s.free|
    ensures var t := Sweep(s, left, broken, expired);
            || t == Fill(s.(free := Swept(s.free, left, broken + expired)), false)
            || (&& t.lock.Sweeping? && t.lock.left <= |t.free|
                && t == s.(free := t.free, lock := t.lock)
                && Swept(t.free, t.lock.left, broken + expired) == Swept(s.free, left, broken + expired))
    decreases left
  {
    hide Fill;
    if left > 0 {
      var init, conn := s.free[..|s.free| - 1], s.free[|s.free| - 1];
      if conn in broken {
        SweepIsSwept(s.(free := init), left - 1, broken, expired);
      } else if conn !in expired {
        SweepIsSwept(s.(free := [conn] + init), left - 1, broken, expired);
      }
    }
  }

  // Without interference the sweep keeps exactly the healthy connections, in their order.
  lemma SweepKeepsHealthyInOrder(free: seq<Conn>, bad: set<Conn>)
    ensures Swept(free, |free|, bad) == Healthy(free, bad)
  {
    assert [] + free == free;
    SweptFrom([], free, bad);
    assert Healthy(free, bad) + [] == Healthy(free, bad);
  }

  lemma {:induction false} SweptFrom(done: seq<Conn>, todo: seq<Conn>, bad: set<Conn>)
    ensures Swept(done + todo, |todo|, bad) == Healthy(todo, bad) + done
    decreases |todo|
  {
    if todo != [] {
      var init, conn := todo[..|todo| - 1], todo[|todo| - 1];
      assert (done + todo)[..|done + todo| - 1] == done + init;
      if conn in bad {
        SweptFrom(done, init, bad);
      } else {
        SweptFrom([conn] + done, init, bad);
        assert [conn] + (done + init) == [conn] + done + init;
        assert Healthy(init, bad) + ([conn] + done) == Healthy(init, bad) + [conn] + done;
      }
    }
  }

  lemma {:induction false} SweepGoesOn(s: State, left: nat, broken: set<Conn>, expired: set<Conn>)
    ensures var t := Sweep(s, left, broken, expired); t.lock.Sweeping? ==> t.lock.left < left
    decreases left
  {
    if left > 0 && s.free != [] {
      var init, conn := s.free[..|s.free| - 1], s.free[|s.free| - 1];
      if conn in broken {
        SweepGoesOn(s.(free := init), left - 1, broken, expired);
      } else if conn !in expired {
        SweepGoesOn(s.(free := [conn] + init), left - 1, broken, expired);
      }
    }
  }

  // A suspended sweep taken to its end with nothing in between.
  function FinishSweep(s: State, broken: set<Conn>, expired: set<Conn>): State
    decreases if s.lock.Sweeping? then s.lock.left + 1 else 0
  {
    if !s.lock.Sweeping? then s
    else
      SweepGoesOn(s, s.lock.left, broken, expired);
      FinishSweep(Next(s, ExpiredClosed(broken, expired)), broken, expired)
  }

  lemma {:induction false} FinishSwept(s: State, left: nat, broken: set<Conn>, expired: set<Conn>)
    requires left <= |s.free|
    ensures FinishSweep(Sweep(s, left, broken, expired), broken, expired)
         == Fill(s.(free := Swept(s.free, left, broken + expired)), false)
    decreases left
  {
    hide Sweep, Swept;
    SweepIsSwept(s, left, broken, expired);
    SweepGoesOn(s, left, broken, expired);
    var t := Sweep(s, left, broken, expired);
    if t.lock.Sweeping? {
      FinishSwept(t, t.lock.left, broken, expired);
    }
  }

  // An acquirer's whole sweep, over however many awaits: the healthy connections are left, all of them
  // and in their order, and filling goes on from there.
  lemma WholeSweepKeepsHealthy(s: State, broken: set<Conn>, expired: set<Conn>)
    ensures FinishSweep(Sweep(s, |s.free|, broken, expired), broken, expired)
         == Fill(s.(free := Healthy(s.free, broken + expired)), false)
  {
    hide Sweep, Swept, Healthy, FinishSweep, Fill;
    FinishSwept(s, |s.free|, broken, expired);
    SweepKeepsHealthyInOrder(s.free, broken + expired);
  }
}
