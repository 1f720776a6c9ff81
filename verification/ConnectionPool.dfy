// The pool object. Each method is one stretch of its code between two awaits; its state after the
// call is the state the transition system gives.
module ConnectionPool {
  import opened Pool

  class ConnectionPool {
    const minsize: nat
    const maxsize: nat
    var free: seq<Conn>
    var used: set<Conn>
    var terminated: set<Conn>
    var acquiring: nat
    var closing: bool
    // The condition: the lock's holder and the tasks waiting for it or parked in wait().
    var lock: Lock
    var entering: nat
    var parked: nat
    var woken: nat
    var wakeups: nat
    var clears: nat
    var nextConn: Conn

    ghost function View(): State
      reads this
    {
      State(minsize, maxsize, free, used, terminated, acquiring, closing, lock, entering, parked, woken, wakeups,
            clears, nextConn)
    }

    constructor (minsize: nat, maxsize: nat)
      requires minsize <= maxsize
      ensures View() == Init(minsize, maxsize)
    {
      this.minsize, this.maxsize := minsize, maxsize;
      free, used, terminated, acquiring, closing := [], {}, {}, 0, false;
      lock, entering, parked, woken, wakeups, clears, nextConn := Unlocked, 0, 0, 0, 0, 0, 0;
      new;
      if minsize > 0 {
        FillFreePool(true);
      }
    }

    function SizeNow(): nat
      reads this
    {
      |free| + |used| + acquiring
    }

    method Append(conn: Conn)
      modifies this`free
      ensures free == AppendBounded(old(free), conn, maxsize)
    {
      free := free + [conn];
      if |free| > maxsize {
        free := free[|free| - maxsize..];
      }
    }

    method NotifyOne()
      modifies this`parked, this`woken
      ensures View() == Notify(old(View()))
    {
      if parked > 0 {
        parked := parked - 1;
        woken := woken + 1;
      }
    }

    // The end of an acquirer's turn: take a free connection or park.
    method TakeOrWait()
      modifies this`free, this`used, this`parked, this`lock
      ensures View() == ServeOrPark(old(View()))
    {
      if free != [] {
        var conn := free[0];
        free := free[1..];
        used := used + {conn};
      } else {
        parked := parked + 1;
      }
      lock := Unlocked;
    }

    // fill_free_pool after its sweep, up to the next connect or to the end of the caller's turn.
    method FillFreePool(prefill: bool)
      modifies this`free, this`used, this`parked, this`lock, this`acquiring
      ensures View() == Fill(old(View()), prefill)
    {
      if SizeNow() < minsize {
        acquiring := acquiring + 1;
        lock := FillingMin(prefill);
        return;
      }
      if prefill {
        lock := Unlocked;
        return;
      }
      if free == [] && SizeNow() < maxsize {
        acquiring := acquiring + 1;
        lock := FillingExtra;
        return;
      }
      TakeOrWait();
    }

    // Looks at `left` connections from the right end: broken ones are closed at once, an expired one
    // suspends the sweep, the others are rotated to the left end.
    method SweepFree(left: nat, broken: set<Conn>, expired: set<Conn>)
      modifies this
      ensures View() == Sweep(old(View()), left, broken, expired)
    {
      var n := 0;
      while n < left
        invariant n <= left
        invariant Sweep(View(), left - n, broken, expired) == Sweep(old(View()), left, broken, expired)
      {
        if free == [] {
          lock := Unlocked;  // IndexError
          return;
        }
        var conn := free[|free| - 1];
        if conn in broken {
          free := free[..|free| - 1];
        } else if conn in expired {
          free := free[..|free| - 1];
          lock := Sweeping(left - n - 1);
          return;
        } else {
          free := [conn] + free[..|free| - 1];
        }
        n := n + 1;
      }
      FillFreePool(false);
    }

    // acquire(); false when the pool is closing.
    method Acquire() returns (ok: bool)
      modifies this`entering
      ensures ok == !old(closing)
      ensures View() == if ok then Next(old(View()), Event.Acquire) else old(View())
    {
      if closing {
        return false;
      }
      entering := entering + 1;
      return true;
    }

    // An acquirer gets the lock, for the first time or after being woken, and starts a sweep.
    method GetLock(again: bool, broken: set<Conn>, expired: set<Conn>)
      requires lock == Unlocked && (if again then woken > 0 else entering > 0)
      modifies this
      ensures View() == Next(old(View()), if again then EnterAgain(broken, expired) else EnterFirst(broken, expired))
    {
      if again {
        woken := woken - 1;
      } else {
        entering := entering - 1;
      }
      SweepFree(|free|, broken, expired);
    }

    method ResumeSweep(broken: set<Conn>, expired: set<Conn>)
      requires lock.Sweeping?
      modifies this
      ensures View() == Next(old(View()), ExpiredClosed(broken, expired))
    {
      SweepFree(lock.left, broken, expired);
    }

    // connect() has returned a connection, or raised.
    method ConnectDone(ok: bool)
      requires Connecting(View())
      modifies this
      ensures View() == Next(old(View()), if ok then Connected else ConnectFailed)
    {
      var wasMin, prefill := lock.FillingMin?, lock == FillingMin(true);
      if ok {
        Append(nextConn);
        nextConn := nextConn + 1;
      }
      acquiring := Less(acquiring);
      NotifyOne();
      if !ok {
        lock := Unlocked;
      } else if wasMin {
        FillFreePool(prefill);
      } else {
        TakeOrWait();
      }
    }

    // Hands a connection back; false for one the pool does not know.
    method Release(conn: Conn, connected: bool, inTransaction: bool) returns (ok: bool)
      modifies this`free, this`used, this`terminated, this`wakeups
      ensures View() == Next(old(View()), Event.Release(conn, connected, inTransaction))
      ensures ok <==> conn in old(used) || conn in old(terminated)
    {
      if conn in terminated {
        terminated := terminated - {conn};
        return true;
      }
      if conn !in used {
        return false;  // KeyError
      }
      used := used - {conn};
      if connected {
        if inTransaction {
          // closed instead
        } else if closing {
          // closed instead
        } else {
          Append(conn);
        }
      }
      wakeups := wakeups + 1;
      return true;
    }

    method Wakeup()
      requires lock == Unlocked && wakeups > 0
      modifies this`wakeups, this`parked, this`woken
      ensures View() == Next(old(View()), RunWakeup)
    {
      wakeups := wakeups - 1;
      NotifyOne();
    }

    // clear() with the lock: closes the leftmost free connection, or ends with a notification.
    method ClearStep(first: bool)
      requires if first then lock == Unlocked && clears > 0 else lock == Clearing
      modifies this`clears, this`free, this`lock, this`parked, this`woken
      ensures View() == Next(old(View()), if first then EnterClear else FreeClosed)
    {
      if first {
        clears := clears - 1;
      }
      if free != [] {
        free := free[1..];
        lock := Clearing;
      } else {
        NotifyOne();
        lock := Unlocked;
      }
    }

    method Close()
      modifies this`closing
      ensures View() == Next(old(View()), Event.Close)
    {
      closing := true;
    }

    method Terminate()
      modifies this`closing, this`terminated, this`used
      ensures View() == Next(old(View()), Event.Terminate)
    {
      Close();
      var todo := used;
      while todo != {}
        invariant closing && used == old(used) && todo <= used
        invariant terminated == old(terminated) + (used - todo)
      {
        var conn :| conn in todo;
        terminated := terminated + {conn};
        todo := todo - {conn};
      }
      used := {};
    }
  }
}
