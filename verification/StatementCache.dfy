// The connection's cache of prepared statements.
module StatementCache {
  import opened Binary
  import opened Placeholders

  // ---- least recently used, on a history of uses ----

  function Without(keys: seq<string>, k: string): seq<string> {
    if keys == [] then [] else (if keys[0] == k then [] else [keys[0]]) + Without(keys[1..], k)
  }

  // Every key once, in the order of its last use.
  function Recent(uses: seq<string>): seq<string> {
    if uses == [] then []
    else
      var last := uses[|uses| - 1];
      Without(Recent(uses[..|uses| - 1]), last) + [last]
  }

  function LastOf<T>(s: seq<T>, n: nat): seq<T> {
    if |s| <= n then s else s[|s| - n..]
  }

  // The n most recently used keys, the least recent first.
  function Lru(uses: seq<string>, n: nat): seq<string> {
    LastOf(Recent(uses), n)
  }

  ghost predicate Distinct<T>(s: seq<T>) {
    forall i, j :: 0 <= i < j < |s| ==> s[i] != s[j]
  }

  lemma {:induction false} WithoutIs(keys: seq<string>, k: string)
    ensures forall x :: x in Without(keys, k) <==> x in keys && x != k
    ensures |Without(keys, k)| <= |keys|
    ensures k !in keys ==> Without(keys, k) == keys
    ensures Distinct(keys) ==> Distinct(Without(keys, k)) && (k in keys ==> |Without(keys, k)| + 1 == |keys|)
    decreases |keys|
  {
    if keys != [] {
      var tail := keys[1..];
      WithoutIs(tail, k);
      assert keys == [keys[0]] + tail;
      if Distinct(keys) {
        assert Distinct(tail) && keys[0] !in tail;
      }
    }
  }

  lemma WithoutCons(x: string, keys: seq<string>, k: string)
    ensures Without([x] + keys, k) == (if x == k then [] else [x]) + Without(keys, k)
  {
    assert ([x] + keys)[1..] == keys;
  }

  lemma {:induction false} WithoutAppend(a: seq<string>, b: seq<string>, k: string)
    ensures Without(a + b, k) == Without(a, k) + Without(b, k)
    decreases |a|
  {
    if a == [] {
      assert a + b == b;
    } else {
      hide Without;
      var x, tail := a[0], a[1..];
      WithoutAppend(tail, b, k);
      WithoutCons(x, tail, k);
      WithoutCons(x, tail + b, k);
      assert a == [x] + tail && a + b == [x] + (tail + b);
      var kept := if x == k then [] else [x];
      assert kept + (Without(tail, k) + Without(b, k)) == kept + Without(tail, k) + Without(b, k);
    }
  }

  lemma {:induction false} RecentDistinct(uses: seq<string>)
    ensures Distinct(Recent(uses)) && forall k :: k in Recent(uses) <==> k in uses
    decreases |uses|
  {
    if uses != [] {
      var front, last := uses[..|uses| - 1], uses[|uses| - 1];
      RecentDistinct(front);
      WithoutIs(Recent(front), last);
      assert uses == front + [last];
    }
  }

  // The position after the last use of k.
  function LastUse(uses: seq<string>, k: string): nat {
    if uses == [] then 0 else if uses[|uses| - 1] == k then |uses| else LastUse(uses[..|uses| - 1], k)
  }

  lemma {:induction false} LastUseBound(uses: seq<string>, k: string)
    ensures LastUse(uses, k) <= |uses|
  {
    if uses != [] {
      LastUseBound(uses[..|uses| - 1], k);
    }
  }

  // Earlier keys were last used earlier.
  ghost predicate Ordered(keys: seq<string>, uses: seq<string>) {
    forall i, j :: 0 <= i < j < |keys| ==> LastUse(uses, keys[i]) < LastUse(uses, keys[j])
  }

  lemma {:induction false} WithoutOrdered(keys: seq<string>, k: string, uses: seq<string>)
    requires Ordered(keys, uses)
    ensures Ordered(Without(keys, k), uses)
    decreases |keys|
  {
    if keys != [] {
      var tail := keys[1..];
      OrderedTail(keys, uses);
      WithoutOrdered(tail, k, uses);
      hide LastUse, Without, Ordered;
      WithoutIs(tail, k);
      assert keys == [keys[0]] + tail;
      WithoutCons(keys[0], tail, k);
      if keys[0] != k {
        OrderedCons(keys[0], Without(tail, k), uses);
      } else {
        assert [] + Without(tail, k) == Without(tail, k);
      }
    }
  }

  lemma OrderedTail(keys: seq<string>, uses: seq<string>)
    requires Ordered(keys, uses) && keys != []
    ensures Ordered(keys[1..], uses)
    ensures forall x :: x in keys[1..] ==> LastUse(uses, keys[0]) < LastUse(uses, x)
  {
    hide LastUse;
    forall x | x in keys[1..]
      ensures LastUse(uses, keys[0]) < LastUse(uses, x)
    {
      var l :| 0 <= l < |keys[1..]| && keys[1..][l] == x;
      assert keys[l + 1] == x;
    }
  }

  lemma OrderedCons(x: string, keys: seq<string>, uses: seq<string>)
    requires Ordered(keys, uses) && forall y :: y in keys ==> LastUse(uses, x) < LastUse(uses, y)
    ensures Ordered([x] + keys, uses)
  {
    hide LastUse;
    var r := [x] + keys;
    forall i, j | 0 <= i < j < |r|
      ensures LastUse(uses, r[i]) < LastUse(uses, r[j])
    {
      assert r[j] in keys;
    }
  }

  // Recent's order is the order of last use.
  lemma {:induction false} RecentOrdered(uses: seq<string>)
    ensures Ordered(Recent(uses), uses)
    decreases |uses|
  {
    if uses != [] {
      var front, last := uses[..|uses| - 1], uses[|uses| - 1];
      RecentOrdered(front);
      WithoutOrdered(Recent(front), last, front);
      WithoutIs(Recent(front), last);
      var r := Recent(uses);
      forall i, j | 0 <= i < j < |r|
        ensures LastUse(uses, r[i]) < LastUse(uses, r[j])
      {
        var w := Without(Recent(front), last);
        assert r[i] in w;
        LastUseBound(front, r[i]);
        assert LastUse(uses, r[i]) == LastUse(front, r[i]);
        if j < |w| {
          assert r[j] in w;
          assert LastUse(uses, r[j]) == LastUse(front, r[j]);
        }
      }
    }
  }

  // What one use does to the n most recent keys: k moves or comes to the end, and with more than n
  // keys the first one goes.
  lemma LruStep(uses: seq<string>, k: string, n: nat)
    requires n > 0
    ensures Lru(uses + [k], n)
         == if k in Lru(uses, n) then Without(Lru(uses, n), k) + [k] else LastOf(Lru(uses, n) + [k], n)
  {
    hide Recent, Without;
    var r := Recent(uses);
    RecentDistinct(uses);
    RecentSnoc(uses, k);
    if |r| > n {
      var gone, kept := r[..|r| - n], r[|r| - n..];
      assert r == gone + kept;
      KeptMoves(gone, kept, k);
    } else {
      WithoutIs(r, k);
    }
  }

  lemma RecentSnoc(uses: seq<string>, k: string)
    ensures Recent(uses + [k]) == Without(Recent(uses), k) + [k]
  {
    assert (uses + [k])[..|uses|] == uses;
  }

  lemma KeptMoves(gone: seq<string>, kept: seq<string>, k: string)
    requires Distinct(gone + kept) && gone != [] && kept != []
    ensures LastOf(Without(gone + kept, k) + [k], |kept|)
         == if k in kept then Without(kept, k) + [k] else LastOf(kept + [k], |kept|)
  {
    WithoutAppend(gone, kept, k);
    WithoutIs(gone, k);
    WithoutIs(kept, k);
    hide Without;
    assert Distinct(kept) by {
      forall i, j | 0 <= i < j < |kept|
        ensures kept[i] != kept[j]
      {
        assert (gone + kept)[|gone| + i] != (gone + kept)[|gone| + j];
      }
    }
    if k in kept {
      var j :| 0 <= j < |kept| && kept[j] == k;
      forall i | 0 <= i < |gone|
        ensures gone[i] != k
      {
        assert (gone + kept)[i] != (gone + kept)[|gone| + j];
      }
      assert gone + Without(kept, k) + [k] == gone + (Without(kept, k) + [k]);
    } else {
      var g := Without(gone, k);
      assert (g + kept + [k])[|g| + 1..] == (kept + [k])[1..];
    }
  }

  // ---- prepared statements ----

  class PreparedStatement {
    const id: nat
    const parameterCount: nat
    var closed: bool

    constructor (id: nat, parameterCount: nat)
      ensures this.id == id && this.parameterCount == parameterCount && !closed
    {
      this.id, this.parameterCount, closed := id, parameterCount, false;
    }
  }

  datatype Entry = Entry(query: string, stmt: PreparedStatement)

  function Keys(cache: seq<Entry>): (keys: seq<string>)
    ensures |keys| == |cache|
    ensures forall i :: 0 <= i < |cache| ==> keys[i] == cache[i].query
  {
    seq(|cache|, i requires 0 <= i < |cache| => cache[i].query)
  }

  // cache.get(query)
  function Find(cache: seq<Entry>, query: string): (i: nat)
    ensures i <= |cache| && (i < |cache| ==> cache[i].query == query)
    ensures i == |cache| ==> query !in Keys(cache)
  {
    if cache == [] || cache[0].query == query then 0 else 1 + Find(cache[1..], query)
  }

  // del cache[query]; cache[query] = stmt
  function Moved(cache: seq<Entry>, i: nat): seq<Entry>
    requires i < |cache|
  {
    cache[..i] + cache[i + 1..] + [cache[i]]
  }

  // A new entry at the end; with more than n the first one goes.
  function Inserted(cache: seq<Entry>, e: Entry, n: nat): (r: seq<Entry>)
    ensures n > 0 ==> |r| > 0 && r[|r| - 1] == e
  {
    LastOf(cache + [e], n)
  }

  lemma InsertedIs(cache: seq<Entry>, e: Entry, n: nat)
    requires |cache| <= n
    ensures Inserted(cache, e, n) == if |cache| == n then (cache + [e])[1..] else cache + [e]
  {
  }

  ghost function Stmts(cache: seq<Entry>): set<PreparedStatement> {
    set e | e in cache :: e.stmt
  }

  // A statement takes as many parameters as its query has placeholders, and the query was not refused.
  ghost predicate GoodEntry(e: Entry, unpreparable: set<string>) {
    && e.query !in unpreparable && Qmark(e.query).Some? && e.stmt.parameterCount == Qmark(e.query).value.1
  }

  ghost predicate Sound(cache: seq<Entry>, unpreparable: set<string>) {
    && (forall i :: 0 <= i < |cache| ==> GoodEntry(cache[i], unpreparable))
    && (forall i, j :: 0 <= i < j < |cache| ==> cache[i].stmt != cache[j].stmt)
  }

  lemma MovedSound(cache: seq<Entry>, i: nat, unpreparable: set<string>)
    requires i < |cache|
    ensures Sound(cache, unpreparable) ==> Sound(Moved(cache, i), unpreparable)
    ensures Stmts(Moved(cache, i)) == Stmts(cache)
  {
    hide GoodEntry;
    assert cache == cache[..i] + [cache[i]] + cache[i + 1..];
    assert forall e :: e in Moved(cache, i) <==> e in cache;
  }

  lemma InsertedSound(cache: seq<Entry>, e: Entry, n: nat, unpreparable: set<string>)
    requires 0 < n && |cache| <= n && e.stmt !in Stmts(cache)
    requires Sound(cache, unpreparable) && GoodEntry(e, unpreparable)
    ensures Sound(Inserted(cache, e, n), unpreparable)
    ensures Stmts(Inserted(cache, e, n)) == Stmts(cache) - (if |cache| == n then {cache[0].stmt} else {}) + {e.stmt}
    ensures cache != [] ==> cache[0].stmt in Stmts(cache)
  {
    hide GoodEntry;
    var after, d := Inserted(cache, e, n), if |cache| == n then 1 else 0;
    assert after == cache[d..] + [e];
    assert cache != [] ==> cache[0] in cache;
    forall i | 0 <= i < |cache|
      ensures cache[i].stmt in Stmts(cache)
    {
      assert cache[i] in cache;
    }
    assert Stmts(cache[d..]) == Stmts(cache) - (if d == 1 then {cache[0].stmt} else {}) by {
      if d == 1 {
        assert cache == [cache[0]] + cache[1..];
        forall x | x in cache[1..]
          ensures x.stmt != cache[0].stmt
        {
          var j :| 0 <= j < |cache[1..]| && cache[1..][j] == x;
          assert cache[j + 1] == x;
        }
      } else {
        assert cache[0..] == cache;
      }
    }
  }

  // How COM_STMT_PREPARE ends: a statement, one of the driver's errors, or any other exception.
  datatype Reply = Prepared(id: nat, parameterCount: nat) | Refused | Broken

  datatype Outcome = Usable(stmt: PreparedStatement) | TextProtocol | Raised

  const UNPREPARABLE_LIMIT := 128

  class Connection {
    var cache: seq<Entry>          // a dict, in insertion order
    var unpreparable: set<string>
    const stmtCacheSize: nat
    var closeSent: seq<nat>        // the ids in COM_STMT_CLOSE packets sent
    ghost var uses: seq<string>    // cached queries asked for or newly cached, one after another
    ghost var prepared: set<PreparedStatement>  // all statements of this session

    ghost predicate Valid()
      reads this, prepared
    {
      // The order is recency, and what is kept is the most recently used.
      && stmtCacheSize > 0 && Keys(cache) == Lru(uses, stmtCacheSize)
      && Sound(cache, unpreparable) && |unpreparable| <= 128
      // The cached statements are open, and no other statement of the session is.
      && Stmts(cache) <= prepared && (forall s :: s in prepared ==> (s.closed <==> s !in Stmts(cache)))
    }

    constructor (stmtCacheSize: nat)
      requires stmtCacheSize > 0
      ensures Valid() && cache == [] && unpreparable == {} && fresh(prepared)
    {
      cache, unpreparable, closeSent, uses, prepared := [], {}, [], [], {};
      this.stmtCacheSize := stmtCacheSize;
    }

    // PreparedStatement.close on a connected connection; sending may fail after the statement is marked.
    method Close(stmt: PreparedStatement, fails: bool) returns (raised: bool)
      modifies this`closeSent, stmt
      ensures stmt.closed
      ensures old(stmt.closed) ==> !raised && closeSent == old(closeSent)
      ensures !old(stmt.closed) ==> raised == fails && closeSent == old(closeSent) + (if fails then [] else [stmt.id])
    {
      if stmt.closed {
        return false;
      }
      stmt.closed := true;
      if fails {
        return true;
      }
      closeSent := closeSent + [stmt.id];
      return false;
    }

    // del and insert again
    method Touch(query: string, i: nat)
      requires Valid() && i < |cache| && cache[i].query == query
      modifies this`cache, this`uses
      ensures Valid() && uses == old(uses) + [query] && cache == Moved(old(cache), i)
    {
      hide Lru, Keys, Stmts, Sound, Without, Moved;
      KeysMoved(cache, i, uses, stmtCacheSize);
      MovedSound(cache, i, unpreparable);
      cache := Moved(cache, i);
      uses := uses + [query];
    }

    // _acquire_cached_statement; reply and closeFails say what the server and the network do.
    method Acquire(query: string, nargs: nat, reply: Reply, closeFails: bool) returns (r: Outcome)
      requires Valid()
      modifies this, prepared
      ensures Valid() && fresh(prepared - old(prepared)) && old(prepared) <= prepared
      ensures r.Usable? ==> r.stmt in prepared && !r.stmt.closed && r.stmt.parameterCount == nargs
      ensures r.Usable? ==> |cache| > 0 && cache[|cache| - 1] == Entry(query, r.stmt)
      // Found: the query becomes the most recently used one, and nothing is prepared or closed.
      ensures old(Find(cache, query) < |cache|) ==>
                var i := old(Find(cache, query));
                && cache == Moved(old(cache), i) && uses == old(uses) + [query]
                && r == (if old(cache[i]).stmt.parameterCount == nargs then Usable(old(cache[i]).stmt) else TextProtocol)
                && unpreparable == old(unpreparable) && prepared == old(prepared) && closeSent == old(closeSent)
      // Not to be prepared: nothing changes.
      ensures query !in old(Keys(cache)) && old(query in unpreparable || Qmark(query).None? || Qmark(query).value.1 != nargs) ==>
                r == TextProtocol && cache == old(cache) && unpreparable == old(unpreparable) && prepared == old(prepared)
      // Prepared: refused queries are remembered up to a limit, a mismatch is closed, the rest is cached.
      ensures query !in old(Keys(cache)) && old(query !in unpreparable && Qmark(query).Some? && Qmark(query).value.1 == nargs) ==>
                match reply
                case Broken => r == Raised && cache == old(cache) && unpreparable == old(unpreparable)
                case Refused =>
                  && r == TextProtocol && cache == old(cache) && prepared == old(prepared)
                  && unpreparable == old(unpreparable) + (if |old(unpreparable)| < 128 then {query} else {})
                case Prepared(id, count) =>
                  if count != nargs then
                    && r == (if closeFails then Raised else TextProtocol)
                    && cache == old(cache) && unpreparable == old(unpreparable)
                    && closeSent == old(closeSent) + (if closeFails then [] else [id])
                  else
                    && r.Usable? && r.stmt.id == id && fresh(r.stmt) && uses == old(uses) + [query]
                    && cache == Inserted(old(cache), Entry(query, r.stmt), stmtCacheSize)
                    && unpreparable == old(unpreparable)
                    && closeSent == old(closeSent)
                         + (if |old(cache)| == stmtCacheSize && !closeFails then [old(cache[0]).stmt.id] else [])
      // Closed are a mismatch and the statement that goes, and no other.
      ensures forall s :: s in old(prepared) && !old(s.closed) && s.closed ==>
                |old(cache)| == stmtCacheSize && s == old(cache[0]).stmt
    {
      hide Lru, Keys, Stmts, Sound, Moved, Inserted, Qmark, Find, LastOf;
      var i := Find(cache, query);
      if i < |cache| {
        var stmt := cache[i].stmt;
        FindInKeys(cache, query);
        EntryFacts(cache, i, unpreparable);
        Touch(query, i);
        return if stmt.parameterCount != nargs then TextProtocol else Usable(stmt);
      }
      if query in unpreparable {
        return TextProtocol;
      }
      var converted := PyformatToQmark(query);
      if converted == None || converted.value.1 != nargs {
        return TextProtocol;
      }
      match reply {
        case Broken =>
          return Raised;
        case Refused =>
          if |unpreparable| < UNPREPARABLE_LIMIT {
            StillSound(cache, unpreparable, query);
            unpreparable := unpreparable + {query};
          }
          return TextProtocol;
        case Prepared(id, count) =>
          var stmt := new PreparedStatement(id, count);
          prepared := prepared + {stmt};
          if count != nargs {
            var raised := Close(stmt, closeFails);
            return if raised then Raised else TextProtocol;
          }
          Insert(query, stmt, closeFails);
          return Usable(stmt);
      }
    }

    // The new entry, and the first one popped when there are too many; an error closing it is dropped.
    method Insert(query: string, stmt: PreparedStatement, closeFails: bool)
      requires stmt in prepared && !stmt.closed && stmt !in Stmts(cache)
      requires query !in Keys(cache) && GoodEntry(Entry(query, stmt), unpreparable)
      requires stmtCacheSize > 0 && Keys(cache) == Lru(uses, stmtCacheSize) && |unpreparable| <= 128
      requires Sound(cache, unpreparable)
      requires Stmts(cache) <= prepared && (forall s :: s in prepared && s != stmt ==> (s.closed <==> s !in Stmts(cache)))
      modifies this`cache, this`uses, this`closeSent, prepared
      ensures Valid() && cache == Inserted(old(cache), Entry(query, stmt), stmtCacheSize) && uses == old(uses) + [query]
      ensures !stmt.closed && old(|cache|) <= stmtCacheSize
      ensures closeSent == old(closeSent)
                + (if |old(cache)| == stmtCacheSize && !closeFails then [old(cache[0]).stmt.id] else [])
      ensures forall s :: s in prepared && !old(s.closed) && s.closed ==>
                |old(cache)| == stmtCacheSize && s == old(cache[0]).stmt
    {
      hide Lru, Keys, Sound, GoodEntry, Stmts, Inserted, LastOf, Qmark;
      var entry := Entry(query, stmt);
      ghost var before := cache;
      KeysInserted(cache, entry, uses, stmtCacheSize);
      InsertedSound(cache, entry, stmtCacheSize, unpreparable);
      InsertedIs(cache, entry, stmtCacheSize);
      uses := uses + [query];
      cache := cache + [entry];
      if |cache| > stmtCacheSize {
        var oldest := cache[0].stmt;
        assert before[0].stmt == oldest;
        cache := cache[1..];
        var raised := Close(oldest, closeFails);
      }
    }

    // connect(): statement ids do not survive a new session.
    method Reconnect()
      requires Valid()
      modifies this
      ensures Valid() && cache == [] && unpreparable == old(unpreparable) && prepared == {} && closeSent == []
    {
      cache, uses, prepared, closeSent := [], [], {}, [];
    }
  }

  lemma KeysAppend(a: seq<Entry>, b: seq<Entry>)
    ensures Keys(a + b) == Keys(a) + Keys(b)
  {
  }

  lemma FindInKeys(cache: seq<Entry>, query: string)
    requires Find(cache, query) < |cache|
    ensures query in Keys(cache)
  {
    assert Keys(cache)[Find(cache, query)] == query;
  }

  lemma EntryFacts(cache: seq<Entry>, i: nat, unpreparable: set<string>)
    requires i < |cache| && Sound(cache, unpreparable)
    ensures cache[i].stmt in Stmts(cache) && Moved(cache, i)[|cache| - 1] == cache[i] && |Moved(cache, i)| == |cache|
  {
    assert cache[i] in cache;
  }

  lemma StillSound(cache: seq<Entry>, unpreparable: set<string>, query: string)
    requires Sound(cache, unpreparable) && query !in Keys(cache)
    ensures Sound(cache, unpreparable + {query})
  {
    forall i | 0 <= i < |cache|
      ensures GoodEntry(cache[i], unpreparable + {query})
    {
      assert GoodEntry(cache[i], unpreparable);
      assert Keys(cache)[i] in Keys(cache);
    }
  }

  lemma KeysMoved(cache: seq<Entry>, i: nat, uses: seq<string>, n: nat)
    requires i < |cache| && n > 0 && Keys(cache) == Lru(uses, n)
    ensures Keys(Moved(cache, i)) == Lru(uses + [cache[i].query], n)
  {
    hide Lru, Without, Recent, Keys, LastOf, Distinct;
    var k := cache[i].query;
    LruDistinct(uses, n);
    LruStep(uses, k, n);
    WithoutAt(cache, i);
    KeysOne(cache[i]);
    KeysAppend(cache[..i] + cache[i + 1..], [cache[i]]);
  }

  lemma KeysOne(e: Entry)
    ensures Keys([e]) == [e.query]
  {
  }

  lemma LruDistinct(uses: seq<string>, n: nat)
    ensures Distinct(Lru(uses, n)) && |Lru(uses, n)| <= n
  {
    hide Recent;
    RecentDistinct(uses);
  }

  lemma KeysInserted(cache: seq<Entry>, e: Entry, uses: seq<string>, n: nat)
    requires n > 0 && Keys(cache) == Lru(uses, n) && e.query !in Keys(cache)
    ensures |cache| <= n && Keys(Inserted(cache, e, n)) == Lru(uses + [e.query], n)
  {
    hide Lru, Without, Recent, Keys;
    LruDistinct(uses, n);
    LruStep(uses, e.query, n);
    KeysAppend(cache, [e]);
    KeysOne(e);
    KeysLast(cache + [e], n);
  }

  lemma KeysLast(cache: seq<Entry>, n: nat)
    ensures Keys(LastOf(cache, n)) == LastOf(Keys(cache), n)
  {
    if |cache| > n {
      KeysAppend(cache[..|cache| - n], cache[|cache| - n..]);
      assert cache == cache[..|cache| - n] + cache[|cache| - n..];
    }
  }

  lemma {:induction false} WithoutAt(cache: seq<Entry>, i: nat)
    requires i < |cache| && Distinct(Keys(cache))
    ensures Without(Keys(cache), cache[i].query) == Keys(cache[..i] + cache[i + 1..])
    ensures cache[i].query in Keys(cache)
  {
    hide Without, Keys;
    var k := cache[i].query;
    var a, b := Keys(cache[..i]), Keys(cache[i + 1..]);
    KeysAppend(cache[..i], cache[i + 1..]);
    KeysAround(cache, i);
    OnlyThere(a, k, b);
    WithoutAppend(a, [k] + b, k);
    WithoutCons(k, b, k);
    WithoutIs(a, k);
    WithoutIs(b, k);
    assert [] + b == b;
  }

  lemma KeysAround(cache: seq<Entry>, i: nat)
    requires i < |cache|
    ensures Keys(cache) == Keys(cache[..i]) + ([cache[i].query] + Keys(cache[i + 1..]))
    ensures cache[i].query in Keys(cache)
  {
    assert Keys(cache)[i] == cache[i].query;
    assert cache == cache[..i] + ([cache[i]] + cache[i + 1..]);
    KeysAppend(cache[..i], [cache[i]] + cache[i + 1..]);
    KeysAppend([cache[i]], cache[i + 1..]);
    KeysOne(cache[i]);
  }

  lemma OnlyThere(a: seq<string>, k: string, b: seq<string>)
    requires Distinct(a + ([k] + b))
    ensures k !in a && k !in b
  {
    var s := a + ([k] + b);
    assert s[|a|] == k;
    forall i | 0 <= i < |a|
      ensures a[i] != k
    {
      assert s[i] != s[|a|];
    }
    forall i | 0 <= i < |b|
      ensures b[i] != k
    {
      assert s[|a|] != s[|a| + 1 + i];
    }
  }
}
