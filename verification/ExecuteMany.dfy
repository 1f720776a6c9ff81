// executemany(): rows sent in as few INSERT statements as the length limit allows.
module ExecuteMany {
  import opened Binary

  const COMMA: Byte := 44

  // ---- statements and their rows ----

  function Join(group: seq<Bytes>): Bytes {
    if group == [] then []
    else if |group| == 1 then group[0]
    else Join(group[..|group| - 1]) + [COMMA] + group[|group| - 1]
  }

  datatype Query = Query(prefix: Bytes, postfix: Bytes, maxLength: int) {
    function Statement(group: seq<Bytes>): Bytes {
      prefix + Join(group) + postfix
    }

    // A statement with more than one row must keep to the limit.
    predicate Allowed(group: seq<Bytes>) {
      |group| > 1 ==> |Statement(group)| <= maxLength
    }

    // Any way of sending the rows, in order, in allowed statements.
    ghost predicate Splits(groups: seq<seq<Bytes>>, rows: seq<Bytes>) {
      && Flatten(groups) == rows
      && forall g :: g in groups ==> g != [] && Allowed(g)
    }

    // The loop from a batch with the rows `current`: the batches to come.
    function Greedy(current: seq<Bytes>, rest: seq<Bytes>): seq<seq<Bytes>>
      decreases |rest|
    {
      if rest == [] then [current]
      else if |Statement(current + [rest[0]])| > maxLength then [current] + Greedy([rest[0]], rest[1..])
      else Greedy(current + [rest[0]], rest[1..])
    }

    function Batches(rows: seq<Bytes>): seq<seq<Bytes>> {
      if rows == [] then [] else Greedy([rows[0]], rows[1..])
    }

    function Statements(groups: seq<seq<Bytes>>): (r: seq<Bytes>)
      ensures |r| == |groups|
    {
      seq(|groups|, i requires 0 <= i < |groups| => Statement(groups[i]))
    }
  }

  function Flatten(groups: seq<seq<Bytes>>): seq<Bytes> {
    if groups == [] then [] else groups[0] + Flatten(groups[1..])
  }

  // ---- lengths ----

  lemma JoinOneMore(group: seq<Bytes>, row: Bytes)
    requires group != []
    ensures Join(group + [row]) == Join(group) + [COMMA] + row
  {
    assert (group + [row])[..|group + [row]| - 1] == group;
  }

  // Leaving out rows in front never makes a statement longer.
  lemma {:induction false} JoinSuffix(front: seq<Bytes>, back: seq<Bytes>)
    requires back != []
    ensures |Join(back)| <= |Join(front + back)|
    decreases |back|
  {
    if |back| > 1 {
      var b, row := back[..|back| - 1], back[|back| - 1];
      JoinSuffix(front, b);
      assert back == b + [row] && front + back == (front + b) + [row];
      JoinOneMore(b, row);
      JoinOneMore(front + b, row);
    } else if front != [] {
      assert front + back == front + [back[0]];
      JoinOneMore(front, back[0]);
    } else {
      assert front + back == back;
    }
  }

  lemma {:induction false} SplitsTail(q: Query, group: seq<Bytes>, groups: seq<seq<Bytes>>, rows: seq<Bytes>)
    requires group != [] && q.Allowed(group) && q.Splits(groups, rows)
    ensures q.Splits([group] + groups, group + rows)
  {
    assert ([group] + groups)[1..] == groups;
  }

  // ---- what the server makes of a statement ----

  // Between prefix and postfix the server finds rows with a comma (0x2C) between any two of them.
  ghost predicate Lists(text: Bytes, rows: seq<Bytes>)
    decreases |rows|
  {
    && rows != [] && rows[0] <= text
    && if |rows| == 1 then text == rows[0]
       else |text| > |rows[0]| && text[|rows[0]|] == 0x2C && Lists(text[|rows[0]| + 1..], rows[1..])
  }

  lemma {:induction false} JoinLists(group: seq<Bytes>)
    requires group != []
    ensures Lists(Join(group), group)
    decreases |group|
  {
    if |group| > 1 {
      JoinFront(group);
      var more := Join(group[1..]);
      assert Join(group) == group[0] + ([0x2C] + more);
      assert Join(group)[|group[0]| + 1..] == more;
      JoinLists(group[1..]);
    }
  }

  lemma {:induction false} JoinFront(group: seq<Bytes>)
    requires |group| > 1
    ensures Join(group) == group[0] + [0x2C] + Join(group[1..])
    decreases |group|
  {
    var front, row := group[..|group| - 1], group[|group| - 1];
    if |group| == 2 {
      assert front == [group[0]] && group[1..] == [group[1]];
    } else {
      JoinFront(front);
      assert front[0] == group[0];
      assert group[1..] == front[1..] + [row];
      JoinOneMore(front[1..], row);
      var a, b := group[0] + [0x2C], Join(front[1..]);
      assert a + b + [COMMA] + row == a + (b + [COMMA] + row);
    }
  }

  // A statement is the prefix, the list of its rows and the postfix.
  lemma StatementLists(q: Query, group: seq<Bytes>)
    requires group != []
    ensures var s, n := q.Statement(group), |q.Statement(group)| - |q.postfix|;
            && |q.prefix| <= n && s[..|q.prefix|] == q.prefix && s[n..] == q.postfix
            && Lists(s[|q.prefix|..n], group)
  {
    hide Join, Lists;
    JoinLists(group);
    var s := q.Statement(group);
    assert s[|q.prefix|..|s| - |q.postfix|] == Join(group);
  }

  // ---- what the batches are ----

  // Every row goes out once, in order, in an allowed statement.
  lemma {:induction false} GreedySplits(q: Query, current: seq<Bytes>, rest: seq<Bytes>)
    requires current != [] && q.Allowed(current)
    ensures q.Splits(q.Greedy(current, rest), current + rest)
    decreases |rest|
  {
    if rest == [] {
      assert q.Splits([], []);
      SplitsTail(q, current, [], []);
      assert [current] + [] == [current];
    } else {
      var row, more := rest[0], rest[1..];
      assert rest == [row] + more;
      if |q.Statement(current + [row])| > q.maxLength {
        GreedySplits(q, [row], more);
        SplitsTail(q, current, q.Greedy([row], more), rest);
      } else {
        GreedySplits(q, current + [row], more);
        assert current + [row] + more == current + rest;
      }
    }
  }

  lemma BatchesSplit(q: Query, rows: seq<Bytes>)
    ensures q.Splits(q.Batches(rows), rows)
  {
    if rows != [] {
      GreedySplits(q, [rows[0]], rows[1..]);
      assert rows == [rows[0]] + rows[1..];
    }
  }

  // Against any other way to send the rows: `mine` is the batch being filled, `theirs` the other's, which
  // will still take `tail` before it goes on with `groups`. As long as mine is part of theirs, no more
  // batches are to come than theirs; one batch behind, at most one more.
  lemma {:induction false} StaysAhead(q: Query, mine: seq<Bytes>, rest: seq<Bytes>, theirs: seq<Bytes>, tail: seq<Bytes>,
                                      groups: seq<seq<Bytes>>)
    requires mine != [] && theirs != [] && q.Allowed(theirs + tail)
    requires rest == tail + Flatten(groups) && forall g :: g in groups ==> g != [] && q.Allowed(g)
    ensures |q.Greedy(mine, rest)| <= |groups| + 2
    ensures |mine| <= |theirs| && mine == theirs[|theirs| - |mine|..] ==> |q.Greedy(mine, rest)| <= |groups| + 1
    decreases |rest|
  {
    if rest == [] {
    } else if tail == [] {
      var row, more, g := rest[0], rest[1..], groups[0];
      assert g in groups && rest == g + Flatten(groups[1..]) && g[0] == row;
      assert more == g[1..] + Flatten(groups[1..]);
      assert [row] + g[1..] == g;
      assert forall h :: h in groups[1..] ==> h in groups;
      if |q.Statement(mine + [row])| > q.maxLength {
        StaysAhead(q, [row], more, [row], g[1..], groups[1..]);
      } else {
        StaysAhead(q, mine + [row], more, [row], g[1..], groups[1..]);
      }
    } else {
      var row, more := rest[0], rest[1..];
      assert tail[0] == row && more == tail[1..] + Flatten(groups);
      assert theirs + [row] + tail[1..] == theirs + tail;
      if |q.Statement(mine + [row])| > q.maxLength {
        StaysAhead(q, [row], more, theirs + [row], tail[1..], groups);
        if |mine| <= |theirs| && mine == theirs[|theirs| - |mine|..] {
          PartFits(q, mine, theirs, row, tail);
          assert false;
        }
      } else {
        StaysAhead(q, mine + [row], more, theirs + [row], tail[1..], groups);
      }
    }
  }

  // What a larger batch had room for, a part of it has too.
  lemma PartFits(q: Query, mine: seq<Bytes>, theirs: seq<Bytes>, row: Bytes, tail: seq<Bytes>)
    requires mine != [] && |mine| <= |theirs| && mine == theirs[|theirs| - |mine|..]
    requires tail != [] && tail[0] == row && q.Allowed(theirs + tail)
    ensures |q.Statement(mine + [row])| <= q.maxLength
  {
    var front := theirs[..|theirs| - |mine|];
    assert theirs + [row] == front + (mine + [row]);
    JoinSuffix(front, mine + [row]);
    assert theirs + tail == theirs + [row] + tail[1..];
    JoinPrefix(theirs + [row], tail[1..]);
  }

  lemma {:induction false} JoinPrefix(front: seq<Bytes>, back: seq<Bytes>)
    requires front != []
    ensures |Join(front)| <= |Join(front + back)|
    decreases |back|
  {
    if back == [] {
      assert front + back == front;
    } else {
      var b, row := back[..|back| - 1], back[|back| - 1];
      JoinPrefix(front, b);
      assert front + back == (front + b) + [row];
      JoinOneMore(front + b, row);
    }
  }

  // No way of sending the rows in order in allowed statements needs fewer statements.
  lemma BatchesAreFewest(q: Query, rows: seq<Bytes>, other: seq<seq<Bytes>>)
    requires q.Splits(other, rows)
    ensures |q.Batches(rows)| <= |other|
  {
    if rows != [] {
      var g := other[0];
      assert g in other && forall h :: h in other[1..] ==> h in other;
      assert g[0] == rows[0] && rows[1..] == g[1..] + Flatten(other[1..]);
      assert [g[0]] + g[1..] == g;
      StaysAhead(q, [rows[0]], rows[1..], [g[0]], g[1..], other[1..]);
    }
  }

  // ---- the cursor ----

  // What the server answers to the statements from the n-th up to the m-th, in all.
  function Total(answers: nat -> int, n: nat, m: nat): int
    requires n <= m
  {
    if n == m then 0 else Total(answers, n, m - 1) + answers(m - 1)
  }

  // That is a sum: each answer counts once.
  lemma {:induction false} TotalAdds(answers: nat -> int, n: nat, k: nat, m: nat)
    requires n <= k <= m
    ensures Total(answers, n, n + 1) == answers(n)
    ensures Total(answers, n, m) == Total(answers, n, k) + Total(answers, k, m)
    decreases m
  {
    assert Total(answers, n, n) == 0;
    if k < m {
      TotalAdds(answers, n, k, m - 1);
    }
  }

  class Cursor {
    var executed: seq<Bytes>
    var rowcount: int
    const answers: nat -> int  // the row count the server gives for each statement

    constructor (answers: nat -> int)
      ensures executed == [] && rowcount == 0 && this.answers == answers
    {
      executed, rowcount := [], 0;
      this.answers := answers;
    }

    // execute()
    method Execute(sql: Bytes) returns (affected: int)
      modifies this
      ensures executed == old(executed) + [sql] && affected == rowcount == answers(|old(executed)|)
    {
      executed := executed + [sql];
      rowcount := answers(|executed| - 1);
      affected := rowcount;
    }

    // _do_execute_many, for rows already encoded.
    method DoExecuteMany(q: Query, encodedValues: seq<Bytes>) returns (rows: int)
      modifies this
      ensures executed == old(executed) + q.Statements(q.Batches(encodedValues))
      ensures rows == Total(answers, |old(executed)|, |executed|)
      ensures rowcount == if encodedValues == [] then old(rowcount) else rows
    {
      if encodedValues == [] {
        assert executed + q.Statements([]) == executed;
        return 0;
      }
      rows := 0;
      ghost var group, groups := [encodedValues[0]], [];
      var batchParts := [q.prefix, encodedValues[0]];
      var currentLength := |q.prefix| + |encodedValues[0]|;
      var sql, affected;
      ConcatTwo(q.prefix, encodedValues[0]);
      assert [] + q.Batches(encodedValues) == q.Batches(encodedValues);
      assert executed + q.Statements([]) == executed;
      hide q.Greedy, q.Batches, q.Statements, Join, Concat;
      BatchesStart(q, encodedValues);
      for i := 1 to |encodedValues|
        invariant group != [] && Concat(batchParts) == q.prefix + Join(group) && currentLength == |Concat(batchParts)|
        invariant q.Batches(encodedValues) == groups + q.Greedy(group, encodedValues[i..])
        invariant executed == old(executed) + q.Statements(groups)
        invariant rows == Total(answers, |old(executed)|, |executed|)
      {
        var v := encodedValues[i];
        GreedyStep(q, groups, group, encodedValues, i);
        JoinOneMore(group, v);
        if currentLength + |v| + |q.postfix| + 1 > q.maxLength {
          sql := Concat(batchParts) + q.postfix;
          affected := Execute(sql);
          rows := rows + affected;
          StatementsSnoc(q, groups, group);
          groups, group := groups + [group], [v];
          batchParts := [q.prefix, v];
          currentLength := |q.prefix| + |v|;
          ConcatTwo(q.prefix, v);
          JoinOne(v);
        } else {
          ConcatTwoMore(batchParts, [COMMA], v);
          JoinAssoc(q.prefix, Join(group), v);
          group := group + [v];
          batchParts := batchParts + [[COMMA]] + [v];
          currentLength := currentLength + 1 + |v|;
        }
      }
      sql := Concat(batchParts) + q.postfix;
      affected := Execute(sql);
      rows := rows + affected;
      StatementsSnoc(q, groups, group);
      GreedyEnd(q, group, encodedValues);
      rowcount := rows;
    }
  }

  lemma BatchesStart(q: Query, rows: seq<Bytes>)
    requires rows != []
    ensures q.Batches(rows) == [] + q.Greedy([rows[0]], rows[1..]) && Join([rows[0]]) == rows[0]
  {
    assert [] + q.Greedy([rows[0]], rows[1..]) == q.Greedy([rows[0]], rows[1..]);
  }

  lemma GreedyStep(q: Query, groups: seq<seq<Bytes>>, group: seq<Bytes>, rows: seq<Bytes>, i: nat)
    requires i < |rows| && group != []
    ensures groups + q.Greedy(group, rows[i..])
         == if |q.prefix + (Join(group) + [COMMA] + rows[i]) + q.postfix| > q.maxLength
            then groups + [group] + q.Greedy([rows[i]], rows[i + 1..])
            else groups + q.Greedy(group + [rows[i]], rows[i + 1..])
  {
    var rest := rows[i..];
    assert rest[0] == rows[i] && rest[1..] == rows[i + 1..];
    JoinOneMore(group, rows[i]);
    var more := q.Greedy([rows[i]], rows[i + 1..]);
    assert groups + ([group] + more) == groups + [group] + more;
  }

  lemma GreedyEnd(q: Query, group: seq<Bytes>, rows: seq<Bytes>)
    ensures q.Greedy(group, rows[|rows|..]) == [group]
  {
  }

  lemma JoinOne(row: Bytes)
    ensures Join([row]) == row
  {
  }

  lemma JoinAssoc(a: Bytes, b: Bytes, c: Bytes)
    ensures a + b + [COMMA] + c == a + (b + [COMMA] + c)
  {
  }

  // b"".join
  function Concat(parts: seq<Bytes>): Bytes {
    if parts == [] then [] else Concat(parts[..|parts| - 1]) + parts[|parts| - 1]
  }

  lemma ConcatTwo(a: Bytes, b: Bytes)
    ensures Concat([a, b]) == a + b && Join([b]) == b
  {
    assert [a, b][..1] == [a] && [a][..0] == [];
    assert Concat([a]) == [] + a == a;
  }

  lemma ConcatTwoMore(parts: seq<Bytes>, a: Bytes, b: Bytes)
    ensures Concat(parts + [a] + [b]) == Concat(parts) + a + b
  {
    assert (parts + [a] + [b])[..|parts + [a] + [b]| - 1] == parts + [a];
    assert (parts + [a])[..|parts + [a]| - 1] == parts;
  }

  lemma StatementsSnoc(q: Query, groups: seq<seq<Bytes>>, group: seq<Bytes>)
    ensures q.Statements(groups + [group]) == q.Statements(groups) + [q.Statement(group)]
    ensures forall before: seq<Bytes> ::
              before + q.Statements(groups) + [q.Statement(group)] == before + q.Statements(groups + [group])
  {
    forall before: seq<Bytes>
      ensures before + q.Statements(groups) + [q.Statement(group)] == before + q.Statements(groups + [group])
    {
      assert before + q.Statements(groups) + [q.Statement(group)] == before + (q.Statements(groups) + [q.Statement(group)]);
      assert q.Statements(groups + [group]) == q.Statements(groups) + [q.Statement(group)];
    }
  }
}
