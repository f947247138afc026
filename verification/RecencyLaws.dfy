/** What a run of calls leaves in the sorted sets, told from the calls alone: which members live, in what
    order, and how a range query shows them. */
module RecencyLaws {
  import opened Wrappers
  import opened Scores
  import opened RecencyList

  // ---------- Order in a list ----------

  /** x stands somewhere before y. */
  predicate Before(l: seq<Entry>, x: Entry, y: Entry) {
    exists i, j :: 0 <= i < j < |l| && l[i] == x && l[j] == y
  }

  lemma BeforeHead(h: Entry, t: seq<Entry>, x: Entry, y: Entry)
    ensures Before([h] + t, x, y) <==> (x == h && y in t) || Before(t, x, y)
  {
    var l := [h] + t;
    if Before(l, x, y) {
      var i, j :| 0 <= i < j < |l| && l[i] == x && l[j] == y;
      assert t[j - 1] == y;
      assert i > 0 ==> t[i - 1] == x;
    }
    if x == h && y in t {
      var j :| 0 <= j < |t| && t[j] == y;
      assert l[0] == x && l[j + 1] == y;
    }
    if Before(t, x, y) {
      var i, j :| 0 <= i < j < |t| && t[i] == x && t[j] == y;
      assert l[i + 1] == x && l[j + 1] == y;
    }
  }

  lemma BeforeLast(l: seq<Entry>, e: Entry, x: Entry, y: Entry)
    ensures Before(l + [e], x, y) <==> Before(l, x, y) || (x in l && y == e)
  {
    var r := l + [e];
    if Before(r, x, y) {
      var i, j :| 0 <= i < j < |r| && r[i] == x && r[j] == y;
      assert l[i] == x;
      assert j < |l| ==> l[j] == y;
    }
    if Before(l, x, y) {
      var i, j :| 0 <= i < j < |l| && l[i] == x && l[j] == y;
      assert r[i] == x && r[j] == y;
    }
    if x in l && y == e {
      var i :| 0 <= i < |l| && l[i] == x;
      assert r[i] == x && r[|l|] == y;
    }
  }

  /** A filter keeps the order of what it keeps. */
  lemma {:induction false} FilterBefore(k: Test, l: seq<Entry>, x: Entry, y: Entry)
    ensures Before(Filter(k, l), x, y) <==> Before(l, x, y) && Keeps(k, x) && Keeps(k, y)
  {
    if l != [] {
      var h, t := l[0], l[1..];
      assert l == [h] + t;
      FilterBefore(k, t, x, y);
      FilterHead(k, h, t);
      FilterMembers(k, t);
      BeforeHead(h, t, x, y);
      BeforeHead(h, Filter(k, t), x, y);
      hide Keeps, Filter, Before;
    }
  }

  /** Removing a member cuts it out of its place and moves nothing else. */
  lemma {:induction false} RemovedIsCut(l: seq<Entry>, m: Member)
    requires Distinct(l)
    ensures forall i | 0 <= i < |l| && l[i].member == m :: Removed(l, m) == l[..i] + l[i + 1..]
    ensures (forall i | 0 <= i < |l| :: l[i].member != m) ==> Removed(l, m) == l
  {
    forall i | 0 <= i < |l| && l[i].member == m ensures Removed(l, m) == l[..i] + l[i + 1..] {
      assert l == l[..i] + ([l[i]] + l[i + 1..]);
      FilterAppend(Not(m), l[..i], [l[i]] + l[i + 1..]);
      FilterHead(Not(m), l[i], l[i + 1..]);
      FilterAll(Not(m), l[..i]);
      FilterAll(Not(m), l[i + 1..]);
    }
    if forall i | 0 <= i < |l| :: l[i].member != m {
      FilterAll(Not(m), l);
    }
  }

  /** Adding a member puts it last, behind the others in their old order. */
  lemma AddedIsLast(l: seq<Entry>, m: Member, s: Score)
    requires Distinct(l)
    ensures var r := Added(l, m, s);
            && r != [] && r[|r| - 1] == Entry(m, s)
            && (forall i | 0 <= i < |l| && l[i].member == m :: r[..|r| - 1] == l[..i] + l[i + 1..])
            && ((forall i | 0 <= i < |l| :: l[i].member != m) ==> r[..|r| - 1] == l)
  {
    RemovedIsCut(l, m);
    hide Removed;
  }

  /** Removing a range removes exactly the entries the IEEE comparison finds in it and keeps the order of
      the others. */
  lemma RangeRemovedInOrder(l: seq<Entry>, min: Score, max: Score)
    ensures var r := RangeRemoved(l, min, max);
            && (forall e :: e in r <==> e in l && !(IeeeLe(min, e.score) && IeeeLe(e.score, max)))
            && forall x, y :: Before(r, x, y) ==> Before(l, x, y)
  {
    FilterMembers(Outside(min, max), l);
    forall x, y | Before(RangeRemoved(l, min, max), x, y) ensures Before(l, x, y) {
      FilterBefore(Outside(min, max), l, x, y);
    }
  }

  // ---------- A range query in numbers ----------

  /** A query shows exactly the live entries in range, in the stable order of their scores; a limit cuts
      that sequence, a limit of zero after one entry. */
  lemma RangedInNumbers(l: seq<Entry>, min: Score, max: Score, n: nat)
    ensures var all := Ranged(l, min, max, None);
            && (forall e :: e in all <==> e in l && TotalLe(min, e.score) && TotalLe(e.score, max))
            && Sorted(all)
            && Ranged(l, min, max, Some(n)) ==
               if n == 0 && |all| >= 1 then all[..1] else if 1 <= n < |all| then all[..n] else all
  {
    FilterMembers(Between(min, max), StableSort(l));
    SortIsSortedPermutation(l);
    FilterSorted(Between(min, max), StableSort(l));
    hide StableSort, Filter, TotalLt;
  }

  // ---------- Runs of calls ----------

  /** op replaces or removes the entry e of the set. */
  predicate Ends(op: Op, name: string, e: Entry) {
    match op
    case Add(n, m, _) => n == name && m == e.member
    case Remove(n, m) => n == name && m == e.member
    case RemoveRange(n, min, max) => n == name && IeeeLe(min, e.score) && IeeeLe(e.score, max)
  }

  /** Call number p added e and no later call replaced or removed it. */
  predicate LiveSince(ops: seq<Op>, name: string, e: Entry, p: nat) {
    p < |ops| && ops[p] == Add(name, e.member, e.score) && forall q | p < q < |ops| :: !Ends(ops[q], name, e)
  }

  lemma LiveOneMore(ops: seq<Op>, op: Op, name: string, e: Entry, p: nat)
    ensures LiveSince(ops + [op], name, e, p) <==>
            if p < |ops| then LiveSince(ops, name, e, p) && !Ends(op, name, e)
            else p == |ops| && op == Add(name, e.member, e.score)
  {
    hide Ends;
    var more := ops + [op];
    assert forall q | 0 <= q < |ops| :: more[q] == ops[q];
    assert more[|ops|] == op;
    if p < |ops| && LiveSince(more, name, e, p) {
      forall q | p < q < |ops| ensures !Ends(ops[q], name, e) {
        assert !Ends(more[q], name, e);
      }
    }
  }

  /** What one call makes of a set's list. */
  lemma CallOnList(sets: Sets, op: Op, name: string)
    ensures var l, r := Members(sets, name), Members(After(sets, op), name);
            && (forall e :: e in r <==> (e in l && !Ends(op, name, e)) || op == Add(name, e.member, e.score))
            && forall x, y :: Before(r, x, y) ==>
                 || (Before(l, x, y) && !Ends(op, name, x) && !Ends(op, name, y))
                 || (x in l && !Ends(op, name, x) && op == Add(name, y.member, y.score))
  {
    NotBeforeEmpty();
    if op.name == name {
      var l := Members(sets, name);
      CallIsFilter(sets, op);
      hide Keeps, Filter, Before, After;
      ListAfterFilter(TestOf(op), l, TailOf(op));
      forall e ensures Ends(op, name, e) <==> !Keeps(TestOf(op), e) { TestEnds(op, e); }
      hide Ends, TestOf;
      assert forall e :: e in TailOf(op) <==> op == Add(name, e.member, e.score);
    }
  }

  /** The entries a call keeps, and the one it appends. */
  function TestOf(op: Op): Test {
    match op
    case RemoveRange(_, min, max) => Outside(min, max)
    case _ => Not(op.member)
  }

  function TailOf(op: Op): seq<Entry> {
    if op.Add? then [Entry(op.member, op.score)] else []
  }

  lemma TestEnds(op: Op, e: Entry)
    ensures Ends(op, op.name, e) <==> !Keeps(TestOf(op), e)
  {
  }

  lemma CallIsFilter(sets: Sets, op: Op)
    ensures Members(After(sets, op), op.name) == Filter(TestOf(op), Members(sets, op.name)) + TailOf(op)
  {
    FilterAll(TestOf(op), []);
    hide Filter, Keeps;
  }

  lemma NotBeforeEmpty()
    ensures forall x, y :: !Before([], x, y)
  {
  }

  lemma ListAfterFilter(k: Test, l: seq<Entry>, tail: seq<Entry>)
    requires |tail| <= 1
    ensures var r := Filter(k, l) + tail;
            && (forall e :: e in r <==> (e in l && Keeps(k, e)) || e in tail)
            && forall x, y :: Before(r, x, y) ==>
                 (Before(l, x, y) && Keeps(k, x) && Keeps(k, y)) || (x in l && Keeps(k, x) && y in tail)
  {
    FilterMembers(k, l);
    hide Keeps, Filter, Before;
    var f := Filter(k, l);
    forall x, y | Before(f + tail, x, y)
      ensures (Before(l, x, y) && Keeps(k, x) && Keeps(k, y)) || (x in l && Keeps(k, x) && y in tail)
    {
      FilterBefore(k, l, x, y);
      if tail == [] {
        assert f + tail == f;
      } else {
        assert tail == [tail[0]];
        BeforeLast(f, tail[0], x, y);
      }
    }
  }

  /** After any run of calls: an entry is live exactly if some call added it and no later call replaced or
      removed it, and the live entries of a set stand in the order of those calls. So a member added
      again, even with the score it had, moves behind every member added before. */
  lemma {:induction false} LiveInOrderOfAdding(ops: seq<Op>, name: string)
    ensures forall e :: e in Members(RunIndexed(ops), name) <==> exists p :: LiveSince(ops, name, e, p)
    ensures var l := Members(RunIndexed(ops), name);
            forall x, y, p, q | Before(l, x, y) && LiveSince(ops, name, x, p) && LiveSince(ops, name, y, q) :: p < q
  {
    if ops == [] {
      NotBeforeEmpty();
    } else {
      var before, op := ops[..|ops| - 1], ops[|ops| - 1];
      assert ops == before + [op];
      LiveInOrderOfAdding(before, name);
      var l, r := Members(RunIndexed(before), name), Members(RunIndexed(ops), name);
      CallOnList(RunIndexed(before), op, name);
      hide RunIndexed, After, Before, Ends, LiveSince;
      forall e ensures e in r <==> exists p :: LiveSince(ops, name, e, p) {
        LiveEntry(before, op, ops, name, e);
        assert e in l <==> exists p :: LiveSince(before, name, e, p);
      }
      forall x, y, p, q | Before(r, x, y) && LiveSince(ops, name, x, p) && LiveSince(ops, name, y, q)
        ensures p < q
      {
        LiveOneMore(before, op, name, x, p);
        LiveOneMore(before, op, name, y, q);
        AddEnds(op, name, x);
        AddEnds(op, name, y);
      }
    }
  }

  lemma AddEnds(op: Op, name: string, e: Entry)
    ensures op == Add(name, e.member, e.score) ==> Ends(op, name, e)
  {
  }

  lemma LiveEntry(ops: seq<Op>, op: Op, more: seq<Op>, name: string, e: Entry)
    requires more == ops + [op]
    ensures (exists p :: LiveSince(more, name, e, p)) <==>
            ((exists p :: LiveSince(ops, name, e, p)) && !Ends(op, name, e)) || op == Add(name, e.member, e.score)
  {
    hide LiveSince, Ends;
    if p :| LiveSince(ops + [op], name, e, p) {
      LiveOneMore(ops, op, name, e, p);
    }
    if op == Add(name, e.member, e.score) {
      LiveOneMore(ops, op, name, e, |ops|);
    }
    if p :| LiveSince(ops, name, e, p) {
      LiveOneMore(ops, op, name, e, p);
      LiveIsPast(ops, name, e, p);
    }
  }

  lemma LiveIsPast(ops: seq<Op>, name: string, e: Entry, p: nat)
    requires LiveSince(ops, name, e, p)
    ensures p < |ops|
  {
  }

  /** What a range query shows after any run of calls: the live entries in range, by score, and those of
      one score in the order in which they were last added. */
  lemma QueryInOrderOfAdding(ops: seq<Op>, name: string, min: Score, max: Score)
    ensures var r := Ranged(Members(RunIndexed(ops), name), min, max, None);
            && (forall e :: e in r <==>
                  TotalLe(min, e.score) && TotalLe(e.score, max) && exists p :: LiveSince(ops, name, e, p))
            && forall i, j, p, q |
                 0 <= i < j < |r| && LiveSince(ops, name, r[i], p) && LiveSince(ops, name, r[j], q) ::
                 TotalLt(r[i].score, r[j].score) || (r[i].score == r[j].score && p < q)
  {
    var l := Members(RunIndexed(ops), name);
    var r := Ranged(l, min, max, None);
    LiveInOrderOfAdding(ops, name);
    RangedInNumbers(l, min, max, 0);
    hide RunIndexed, LiveSince, TotalLt, Before, Ranged;
    forall i, j, p, q |
      0 <= i < j < |r| && LiveSince(ops, name, r[i], p) && LiveSince(ops, name, r[j], q)
      ensures TotalLt(r[i].score, r[j].score) || (r[i].score == r[j].score && p < q)
    {
      assert TotalLe(r[i].score, r[j].score);
      TotalLeIsTotalOrder(r[i].score, r[j].score, r[j].score);
      if r[i].score == r[j].score {
        TiesInOrder(l, min, max, i, j);
      }
    }
  }

  /** Two entries of one score come out of a query in the order of the list. */
  lemma TiesInOrder(l: seq<Entry>, min: Score, max: Score, i: int, j: int)
    requires var r := Ranged(l, min, max, None);
             0 <= i < j < |r| && r[i].score == r[j].score
    ensures var r := Ranged(l, min, max, None);
            Before(l, r[i], r[j])
  {
    var r, sorted := Ranged(l, min, max, None), StableSort(l);
    var x, y, s := r[i], r[j], r[i].score;
    assert r == Filter(Between(min, max), sorted);
    assert Before(r, x, y);
    FilterBefore(Between(min, max), sorted, x, y);
    FilterBefore(Exactly(s), sorted, x, y);
    StableSortIsTheStableSort(sorted, l);
    assert Filter(Exactly(s), sorted) == Filter(Exactly(s), l);
    FilterBefore(Exactly(s), l, x, y);
  }
}
