/** What the in-memory sorted set of rust/src/sorted_set.rs promises, said on plain sequences: a set is
    the list of its live members in the order they were last added, and a range query reads the
    stable sort of that list by score. */
module RecencyList {
  import opened Wrappers
  import opened Scores

  type Member = string

  datatype Entry = Entry(member: Member, score: Score)

  /** The tests by which entries are kept. */
  datatype Test = Not(m: Member) | Outside(min: Score, max: Score) | Between(min: Score, max: Score) | Exactly(s: Score)

  predicate Keeps(k: Test, e: Entry) {
    match k
    case Not(m) => e.member != m
    case Outside(min, max) => !IeeeBetween(e.score, min, max)
    case Between(min, max) => TotalBetween(e.score, min, max)
    case Exactly(s) => e.score == s
  }

  function Filter(k: Test, xs: seq<Entry>): seq<Entry> {
    if xs == [] then []
    else if Keeps(k, xs[0]) then [xs[0]] + Filter(k, xs[1..])
    else Filter(k, xs[1..])
  }

  // ---------- The operations ----------

  /** Adding a member, new or not, makes it the most recent. */
  function Added(l: seq<Entry>, m: Member, s: Score): seq<Entry> {
    Removed(l, m) + [Entry(m, s)]
  }

  function Removed(l: seq<Entry>, m: Member): seq<Entry> {
    Filter(Not(m), l)
  }

  function RangeRemoved(l: seq<Entry>, min: Score, max: Score): seq<Entry> {
    Filter(Outside(min, max), l)
  }

  /** e goes behind every entry whose score is not greater. */
  function StableInsert(xs: seq<Entry>, e: Entry): seq<Entry> {
    if xs == [] || TotalLt(e.score, xs[0].score) then [e] + xs
    else [xs[0]] + StableInsert(xs[1..], e)
  }

  function StableSort(l: seq<Entry>): seq<Entry> {
    if l == [] then [] else StableInsert(StableSort(l[..|l| - 1]), l[|l| - 1])
  }

  /** A limit cuts the result, but a limit of zero cuts no sooner than one. */
  function Limited(xs: seq<Entry>, limit: Option<nat>): seq<Entry> {
    match limit
    case None => xs
    case Some(n) =>
      var most := if n == 0 then 1 else n;
      if |xs| <= most then xs else xs[..most]
  }

  function Ranged(l: seq<Entry>, min: Score, max: Score, limit: Option<nat>): seq<Entry> {
    Limited(Filter(Between(min, max), StableSort(l)), limit)
  }

  /** The score of every member. */
  function ScoresOf(l: seq<Entry>): map<Member, Score> {
    if l == [] then map[] else ScoresOf(l[..|l| - 1])[l[|l| - 1].member := l[|l| - 1].score]
  }

  /** Every named set, and the calls that change one. */
  type Sets = map<string, seq<Entry>>

  datatype Op =
    | Add(name: string, member: Member, score: Score)
    | Remove(name: string, member: Member)
    | RemoveRange(name: string, min: Score, max: Score)

  function Members(sets: Sets, name: string): seq<Entry> {
    if name in sets then sets[name] else []
  }

  function After(sets: Sets, op: Op): Sets {
    match op
    case Add(name, m, s) => sets[name := Added(Members(sets, name), m, s)]
    case Remove(name, m) => if name in sets then sets[name := Removed(sets[name], m)] else sets
    case RemoveRange(name, min, max) => if name in sets then sets[name := RangeRemoved(sets[name], min, max)] else sets
  }

  /** Every named set after a run of calls. */
  function RunIndexed(ops: seq<Op>): Sets {
    if ops == [] then map[] else After(RunIndexed(ops[..|ops| - 1]), ops[|ops| - 1])
  }

  predicate Distinct(l: seq<Entry>) {
    forall i, j | 0 <= i < j < |l| :: l[i].member != l[j].member
  }

  predicate Sorted(xs: seq<Entry>) {
    forall i, j | 0 <= i < j < |xs| :: TotalLe(xs[i].score, xs[j].score)
  }

  // ---------- Filters ----------

  lemma FilterHead(k: Test, x: Entry, rest: seq<Entry>)
    ensures Filter(k, [x] + rest) == if Keeps(k, x) then [x] + Filter(k, rest) else Filter(k, rest)
  {
    assert ([x] + rest)[1..] == rest;
  }

  lemma Regroup<T>(x: T, a: seq<T>, b: seq<T>)
    ensures ([x] + a) + b == [x] + (a + b)
  {
  }

  lemma {:induction false} FilterAppend(k: Test, xs: seq<Entry>, ys: seq<Entry>)
    ensures Filter(k, xs + ys) == Filter(k, xs) + Filter(k, ys)
  {
    if xs == [] {
      assert xs + ys == ys;
    } else {
      hide Keeps, Filter;
      var x, rest := xs[0], xs[1..];
      FilterAppend(k, rest, ys);
      FilterHead(k, x, rest);
      FilterHead(k, x, rest + ys);
      Regroup(x, rest, ys);
      Regroup(x, Filter(k, rest), Filter(k, ys));
      assert xs == [x] + rest;
    }
  }

  lemma FilterLast(k: Test, xs: seq<Entry>, e: Entry)
    ensures Filter(k, xs + [e]) == if Keeps(k, e) then Filter(k, xs) + [e] else Filter(k, xs)
  {
    hide Keeps;
    FilterAppend(k, xs, [e]);
    assert [e][1..] == [] && Filter(k, xs) + [] == Filter(k, xs);
  }

  lemma {:induction false} FilterMembers(k: Test, xs: seq<Entry>)
    ensures forall e :: e in Filter(k, xs) <==> e in xs && Keeps(k, e)
    ensures |Filter(k, xs)| <= |xs|
  {
    hide Keeps;
    if xs != [] {
      FilterMembers(k, xs[1..]);
      assert xs == [xs[0]] + xs[1..];
    }
  }

  lemma {:induction false} FilterAll(k: Test, xs: seq<Entry>)
    requires forall i | 0 <= i < |xs| :: Keeps(k, xs[i])
    ensures Filter(k, xs) == xs
  {
    hide Keeps;
    if xs != [] {
      FilterAll(k, xs[1..]);
    }
  }

  lemma {:induction false} FilterNone(k: Test, xs: seq<Entry>)
    requires forall i | 0 <= i < |xs| :: !Keeps(k, xs[i])
    ensures Filter(k, xs) == []
  {
    hide Keeps;
    if xs != [] {
      FilterNone(k, xs[1..]);
    }
  }

  lemma {:induction false} FilterDistinct(k: Test, l: seq<Entry>)
    requires Distinct(l)
    ensures Distinct(Filter(k, l))
  {
    hide Keeps, TotalLt;
    if l != [] {
      FilterDistinct(k, l[1..]);
      FilterMembers(k, l[1..]);
      assert forall e | e in l[1..] :: e.member != l[0].member;
      assert forall e | e in Filter(k, l[1..]) :: e in l[1..];
    }
  }

  lemma {:induction false} FilterSorted(k: Test, xs: seq<Entry>)
    requires Sorted(xs)
    ensures Sorted(Filter(k, xs))
  {
    hide Keeps, TotalLt;
    if xs != [] {
      FilterSorted(k, xs[1..]);
      FilterMembers(k, xs[1..]);
      assert forall e | e in xs[1..] :: TotalLe(xs[0].score, e.score);
      var f := Filter(k, xs[1..]);
      assert forall i | 0 <= i < |f| :: f[i] in f;
    }
  }

  // ---------- The stable sort ----------

  lemma {:induction false} InsertMembers(xs: seq<Entry>, e: Entry)
    ensures multiset(StableInsert(xs, e)) == multiset(xs) + multiset{e}
    ensures forall x :: x in StableInsert(xs, e) <==> x in xs || x == e
  {
    if xs != [] && !TotalLt(e.score, xs[0].score) {
      InsertMembers(xs[1..], e);
      assert xs == [xs[0]] + xs[1..];
    }
  }

  lemma {:induction false} InsertSorted(xs: seq<Entry>, e: Entry)
    requires Sorted(xs)
    ensures Sorted(StableInsert(xs, e))
  {
    if xs != [] && !TotalLt(e.score, xs[0].score) {
      InsertSorted(xs[1..], e);
      InsertMembers(xs[1..], e);
      var r := StableInsert(xs[1..], e);
      assert forall i | 0 <= i < |r| :: r[i] in r;
      assert forall x | x in xs[1..] :: TotalLe(xs[0].score, x.score);
    }
  }

  lemma {:induction false} SortIsSortedPermutation(l: seq<Entry>)
    ensures Sorted(StableSort(l))
    ensures multiset(StableSort(l)) == multiset(l)
    ensures forall e :: e in StableSort(l) <==> e in l
  {
    if l != [] {
      var before, e := l[..|l| - 1], l[|l| - 1];
      SortIsSortedPermutation(before);
      InsertSorted(StableSort(before), e);
      InsertMembers(StableSort(before), e);
      assert l == before + [e];
    }
  }

  /** Inserting in front of sorted entries that are all greater. */
  lemma InsertFirst(xs: seq<Entry>, e: Entry)
    requires forall i | 0 <= i < |xs| :: TotalLt(e.score, xs[i].score)
    ensures StableInsert(xs, e) == [e] + xs
  {
  }

  lemma {:induction false} InsertLast(xs: seq<Entry>, e: Entry)
    requires forall i | 0 <= i < |xs| :: TotalLe(xs[i].score, e.score)
    ensures StableInsert(xs, e) == xs + [e]
  {
    if xs != [] {
      InsertLast(xs[1..], e);
    }
  }

  lemma InsertBehind(x: Entry, rest: seq<Entry>, e: Entry)
    requires !TotalLt(e.score, x.score)
    ensures StableInsert([x] + rest, e) == [x] + StableInsert(rest, e)
  {
    assert ([x] + rest)[1..] == rest;
  }

  lemma FilterInsertFirst(k: Test, xs: seq<Entry>, e: Entry)
    requires Sorted(xs) && xs != [] && TotalLt(e.score, xs[0].score)
    ensures Filter(k, StableInsert(xs, e)) == if Keeps(k, e) then StableInsert(Filter(k, xs), e) else Filter(k, xs)
  {
    var f := Filter(k, xs);
    FilterMembers(k, xs);
    forall i | 0 <= i < |f| ensures TotalLt(e.score, f[i].score) {
      assert f[i] in xs;
      TotalLeIsTotalOrder(xs[0].score, f[i].score, e.score);
    }
    InsertFirst(f, e);
    FilterHead(k, e, xs);
  }

  lemma {:induction false} FilterInsert(k: Test, xs: seq<Entry>, e: Entry)
    requires Sorted(xs)
    ensures Filter(k, StableInsert(xs, e)) == if Keeps(k, e) then StableInsert(Filter(k, xs), e) else Filter(k, xs)
  {
    hide Keeps, TotalLt;
    if xs == [] {
      FilterHead(k, e, []);
    } else if TotalLt(e.score, xs[0].score) {
      FilterInsertFirst(k, xs, e);
    } else {
      var x, rest := xs[0], xs[1..];
      assert xs == [x] + rest;
      FilterInsert(k, rest, e);
      InsertBehind(x, rest, e);
      FilterHead(k, x, rest);
      FilterHead(k, x, StableInsert(rest, e));
      if Keeps(k, x) {
        InsertBehind(x, Filter(k, rest), e);
      }
    }
  }

  lemma SortLast(l: seq<Entry>, e: Entry)
    ensures StableSort(l + [e]) == StableInsert(StableSort(l), e)
  {
    assert (l + [e])[..|l|] == l;
  }

  /** Filtering and sorting commute. */
  lemma {:induction false} FilterSort(k: Test, l: seq<Entry>)
    ensures Filter(k, StableSort(l)) == StableSort(Filter(k, l))
  {
    hide Keeps, TotalLt;
    if l != [] {
      var before, e := l[..|l| - 1], l[|l| - 1];
      assert l == before + [e];
      hide Filter, StableInsert, StableSort;
      FilterSort(k, before);
      SortIsSortedPermutation(before);
      FilterInsert(k, StableSort(before), e);
      FilterLast(k, before, e);
      SortLast(before, e);
      SortLast(Filter(k, before), e);
    }
  }

  lemma {:induction false} SortOfTies(s: Score, l: seq<Entry>)
    requires forall i | 0 <= i < |l| :: l[i].score == s
    ensures StableSort(l) == l
  {
    if l != [] {
      SortOfTies(s, l[..|l| - 1]);
      InsertLast(l[..|l| - 1], l[|l| - 1]);
    }
  }

  /** r is sorted by score and every tie group is in the order of l. */
  ghost predicate IsStableSortOf(r: seq<Entry>, l: seq<Entry>) {
    Sorted(r) && forall s :: Filter(Exactly(s), r) == Filter(Exactly(s), l)
  }

  /** Two sorted sequences with the same ties start with the same entry. */
  lemma SameTiesSameHead(r: seq<Entry>, q: seq<Entry>)
    requires Sorted(r) && Sorted(q) && r != []
    requires forall s :: Filter(Exactly(s), r) == Filter(Exactly(s), q)
    ensures q != [] && q[0] == r[0]
  {
    hide TotalLt;
    var s := r[0].score;
    FilterMembers(Exactly(s), r);
    FilterMembers(Exactly(s), q);
    assert r[0] in Filter(Exactly(s), q);
    var t := q[0].score;
    FilterMembers(Exactly(t), r);
    FilterMembers(Exactly(t), q);
    assert q[0] in Filter(Exactly(t), r);
    TotalLeIsTotalOrder(s, t, t);
    assert Filter(Exactly(s), r)[0] == r[0] && Filter(Exactly(s), q)[0] == q[0];
  }

  lemma SameTiesInTails(r: seq<Entry>, q: seq<Entry>, s: Score)
    requires r != [] && q != [] && r[0] == q[0]
    requires Filter(Exactly(s), r) == Filter(Exactly(s), q)
    ensures Filter(Exactly(s), r[1..]) == Filter(Exactly(s), q[1..])
  {
    hide Keeps;
    if Keeps(Exactly(s), r[0]) {
      assert Filter(Exactly(s), r)[1..] == Filter(Exactly(s), r[1..]);
      assert Filter(Exactly(s), q)[1..] == Filter(Exactly(s), q[1..]);
    }
  }

  lemma {:induction false} SameTiesSameSequence(r: seq<Entry>, q: seq<Entry>)
    requires Sorted(r) && Sorted(q)
    requires forall s :: Filter(Exactly(s), r) == Filter(Exactly(s), q)
    ensures r == q
  {
    hide TotalLt;
    if r == [] {
      if q != [] {
        SameTiesSameHead(q, r);
      }
    } else {
      SameTiesSameHead(r, q);
      forall s ensures Filter(Exactly(s), r[1..]) == Filter(Exactly(s), q[1..]) {
        SameTiesInTails(r, q, s);
      }
      SameTiesSameSequence(r[1..], q[1..]);
      assert r == [r[0]] + r[1..] && q == [q[0]] + q[1..];
    }
  }

  /** StableSort is the stable sort: it is the one sequence sorted by score that keeps every tie
      group in the order of the list. */
  lemma StableSortIsTheStableSort(r: seq<Entry>, l: seq<Entry>)
    ensures r == StableSort(l) <==> IsStableSortOf(r, l)
  {
    SortIsSortedPermutation(l);
    hide Filter, StableSort, Sorted;
    forall s ensures Filter(Exactly(s), StableSort(l)) == Filter(Exactly(s), l) {
      FilterSort(Exactly(s), l);
      FilterMembers(Exactly(s), l);
      var ties := Filter(Exactly(s), l);
      assert forall i | 0 <= i < |ties| :: ties[i] in ties;
      SortOfTies(s, ties);
    }
    if IsStableSortOf(r, l) {
      forall s ensures Filter(Exactly(s), r) == Filter(Exactly(s), StableSort(l)) {
        assert Filter(Exactly(s), r) == Filter(Exactly(s), l);
      }
      SameTiesSameSequence(r, StableSort(l));
    }
  }

  lemma PermutationIsDistinct(l: seq<Entry>, r: seq<Entry>)
    requires Distinct(l) && multiset(r) == multiset(l)
    ensures Distinct(r)
  {
    forall i, j | 0 <= i < j < |r| ensures r[i].member != r[j].member {
      assert r[i] in multiset(l) && r[j] in multiset(l);
      if r[i] == r[j] {
        TwiceInMultiset(r, i, j);
        OnceInMultiset(l, r[i]);
      }
    }
  }

  lemma TwiceInMultiset(r: seq<Entry>, i: int, j: int)
    requires 0 <= i < j < |r| && r[i] == r[j]
    ensures multiset(r)[r[i]] >= 2
  {
    assert r == r[..j] + [r[j]] + r[j + 1..];
    assert r[i] in r[..j];
  }

  lemma {:induction false} OnceInMultiset(l: seq<Entry>, e: Entry)
    requires Distinct(l)
    ensures multiset(l)[e] <= 1
  {
    if l != [] {
      OnceInMultiset(l[1..], e);
      assert l == [l[0]] + l[1..];
      assert forall i | 0 <= i < |l[1..]| :: l[1..][i] == l[i + 1];
    }
  }

  // ---------- The scores of the members ----------

  lemma {:induction false} ScoresOfMembers(l: seq<Entry>)
    requires Distinct(l)
    ensures forall m, s :: Entry(m, s) in l <==> m in ScoresOf(l) && ScoresOf(l)[m] == s
    ensures |ScoresOf(l)| == |l|
  {
    if l != [] {
      var before, e := l[..|l| - 1], l[|l| - 1];
      ScoresOfMembers(before);
      assert l == before + [e];
      var s := if e.member in ScoresOf(before) then ScoresOf(before)[e.member] else e.score;
      assert Entry(e.member, s) !in before;
    }
  }

  lemma ScoresOfFilter(k: Test, l: seq<Entry>)
    requires Distinct(l)
    ensures Distinct(Filter(k, l))
    ensures ScoresOf(Filter(k, l)) == map m | m in ScoresOf(l) && Keeps(k, Entry(m, ScoresOf(l)[m])) :: ScoresOf(l)[m]
  {
    hide Keeps, TotalLt, Filter, ScoresOf, Distinct;
    FilterDistinct(k, l);
    FilterMembers(k, l);
    ScoresOfMembers(l);
    ScoresOfMembers(Filter(k, l));
    var a := ScoresOf(Filter(k, l));
    var b := map m | m in ScoresOf(l) && Keeps(k, Entry(m, ScoresOf(l)[m])) :: ScoresOf(l)[m];
    forall m ensures m in a <==> m in b {
      if m in a { assert Entry(m, a[m]) in Filter(k, l); }
      if m in b { assert Entry(m, b[m]) in l; }
    }
    forall m | m in a ensures a[m] == b[m] {
      assert Entry(m, a[m]) in Filter(k, l);
    }
  }

  lemma ScoresOfAdded(l: seq<Entry>, m: Member, s: Score)
    requires Distinct(l)
    ensures Distinct(Added(l, m, s))
    ensures ScoresOf(Added(l, m, s)) == ScoresOf(l)[m := s]
  {
    var r := Removed(l, m);
    ScoresOfFilter(Not(m), l);
    FilterMembers(Not(m), l);
    ScoresOfLast(r, Entry(m, s));
    hide Filter, Removed, ScoresOf;
    assert forall i | 0 <= i < |r| :: r[i] in r;
  }

  lemma ScoresOfLast(l: seq<Entry>, e: Entry)
    ensures ScoresOf(l + [e]) == ScoresOf(l)[e.member := e.score]
  {
    assert (l + [e])[..|l|] == l;
  }

  // ---------- Range queries after a range removal ----------

  /** Removing a range and then querying it: empty for every set exactly when neither bound is NaN,
      although the removal and the query compare differently. */
  lemma RemovedRangeIsEmpty(min: Score, max: Score)
    requires TotalLe(min, max)
    ensures (forall l, limit :: Ranged(RangeRemoved(l, min, max), min, max, limit) == []) <==> !min.NaN? && !max.NaN?
  {
    if !min.NaN? && !max.NaN? {
      forall l, limit ensures Ranged(RangeRemoved(l, min, max), min, max, limit) == [] {
        RangeIsCleared(l, min, max);
      }
    } else {
      var l := [Entry("m", min)];
      FilterAll(Outside(min, max), l);
      SortOfTies(min, l);
      FilterAll(Between(min, max), l);
      assert Ranged(RangeRemoved(l, min, max), min, max, None) == l;
    }
  }

  lemma RangeIsCleared(l: seq<Entry>, min: Score, max: Score)
    requires !min.NaN? && !max.NaN?
    ensures Filter(Between(min, max), StableSort(RangeRemoved(l, min, max))) == []
  {
    var left := RangeRemoved(l, min, max);
    SortIsSortedPermutation(left);
    FilterMembers(Outside(min, max), l);
    var sorted := StableSort(left);
    forall i | 0 <= i < |sorted| ensures !Keeps(Between(min, max), sorted[i]) {
      var s := sorted[i].score;
      assert sorted[i] in left;
      if !s.NaN? {
        OrdersDifferOnZeros(min, s);
        OrdersDifferOnZeros(s, max);
      }
    }
    FilterNone(Between(min, max), sorted);
  }
}
