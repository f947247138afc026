/** The plain sorted set of go/memory.go:145-226, a map from member to score that every query filters
    and sorts, and the proof that the indexed store refines it. */
module GoSortedSet {
  import opened Wrappers
  import opened Scores
  import opened RecencyList
  import Sorting

  type Table = map<Member, Score>

  /** The slice expression panics on a negative limit. */
  datatype RangeResult = Entries(entries: seq<Entry>) | Panicked

  function TableOf(tables: map<string, Table>, name: string): Table {
    if name in tables then tables[name] else map[]
  }

  function Chosen(t: Table, min: Score, max: Score): set<Member> {
    set m | m in t && IeeeBetween(t[m], min, max)
  }

  function GoAfter(tables: map<string, Table>, op: Op): map<string, Table> {
    match op
    case Add(name, m, s) => tables[name := TableOf(tables, name)[m := s]]
    case Remove(name, m) => if name in tables then tables[name := tables[name] - {m}] else tables
    case RemoveRange(name, min, max) =>
      if name in tables then tables[name := tables[name] - Chosen(tables[name], min, max)] else tables
  }

  /** What sort.Slice leaves when its less function compares scores: nothing sorts before an earlier
      entry; ties come in any order. */
  ghost predicate SliceSorted(xs: seq<Entry>) {
    forall i, j | 0 <= i < j < |xs| :: !IeeeLt(xs[j].score, xs[i].score)
  }

  /** All the entries of t in the IEEE range, once each, as sort.Slice may leave them. */
  ghost predicate FullRange(t: Table, min: Score, max: Score, full: seq<Entry>) {
    && SliceSorted(full) && Distinct(full)
    && forall e :: e in full <==> e.member in t && t[e.member] == e.score && IeeeBetween(e.score, min, max)
  }

  function Cut(full: seq<Entry>, limit: Option<int>): RangeResult {
    if limit.None? || |full| <= limit.value then Entries(full)
    else if limit.value < 0 then Panicked
    else Entries(full[..limit.value])
  }

  method SortSlice(xs: seq<Entry>) returns (r: seq<Entry>)
    ensures SliceSorted(r) && multiset(r) == multiset(xs)
  {
    SortIsSortedPermutation(xs);
    r := StableSort(xs);
    forall i, j | 0 <= i < j < |r| ensures !IeeeLt(r[j].score, r[i].score) {
      assert TotalLe(r[i].score, r[j].score);
    }
  }

  class MemorySortedSet {
    var sets: map<string, Table>

    constructor ()
      ensures sets == map[]
    {
      sets := map[];
    }

    method Add(name: string, member: Member, score: Score)
      modifies this
      ensures sets == GoAfter(old(sets), RecencyList.Add(name, member, score))
    {
      if name !in sets {
        sets := sets[name := map[]];
      }
      sets := sets[name := sets[name][member := score]];
    }

    method Remove(name: string, member: Member)
      modifies this
      ensures sets == GoAfter(old(sets), RecencyList.Remove(name, member))
    {
      if name in sets {
        sets := sets[name := sets[name] - {member}];
      }
    }

    method RangeByScore(name: string, min: Score, max: Score, limit: Option<int>)
      returns (r: RangeResult, full: seq<Entry>)
      ensures FullRange(TableOf(sets, name), min, max, full)
      ensures r == Cut(full, limit)
    {
      var result: seq<Entry> := [];
      var t := TableOf(sets, name);
      var todo := t.Keys;
      while todo != {}
        invariant todo <= t.Keys && Distinct(result)
        invariant forall e :: e in result <==> e.member in t.Keys - todo && t[e.member] == e.score && IeeeBetween(e.score, min, max)
        decreases todo
      {
        var m :| m in todo;
        todo := todo - {m};
        if IeeeBetween(t[m], min, max) {
          assert forall i | 0 <= i < |result| :: result[i] in result;
          result := result + [Entry(m, t[m])];
        }
      }
      full := SortSlice(result);
      PermutationKeepsEntries(result, full);
      if limit.Some? && |full| > limit.value {
        if limit.value < 0 {
          return Panicked, full;
        }
        return Entries(full[..limit.value]), full;
      }
      return Entries(full), full;
    }

    method Count(name: string) returns (n: nat)
      ensures n == |TableOf(sets, name)|
    {
      n := |TableOf(sets, name)|;
    }

    method Score(name: string, member: Member) returns (r: Option<Score>)
      ensures r == if member in TableOf(sets, name) then Some(TableOf(sets, name)[member]) else None
    {
      r := None;
      if name in sets {
        if member in sets[name] {
          r := Some(sets[name][member]);
        }
      }
    }

    /** The loop that deletes while it ranges over the map, in any order. */
    static method DeleteChosen(t: Table, min: Score, max: Score) returns (left: Table, removed: nat)
      ensures left == t - Chosen(t, min, max) && removed == |Chosen(t, min, max)|
    {
      hide IeeeBetween;
      var todo := t.Keys;
      ghost var gone: set<Member> := {};
      left, removed := t, 0;
      while todo != {}
        invariant todo <= t.Keys && forall m :: m in gone <==> m in t.Keys - todo && IeeeBetween(t[m], min, max)
        invariant left == t - gone && removed == |gone|
        decreases todo
      {
        var m :| m in todo;
        todo := todo - {m};
        if IeeeBetween(t[m], min, max) {
          assert t - (gone + {m}) == t - gone - {m};
          left := left - {m};
          gone := gone + {m};
          removed := removed + 1;
        }
      }
      assert gone == Chosen(t, min, max);
    }

    method RemoveRange(name: string, min: Score, max: Score) returns (removed: nat)
      modifies this
      ensures sets == GoAfter(old(sets), RecencyList.RemoveRange(name, min, max))
      ensures removed == |Chosen(TableOf(old(sets), name), min, max)|
    {
      removed := 0;
      if name in sets {
        var left, count := DeleteChosen(sets[name], min, max);
        sets := sets[name := left];
        removed := count;
      } else {
        assert Chosen(map[], min, max) == {};
      }
    }
  }

  lemma PermutationKeepsEntries(xs: seq<Entry>, ys: seq<Entry>)
    requires multiset(xs) == multiset(ys)
    ensures |xs| == |ys| && forall e :: e in xs <==> e in ys
    ensures Distinct(xs) ==> Distinct(ys)
  {
    assert |multiset(xs)| == |multiset(ys)|;
    forall e ensures e in xs <==> e in ys {
      assert e in multiset(xs) <==> e in multiset(ys);
    }
    if Distinct(xs) {
      PermutationIsDistinct(xs, ys);
    }
  }

  // ---------- Refinement ----------

  /** The table holds the members of the list with their scores. */
  ghost predicate Holds(t: Table, l: seq<Entry>) {
    Distinct(l) && t == ScoresOf(l)
  }

  ghost predicate Simulates(sets: Sets, tables: map<string, Table>) {
    && sets.Keys == tables.Keys
    && forall name | name in sets :: Holds(tables[name], sets[name])
  }

  lemma SizeWithout(t: Table, gone: set<Member>)
    requires gone <= t.Keys
    ensures |t - gone| == |t| - |gone|
  {
    var left := t - gone;
    assert t.Keys == left.Keys + gone && left.Keys !! gone;
    assert |t.Keys| == |left.Keys| + |gone|;
  }

  lemma ChosenIsRangeRemoved(t: Table, l: seq<Entry>, min: Score, max: Score)
    requires Holds(t, l)
    ensures Holds(t - Chosen(t, min, max), RangeRemoved(l, min, max))
    ensures |Chosen(t, min, max)| == |l| - |RangeRemoved(l, min, max)|
  {
    hide IeeeBetween, ScoresOf, Filter;
    ScoresOfFilter(Outside(min, max), l);
    ScoresOfMembers(l);
    ScoresOfMembers(RangeRemoved(l, min, max));
    assert t - Chosen(t, min, max) == ScoresOf(RangeRemoved(l, min, max));
    SizeWithout(t, Chosen(t, min, max));
  }

  lemma RemovedHolds(t: Table, l: seq<Entry>, m: Member)
    requires Holds(t, l)
    ensures Holds(t - {m}, Removed(l, m))
  {
    hide ScoresOf, Filter;
    ScoresOfFilter(Not(m), l);
    assert t - {m} == ScoresOf(Removed(l, m));
  }

  /** Every operation keeps the two stores in step, whatever the scores. */
  lemma StepSimulates(sets: Sets, tables: map<string, Table>, op: Op)
    requires Simulates(sets, tables)
    ensures Simulates(After(sets, op), GoAfter(tables, op))
  {
    var l := Members(sets, op.name);
    EmptyHolds();
    match op {
      case Add(_, m, s) => ScoresOfAdded(l, m, s);
      case Remove(_, m) => RemovedHolds(TableOf(tables, op.name), l, m);
      case RemoveRange(_, min, max) => ChosenIsRangeRemoved(TableOf(tables, op.name), l, min, max);
    }
    hide ScoresOf, Removed, Added, RangeRemoved, Chosen, Distinct;
    assert Holds(TableOf(tables, op.name), l);
    assert Holds(TableOf(GoAfter(tables, op), op.name), Members(After(sets, op), op.name));
  }

  function RunPlain(ops: seq<Op>): map<string, Table> {
    if ops == [] then map[] else GoAfter(RunPlain(ops[..|ops| - 1]), ops[|ops| - 1])
  }

  /** After any run of operations, whatever the scores, the indexed store and the plain store agree
      on every member, score and count, and a range removal removes equally many from both. */
  lemma {:induction false} RunsAgree(ops: seq<Op>)
    ensures Simulates(RunIndexed(ops), RunPlain(ops))
    ensures forall name :: |TableOf(RunPlain(ops), name)| == |Members(RunIndexed(ops), name)|
    ensures forall name, m, s ::
              Entry(m, s) in Members(RunIndexed(ops), name) <==>
              m in TableOf(RunPlain(ops), name) && TableOf(RunPlain(ops), name)[m] == s
    ensures forall name, min, max ::
              |Chosen(TableOf(RunPlain(ops), name), min, max)|
              == |Members(RunIndexed(ops), name)| - |RangeRemoved(Members(RunIndexed(ops), name), min, max)|
  {
    if ops != [] {
      RunsAgree(ops[..|ops| - 1]);
      StepSimulates(RunIndexed(ops[..|ops| - 1]), RunPlain(ops[..|ops| - 1]), ops[|ops| - 1]);
    }
    var sets, tables := RunIndexed(ops), RunPlain(ops);
    hide RunIndexed, RunPlain, ScoresOf, RangeRemoved, Chosen;
    forall name
      ensures Holds(TableOf(tables, name), Members(sets, name))
      ensures |TableOf(tables, name)| == |Members(sets, name)|
    {
      EmptyHolds();
      ScoresOfMembers(Members(sets, name));
    }
    forall name, m, s
      ensures Entry(m, s) in Members(sets, name) <==> m in TableOf(tables, name) && TableOf(tables, name)[m] == s
    {
      ScoresOfMembers(Members(sets, name));
    }
    forall name, min, max
      ensures |Chosen(TableOf(tables, name), min, max)| == |Members(sets, name)| - |RangeRemoved(Members(sets, name), min, max)|
    {
      ChosenIsRangeRemoved(TableOf(tables, name), Members(sets, name), min, max);
    }
  }

  lemma EmptyHolds()
    ensures Holds(map[], [])
  {
  }

  // ---------- Range queries ----------

  /** A score on which the two orders agree. */
  predicate Ordinary(s: Score) {
    !s.NaN? && s != NegZero
  }

  ghost predicate AllOrdinary(l: seq<Entry>) {
    forall i | 0 <= i < |l| :: Ordinary(l[i].score)
  }

  function ScoreSeq(xs: seq<Entry>): seq<Score> {
    seq(|xs|, i requires 0 <= i < |xs| => xs[i].score)
  }

  lemma TotalLeIsOrder()
    ensures Sorting.TotalOrder(TotalLe)
  {
    forall a, b, c
      ensures TotalLe(a, b) || TotalLe(b, a)
      ensures TotalLe(a, b) && TotalLe(b, a) ==> a == b
      ensures TotalLe(a, b) && TotalLe(b, c) ==> TotalLe(a, c)
    {
      TotalLeIsTotalOrder(a, b, c);
    }
  }

  lemma WithoutIndex(ys: seq<Entry>, i: int) returns (rest: seq<Entry>)
    requires 0 <= i < |ys|
    ensures multiset(rest) == multiset(ys) - multiset{ys[i]}
    ensures multiset(ScoreSeq(ys)) == multiset(ScoreSeq(rest)) + multiset{ys[i].score}
  {
    rest := ys[..i] + ys[i + 1..];
    assert ys == ys[..i] + [ys[i]] + ys[i + 1..];
    assert ScoreSeq(ys) == ScoreSeq(ys[..i]) + [ys[i].score] + ScoreSeq(ys[i + 1..]);
    assert ScoreSeq(rest) == ScoreSeq(ys[..i]) + ScoreSeq(ys[i + 1..]);
  }

  lemma {:induction false} ScoresOfPermutation(xs: seq<Entry>, ys: seq<Entry>)
    requires multiset(xs) == multiset(ys)
    ensures multiset(ScoreSeq(xs)) == multiset(ScoreSeq(ys))
    decreases |xs|
  {
    PermutationKeepsEntries(xs, ys);
    if xs == [] {
      assert ScoreSeq(xs) == ScoreSeq(ys);
    } else {
      hide ScoreSeq;
      assert xs[0] in ys;
      var i :| 0 <= i < |ys| && ys[i] == xs[0];
      var xs' := WithoutIndex(xs, 0);
      var ys' := WithoutIndex(ys, i);
      assert |multiset(xs')| == |xs| - 1;
      ScoresOfPermutation(xs', ys');
    }
  }

  lemma {:induction false} SameEntriesSameMultiset(xs: seq<Entry>, ys: seq<Entry>)
    requires Distinct(xs) && Distinct(ys) && forall e :: e in xs <==> e in ys
    ensures multiset(xs) == multiset(ys)
  {
    forall e ensures multiset(xs)[e] == multiset(ys)[e] {
      OnceInMultiset(xs, e);
      OnceInMultiset(ys, e);
      assert e in multiset(xs) <==> e in xs;
      assert e in multiset(ys) <==> e in ys;
    }
  }

  /** The entries the index returns without a limit. */
  function Indexed(l: seq<Entry>, min: Score, max: Score): seq<Entry> {
    Ranged(l, min, max, None)
  }

  lemma IndexedEntries(l: seq<Entry>, min: Score, max: Score)
    requires Distinct(l)
    ensures Sorted(Indexed(l, min, max)) && Distinct(Indexed(l, min, max))
    ensures forall e :: e in Indexed(l, min, max) <==> e in l && TotalBetween(e.score, min, max)
  {
    hide StableSort, Filter, TotalBetween, TotalLt;
    SortIsSortedPermutation(l);
    PermutationIsDistinct(l, StableSort(l));
    FilterDistinct(Between(min, max), StableSort(l));
    FilterMembers(Between(min, max), StableSort(l));
    FilterSorted(Between(min, max), StableSort(l));
  }

  /** When the two stores select the same members: a range that starts at positive zero must not meet
      a negative zero in the set, nor a range that ends at negative zero a positive one. */
  lemma SelectionsAgree(t: Table, l: seq<Entry>, min: Score, max: Score, full: seq<Entry>)
    requires Holds(t, l) && FullRange(t, min, max, full)
    requires !min.NaN? && !max.NaN? && TotalLe(min, max)
    ensures (forall e :: e in full <==> e in Indexed(l, min, max)) <==>
            && (min == Num(0.0) ==> forall m :: Entry(m, NegZero) !in l)
            && (max == NegZero ==> forall m :: Entry(m, Num(0.0)) !in l)
  {
    IndexedEntries(l, min, max);
    ScoresOfMembers(l);
    hide Indexed, ScoresOf;
    forall e
      ensures e in full <==> e in l && IeeeBetween(e.score, min, max)
      ensures e in l ==>
                (IeeeBetween(e.score, min, max) <==>
                 || TotalBetween(e.score, min, max)
                 || (min == Num(0.0) && e.score == NegZero)
                 || (max == NegZero && e.score == Num(0.0)))
    {
      assert Entry(e.member, e.score) in l <==> e.member in t && t[e.member] == e.score;
      if !e.score.NaN? {
        OrdersDifferOnZeros(min, e.score);
        OrdersDifferOnZeros(e.score, max);
      }
    }
    forall m | min == Num(0.0) ensures Entry(m, NegZero) !in Indexed(l, min, max) { }
    forall m | max == NegZero ensures Entry(m, Num(0.0)) !in Indexed(l, min, max) { }
  }

  lemma SliceSortedIsSorted(l: seq<Entry>, full: seq<Entry>)
    requires AllOrdinary(l) && SliceSorted(full) && forall e | e in full :: e in l
    ensures Sorted(full)
  {
    forall i, j | 0 <= i < j < |full| ensures TotalLe(full[i].score, full[j].score) {
      assert full[i] in l && full[j] in l;
      OrdersDifferOnZeros(full[i].score, full[j].score);
      OrdersDifferOnZeros(full[j].score, full[i].score);
      TotalLeIsTotalOrder(full[i].score, full[j].score, full[j].score);
    }
  }

  /** On ordinary scores both stores select the same members, and any order sort.Slice leaves them in
      shows the same scores as the index: only ties can come in another order. */
  lemma RangesAgree(t: Table, l: seq<Entry>, min: Score, max: Score, full: seq<Entry>)
    requires Holds(t, l) && AllOrdinary(l) && Ordinary(min) && Ordinary(max) && TotalLe(min, max)
    requires FullRange(t, min, max, full)
    ensures multiset(full) == multiset(Indexed(l, min, max))
    ensures ScoreSeq(full) == ScoreSeq(Indexed(l, min, max))
  {
    var indexed := Indexed(l, min, max);
    IndexedEntries(l, min, max);
    SelectionsAgree(t, l, min, max, full);
    hide TotalLt, IeeeBetween, TotalBetween, Indexed, ScoresOf;
    SameEntriesSameMultiset(full, indexed);
    ScoresOfPermutation(full, indexed);
    SliceSortedIsSorted(l, full);
    TotalLeIsOrder();
    Sorting.SortedIsUnique(TotalLe, ScoreSeq(full), ScoreSeq(indexed));
  }

  /** With a limit the two stores return the same scores, except that a limit of zero is honoured by
      the plain store only. */
  lemma LimitedRangesAgree(t: Table, l: seq<Entry>, min: Score, max: Score, full: seq<Entry>, limit: Option<nat>)
    requires Holds(t, l) && AllOrdinary(l) && Ordinary(min) && Ordinary(max) && TotalLe(min, max)
    requires FullRange(t, min, max, full)
    ensures Cut(full, limit).Entries?
    ensures ScoreSeq(Cut(full, limit).entries) == ScoreSeq(Ranged(l, min, max, limit)) <==> limit != Some(0) || full == []
  {
    RangesAgree(t, l, min, max, full);
    var indexed, plain, some := Indexed(l, min, max), Cut(full, limit).entries, Ranged(l, min, max, limit);
    hide Filter, StableSort, Distinct, FullRange;
    assert |full| == |ScoreSeq(full)| == |indexed|;
    assert some == Limited(indexed, limit);
    assert limit == Some(0) && full != [] ==> |ScoreSeq(plain)| == 0 && |ScoreSeq(some)| == 1;
    if limit != Some(0) || full == [] {
      assert |plain| == |some|;
      forall i | 0 <= i < |plain| ensures plain[i].score == some[i].score {
        assert ScoreSeq(full)[i] == ScoreSeq(indexed)[i];
      }
    }
  }

  // ---------- Range queries after whole runs ----------

  predicate AddsOrdinary(ops: seq<Op>) {
    forall i | 0 <= i < |ops| && ops[i].Add? :: Ordinary(ops[i].score)
  }

  lemma AfterStaysOrdinary(sets: Sets, op: Op, name: string)
    requires AllOrdinary(Members(sets, name)) && (op.Add? ==> Ordinary(op.score))
    ensures AllOrdinary(Members(After(sets, op), name))
  {
    if name == op.name {
      var l := Members(sets, name);
      var kept := match op
        case Add(_, m, _) => Not(m)
        case Remove(_, m) => Not(m)
        case RemoveRange(_, min, max) => Outside(min, max);
      FilterMembers(kept, l);
      var f := Filter(kept, l);
      hide Filter, Keeps;
      forall i | 0 <= i < |f| ensures Ordinary(f[i].score) {
        assert f[i] in l;
      }
    }
  }

  lemma {:induction false} RunsStayOrdinary(ops: seq<Op>, name: string)
    requires AddsOrdinary(ops)
    ensures AllOrdinary(Members(RunIndexed(ops), name))
  {
    if ops != [] {
      RunsStayOrdinary(ops[..|ops| - 1], name);
      hide After, AllOrdinary, Ordinary;
      AfterStaysOrdinary(RunIndexed(ops[..|ops| - 1]), ops[|ops| - 1], name);
    }
  }

  /** After any run whose adds have ordinary scores, every range query with ordinary bounds selects the
      same members from both stores and shows, position by position, the same scores; and so it does
      under a limit, unless the limit is zero and something matches. */
  lemma RunQueriesAgree(ops: seq<Op>, name: string, min: Score, max: Score, full: seq<Entry>, limit: Option<nat>)
    requires AddsOrdinary(ops) && Ordinary(min) && Ordinary(max) && TotalLe(min, max)
    requires FullRange(TableOf(RunPlain(ops), name), min, max, full)
    ensures var l := Members(RunIndexed(ops), name);
            && multiset(full) == multiset(Ranged(l, min, max, None))
            && ScoreSeq(full) == ScoreSeq(Ranged(l, min, max, None))
            && Cut(full, limit).Entries?
            && (ScoreSeq(Cut(full, limit).entries) == ScoreSeq(Ranged(l, min, max, limit)) <==> limit != Some(0) || full == [])
  {
    RunsAgree(ops);
    RunsStayOrdinary(ops, name);
    EmptyHolds();
    var t, l := TableOf(RunPlain(ops), name), Members(RunIndexed(ops), name);
    assert Holds(t, l);
    RangesAgree(t, l, min, max, full);
    LimitedRangesAgree(t, l, min, max, full, limit);
    hide Ranged, RunPlain, RunIndexed, FullRange, ScoreSeq, Cut, AllOrdinary, Holds;
  }
}
