/** The index of rust/src/sorted_set.rs: a BTreeMap from score to the members with that score, as the
    sequence of its buckets in key order, with the map operations the source uses. */
module ScoreIndex {
  import opened Wrappers
  import opened Scores
  import opened RecencyList

  datatype Bucket = Bucket(score: Score, members: seq<Member>)

  /** Keys strictly increase, as in any BTreeMap. */
  predicate Ordered(b: seq<Bucket>) {
    forall i, j | 0 <= i < j < |b| :: TotalLt(b[i].score, b[j].score)
  }

  predicate NoneEmpty(b: seq<Bucket>) {
    forall i | 0 <= i < |b| :: b[i].members != []
  }

  // ---------- The operations of the map ----------

  function Lookup(b: seq<Bucket>, s: Score): Option<seq<Member>> {
    if b == [] then None
    else if b[0].score == s then Some(b[0].members)
    else Lookup(b[1..], s)
  }

  function Insert(b: seq<Bucket>, s: Score, members: seq<Member>): seq<Bucket> {
    if b == [] || TotalLt(s, b[0].score) then [Bucket(s, members)] + b
    else if b[0].score == s then [Bucket(s, members)] + b[1..]
    else [b[0]] + Insert(b[1..], s, members)
  }

  function Delete(b: seq<Bucket>, s: Score): seq<Bucket> {
    if b == [] then []
    else if b[0].score == s then b[1..]
    else [b[0]] + Delete(b[1..], s)
  }

  /** range(min..=max). */
  function Range(b: seq<Bucket>, min: Score, max: Score): seq<Bucket> {
    if b == [] then []
    else if TotalBetween(b[0].score, min, max) then [b[0]] + Range(b[1..], min, max)
    else Range(b[1..], min, max)
  }

  /** Vec::retain(|m| m != member). */
  function Retain(members: seq<Member>, m: Member): seq<Member> {
    if members == [] then []
    else if members[0] == m then Retain(members[1..], m)
    else [members[0]] + Retain(members[1..], m)
  }

  // ---------- Reading the index as entries ----------

  function Tag(members: seq<Member>, s: Score): seq<Entry> {
    if members == [] then [] else [Entry(members[0], s)] + Tag(members[1..], s)
  }

  function Flatten(b: seq<Bucket>): seq<Entry> {
    if b == [] then [] else Tag(b[0].members, b[0].score) + Flatten(b[1..])
  }

  lemma {:induction false} TagEntries(members: seq<Member>, s: Score)
    ensures |Tag(members, s)| == |members|
    ensures forall i | 0 <= i < |members| :: Tag(members, s)[i] == Entry(members[i], s)
  {
    if members != [] {
      TagEntries(members[1..], s);
    }
  }

  lemma TagLast(members: seq<Member>, m: Member, s: Score)
    ensures Tag(members + [m], s) == Tag(members, s) + [Entry(m, s)]
  {
    TagEntries(members, s);
    TagEntries(members + [m], s);
  }

  lemma {:induction false} TagRetain(members: seq<Member>, m: Member, s: Score)
    ensures Tag(Retain(members, m), s) == Filter(Not(m), Tag(members, s))
    ensures forall x :: x in Retain(members, m) ==> x in members
  {
    if members != [] {
      TagRetain(members[1..], m, s);
      FilterHead(Not(m), Entry(members[0], s), Tag(members[1..], s));
      if members[0] != m {
        assert ([members[0]] + Retain(members[1..], m))[1..] == Retain(members[1..], m);
      }
    }
  }

  lemma FlattenHead(x: Bucket, rest: seq<Bucket>)
    ensures Flatten([x] + rest) == Tag(x.members, x.score) + Flatten(rest)
  {
    assert ([x] + rest)[1..] == rest;
  }

  /** An entry is in the index exactly if its member is in the bucket of its score. */
  lemma {:induction false} FlattenMembers(b: seq<Bucket>, e: Entry)
    requires Ordered(b)
    ensures e in Flatten(b) <==> Lookup(b, e.score).Some? && e.member in Lookup(b, e.score).value
    ensures Lookup(b, e.score).Some? <==> exists i :: 0 <= i < |b| && b[i].score == e.score
  {
    if b != [] {
      FlattenMembers(b[1..], e);
      TagEntries(b[0].members, b[0].score);
      assert forall i | 1 <= i < |b| :: b[i] == b[1..][i - 1];
      if b[0].score == e.score {
        assert forall i | 1 <= i < |b| :: TotalLt(b[0].score, b[i].score);
        if e.member in b[0].members {
          var i :| 0 <= i < |b[0].members| && b[0].members[i] == e.member;
          assert Tag(b[0].members, b[0].score)[i] == e;
        }
      }
    }
  }

  lemma {:induction false} FlattenAbove(b: seq<Bucket>, s: Score)
    requires Ordered(b) && (b != [] ==> TotalLt(s, b[0].score))
    ensures forall i | 0 <= i < |Flatten(b)| :: TotalLt(s, Flatten(b)[i].score)
  {
    if b != [] {
      TagEntries(b[0].members, b[0].score);
      if |b| > 1 {
        assert TotalLt(b[0].score, b[1].score);
      }
      FlattenAbove(b[1..], s);
    }
  }

  lemma {:induction false} InsertPast(xs: seq<Entry>, ys: seq<Entry>, e: Entry)
    requires forall i | 0 <= i < |xs| :: !TotalLt(e.score, xs[i].score)
    ensures StableInsert(xs + ys, e) == xs + StableInsert(ys, e)
  {
    hide TotalLt;
    if xs == [] {
      assert xs + ys == ys;
    } else {
      InsertPast(xs[1..], ys, e);
      InsertBehind(xs[0], xs[1..] + ys, e);
      assert xs + ys == [xs[0]] + (xs[1..] + ys);
      assert [xs[0]] + (xs[1..] + StableInsert(ys, e)) == xs + StableInsert(ys, e);
    }
  }

  function Found(b: seq<Bucket>, s: Score): seq<Member> {
    if Lookup(b, s).Some? then Lookup(b, s).value else []
  }

  lemma PushFirst(b: seq<Bucket>, m: Member, s: Score)
    requires Ordered(b) && (b != [] ==> TotalLt(s, b[0].score))
    ensures Flatten(Insert(b, s, Found(b, s) + [m])) == StableInsert(Flatten(b), Entry(m, s))
  {
    NotFoundBelow(b, s);
    FlattenAbove(b, s);
    assert Insert(b, s, [] + [m]) == [Bucket(s, [] + [m])] + b;
    InsertFirst(Flatten(b), Entry(m, s));
    hide TotalLt, Insert, StableInsert, Flatten;
    TagLast([], m, s);
    assert Tag([], s) == [];
    FlattenHead(Bucket(s, [] + [m]), b);
  }

  lemma HeadBelow(x: Bucket, rest: seq<Bucket>)
    requires Ordered([x] + rest)
    ensures Ordered(rest) && !TotalLt(x.score, x.score) && (rest != [] ==> TotalLt(x.score, rest[0].score))
  {
    var b := [x] + rest;
    assert !TotalLt(x.score, x.score);
    hide TotalLt;
    assert forall i | 0 <= i < |rest| :: rest[i] == b[i + 1];
    assert rest != [] ==> TotalLt(b[0].score, b[1].score);
    forall i, j | 0 <= i < j < |rest| ensures TotalLt(rest[i].score, rest[j].score) {
      assert TotalLt(b[i + 1].score, b[j + 1].score);
    }
  }

  lemma PushAtHead(x: Bucket, rest: seq<Bucket>, m: Member)
    requires Ordered([x] + rest)
    ensures var b := [x] + rest;
            Flatten(Insert(b, x.score, Found(b, x.score) + [m])) == StableInsert(Flatten(b), Entry(m, x.score))
  {
    var e, t, f := Entry(m, x.score), Tag(x.members, x.score), Flatten(rest);
    var b := [x] + rest;
    HeadBelow(x, rest);
    hide TotalLt, Ordered;
    assert b[1..] == rest;
    assert Insert(b, x.score, x.members + [m]) == [Bucket(x.score, x.members + [m])] + rest;
    FlattenAbove(rest, x.score);
    TagEntries(x.members, x.score);
    hide Insert, StableInsert, Flatten, Tag;
    InsertFirst(f, e);
    InsertPast(t, f, e);
    TagLast(x.members, m, x.score);
    FlattenHead(x, rest);
    FlattenHead(Bucket(x.score, x.members + [m]), rest);
    assert (t + [e]) + f == t + ([e] + f);
  }

  lemma PushBehind(x: Bucket, rest: seq<Bucket>, m: Member, s: Score)
    requires !TotalLt(s, x.score) && x.score != s
    requires Flatten(Insert(rest, s, Found(rest, s) + [m])) == StableInsert(Flatten(rest), Entry(m, s))
    ensures var b := [x] + rest;
            Flatten(Insert(b, s, Found(b, s) + [m])) == StableInsert(Flatten(b), Entry(m, s))
  {
    var b := [x] + rest;
    assert b[1..] == rest;
    assert Found(b, s) == Found(rest, s);
    assert Insert(b, s, Found(b, s) + [m]) == [x] + Insert(rest, s, Found(rest, s) + [m]);
    TagEntries(x.members, x.score);
    hide TotalLt, Insert, StableInsert, Flatten, Tag, Found;
    FlattenHead(x, rest);
    FlattenHead(x, Insert(rest, s, Found(rest, s) + [m]));
    InsertPast(Tag(x.members, x.score), Flatten(rest), Entry(m, s));
  }

  /** Pushing a member on the bucket of its score puts its entry where a stable sort would. */
  lemma {:induction false} PushIsStableInsert(b: seq<Bucket>, m: Member, s: Score)
    requires Ordered(b)
    ensures Flatten(Insert(b, s, Found(b, s) + [m])) == StableInsert(Flatten(b), Entry(m, s))
  {
    if b == [] || TotalLt(s, b[0].score) {
      PushFirst(b, m, s);
    } else {
      var x, rest := b[0], b[1..];
      assert b == [x] + rest;
      hide TotalLt, Insert, StableInsert, Flatten, Found;
      if x.score == s {
        PushAtHead(x, rest, m);
      } else {
        PushIsStableInsert(rest, m, s);
        PushBehind(x, rest, m, s);
      }
    }
  }

  lemma {:induction false} NotFoundBelow(b: seq<Bucket>, s: Score)
    requires Ordered(b) && (b != [] ==> TotalLt(s, b[0].score))
    ensures Lookup(b, s).None?
  {
    if |b| > 1 {
      assert TotalLt(b[0].score, b[1].score);
      NotFoundBelow(b[1..], s);
    }
  }

  lemma LtTransitive(a: Score, b: Score, c: Score)
    requires TotalLt(a, b) && TotalLt(b, c)
    ensures TotalLt(a, c)
  {
    TotalLeIsTotalOrder(a, b, c);
  }

  lemma ConsKeepsShape(x: Bucket, rest: seq<Bucket>)
    requires Ordered(rest) && NoneEmpty(rest) && x.members != []
    requires forall i | 0 <= i < |rest| :: TotalLt(x.score, rest[i].score)
    ensures Ordered([x] + rest) && NoneEmpty([x] + rest)
  {
    hide TotalLt;
  }

  lemma {:induction false} InsertKeepsShape(b: seq<Bucket>, s: Score, members: seq<Member>)
    requires Ordered(b) && NoneEmpty(b) && members != []
    ensures Ordered(Insert(b, s, members)) && NoneEmpty(Insert(b, s, members))
    ensures forall x | x in Insert(b, s, members) :: x.score == s || x in b
  {
    if b == [] {
    } else {
      var x, rest := b[0], b[1..];
      assert b == [x] + rest;
      forall i | 0 <= i < |rest| ensures TotalLt(x.score, rest[i].score) {
        assert TotalLt(b[0].score, b[i + 1].score);
      }
      TotalLeIsTotalOrder(x.score, s, s);
      assert !TotalLt(s, x.score) && x.score != s ==> TotalLt(x.score, s);
      hide TotalLt;
      if TotalLt(s, x.score) {
        forall i | 0 <= i < |b| ensures TotalLt(s, b[i].score) {
          if i > 0 {
            LtTransitive(s, x.score, rest[i - 1].score);
          }
        }
        ConsKeepsShape(Bucket(s, members), b);
      } else if x.score == s {
        ConsKeepsShape(Bucket(s, members), rest);
      } else {
        InsertKeepsShape(rest, s, members);
        var r := Insert(rest, s, members);
        forall i | 0 <= i < |r| ensures TotalLt(x.score, r[i].score) {
          assert r[i] in r;
        }
        ConsKeepsShape(x, r);
      }
    }
  }

  lemma {:induction false} DeleteKeepsShape(b: seq<Bucket>, s: Score)
    requires Ordered(b) && NoneEmpty(b)
    ensures Ordered(Delete(b, s)) && NoneEmpty(Delete(b, s))
    ensures forall x :: x in Delete(b, s) ==> x in b
  {
    if b != [] && b[0].score != s {
      DeleteKeepsShape(b[1..], s);
      var r := Delete(b[1..], s);
      forall i | 0 <= i < |r| ensures TotalLt(b[0].score, r[i].score) && r[i] in b {
        assert r[i] in b[1..];
      }
    }
  }

  /** The index without one member of the bucket of score s. */
  function Dropped(b: seq<Bucket>, s: Score, m: Member): seq<Bucket> {
    var members := Retain(Found(b, s), m);
    if members == [] then Delete(b, s) else Insert(b, s, members)
  }

  lemma HeadDropped(x: Bucket, rest: seq<Bucket>, m: Member)
    requires Ordered([x] + rest)
    ensures var kept := Retain(x.members, m);
            Dropped([x] + rest, x.score, m) == if kept == [] then rest else [Bucket(x.score, kept)] + rest
  {
    assert !TotalLt(x.score, x.score);
    hide TotalLt, Retain;
    assert ([x] + rest)[1..] == rest;
  }

  lemma FilterAtHead(x: Bucket, rest: seq<Bucket>, m: Member)
    requires forall i | 0 <= i < |rest| :: m !in rest[i].members
    ensures Filter(Not(m), Flatten([x] + rest)) == Tag(Retain(x.members, m), x.score) + Flatten(rest)
  {
    AbsentIsKept(rest, m);
    TagRetain(x.members, m, x.score);
    hide Filter, Retain, Keeps, Flatten, Tag;
    FlattenHead(x, rest);
    var f := Flatten(rest);
    FilterAppend(Not(m), Tag(x.members, x.score), f);
    forall i | 0 <= i < |f| ensures Keeps(Not(m), f[i]) {
      KeepsOther(m, f[i]);
    }
    FilterAll(Not(m), f);
  }

  lemma DroppedAtHead(x: Bucket, rest: seq<Bucket>, m: Member)
    requires Ordered([x] + rest)
    requires forall i | 0 <= i < |rest| :: m !in rest[i].members
    ensures Flatten(Dropped([x] + rest, x.score, m)) == Filter(Not(m), Flatten([x] + rest))
  {
    var kept := Retain(x.members, m);
    HeadDropped(x, rest, m);
    FilterAtHead(x, rest, m);
    if kept == [] {
      assert Tag([], x.score) + Flatten(rest) == Flatten(rest);
    } else {
      hide Tag;
      FlattenHead(Bucket(x.score, kept), rest);
    }
    hide Filter, Retain, Dropped, Keeps, Ordered, Flatten;
  }

  lemma KeepsOther(m: Member, e: Entry)
    requires e.member != m
    ensures Keeps(Not(m), e)
  {
  }

  lemma DroppedBehind(x: Bucket, rest: seq<Bucket>, s: Score, m: Member)
    requires Ordered([x] + rest) && x.score != s && Lookup(rest, s).Some?
    ensures Dropped([x] + rest, s, m) == [x] + Dropped(rest, s, m)
  {
    var b := [x] + rest;
    assert b[1..] == rest;
    if TotalLt(s, x.score) {
      NotFoundBelow(b, s);
    }
  }

  lemma {:induction false} DroppedIsFilter(b: seq<Bucket>, s: Score, m: Member)
    requires Ordered(b) && Lookup(b, s).Some?
    requires forall i | 0 <= i < |b| && b[i].score != s :: m !in b[i].members
    ensures Flatten(Dropped(b, s, m)) == Filter(Not(m), Flatten(b))
  {
    var x, rest := b[0], b[1..];
    assert b == [x] + rest;
    if x.score == s {
      forall i | 0 <= i < |rest| ensures m !in rest[i].members {
        assert TotalLt(b[0].score, b[i + 1].score);
      }
      DroppedAtHead(x, rest, m);
    } else {
      var t := Tag(x.members, x.score);
      FilterAppend(Not(m), t, Flatten(rest));
      TagEntries(x.members, x.score);
      FilterAll(Not(m), t);
      hide Filter, Dropped, Tag;
      DroppedIsFilter(rest, s, m);
      DroppedBehind(x, rest, s, m);
      FlattenHead(x, Dropped(rest, s, m));
    }
  }

  lemma {:induction false} AbsentIsKept(b: seq<Bucket>, m: Member)
    requires forall i | 0 <= i < |b| :: m !in b[i].members
    ensures forall i | 0 <= i < |Flatten(b)| :: Flatten(b)[i].member != m
  {
    if b != [] {
      TagEntries(b[0].members, b[0].score);
      AbsentIsKept(b[1..], m);
    }
  }

  /** The range iterator yields the entries whose score is in the range, in order. */
  lemma {:induction false} RangeIsFilter(b: seq<Bucket>, min: Score, max: Score)
    ensures Flatten(Range(b, min, max)) == Filter(Between(min, max), Flatten(b))
  {
    if b != [] {
      var t := Tag(b[0].members, b[0].score);
      TagEntries(b[0].members, b[0].score);
      RangeIsFilter(b[1..], min, max);
      FilterAppend(Between(min, max), t, Flatten(b[1..]));
      if TotalBetween(b[0].score, min, max) {
        FilterAll(Between(min, max), t);
        FlattenHead(b[0], Range(b[1..], min, max));
      } else {
        FilterNone(Between(min, max), t);
      }
    }
  }

  /** The index without the buckets whose score is listed. */
  function Surviving(b: seq<Bucket>, gone: seq<Score>): seq<Bucket> {
    if b == [] then []
    else if b[0].score in gone then Surviving(b[1..], gone)
    else [b[0]] + Surviving(b[1..], gone)
  }

  lemma {:induction false} SurvivingAll(b: seq<Bucket>)
    ensures Surviving(b, []) == b
  {
    if b != [] {
      SurvivingAll(b[1..]);
    }
  }

  lemma {:induction false} SurvivingLookup(b: seq<Bucket>, gone: seq<Score>, s: Score)
    requires s !in gone
    ensures Lookup(Surviving(b, gone), s) == Lookup(b, s)
  {
    if b != [] {
      SurvivingLookup(b[1..], gone, s);
      if b[0].score !in gone {
        assert ([b[0]] + Surviving(b[1..], gone))[1..] == Surviving(b[1..], gone);
      }
    }
  }

  lemma {:induction false} SurvivingSame(b: seq<Bucket>, gone: seq<Score>, s: Score)
    requires forall i | 0 <= i < |b| :: b[i].score != s
    ensures Surviving(b, gone + [s]) == Surviving(b, gone)
  {
    if b != [] {
      SurvivingSame(b[1..], gone, s);
    }
  }

  lemma {:induction false} DeleteSurviving(b: seq<Bucket>, gone: seq<Score>, s: Score)
    requires Ordered(b) && s !in gone
    ensures Delete(Surviving(b, gone), s) == Surviving(b, gone + [s])
  {
    if b != [] {
      if b[0].score == s {
        SurvivingSame(b[1..], gone, s);
        assert ([b[0]] + Surviving(b[1..], gone))[1..] == Surviving(b[1..], gone);
      } else {
        DeleteSurviving(b[1..], gone, s);
        if b[0].score !in gone {
          assert ([b[0]] + Surviving(b[1..], gone))[1..] == Surviving(b[1..], gone);
        }
      }
    }
  }

  lemma {:induction false} SurvivingKeepsShape(b: seq<Bucket>, gone: seq<Score>)
    requires Ordered(b) && NoneEmpty(b)
    ensures Ordered(Surviving(b, gone)) && NoneEmpty(Surviving(b, gone))
    ensures forall x :: x in Surviving(b, gone) ==> x in b
  {
    if b != [] {
      SurvivingKeepsShape(b[1..], gone);
      var r := Surviving(b[1..], gone);
      forall i | 0 <= i < |r| ensures TotalLt(b[0].score, r[i].score) && r[i] in b {
        assert r[i] in b[1..];
      }
    }
  }

  /** Deleting exactly the buckets with a score in the IEEE range removes exactly those entries. */
  lemma {:induction false} SurvivingIsFilter(b: seq<Bucket>, gone: seq<Score>, min: Score, max: Score)
    requires forall i | 0 <= i < |b| :: b[i].score in gone <==> IeeeBetween(b[i].score, min, max)
    ensures Flatten(Surviving(b, gone)) == Filter(Outside(min, max), Flatten(b))
  {
    if b != [] {
      var t := Tag(b[0].members, b[0].score);
      TagEntries(b[0].members, b[0].score);
      SurvivingIsFilter(b[1..], gone, min, max);
      FilterAppend(Outside(min, max), t, Flatten(b[1..]));
      if b[0].score in gone {
        FilterNone(Outside(min, max), t);
      } else {
        FilterAll(Outside(min, max), t);
        FlattenHead(b[0], Surviving(b[1..], gone));
      }
    }
  }

  lemma {:induction false} DeleteLength(b: seq<Bucket>, s: Score)
    ensures |Flatten(Delete(b, s))| == |Flatten(b)| - |Found(b, s)|
  {
    if b != [] {
      TagEntries(b[0].members, b[0].score);
      if b[0].score != s {
        DeleteLength(b[1..], s);
        FlattenHead(b[0], Delete(b[1..], s));
      }
    }
  }
}
