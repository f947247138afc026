/** MemorySortedSetStore of rust/src/sorted_set.rs: named sets, each a score index and a table of
    member scores that must agree. The write lock makes every method one atomic change. */
module SortedSet {
  import opened Wrappers
  import opened Scores
  import opened RecencyList
  import opened RecencyLaws
  import opened ScoreIndex

  type SetName = string

  datatype InnerSet = InnerSet(scores: seq<Bucket>, memberScores: map<Member, Score>)

  const EMPTY := InnerSet([], map[])

  /** BTreeMap::range panics when the range starts after it ends. */
  datatype RangeResult = Entries(entries: seq<Entry>) | Panicked

  /** The inner set holds the live members whose last-add order is l. */
  ghost predicate Represents(inner: InnerSet, l: seq<Entry>) {
    && Ordered(inner.scores) && NoneEmpty(inner.scores)
    && Distinct(l)
    && Flatten(inner.scores) == StableSort(l)
    && inner.memberScores == ScoresOf(l)
  }

  /** The two indexes agree: a member is in the bucket of a score exactly if that is its score, no
      member is indexed twice, no bucket is empty, and the count is the sum of the bucket lengths. */
  lemma IndexesAgree(inner: InnerSet, l: seq<Entry>)
    requires Represents(inner, l)
    ensures forall m, s :: m in Found(inner.scores, s) <==> m in inner.memberScores && inner.memberScores[m] == s
    ensures forall s :: Lookup(inner.scores, s).Some? ==> Found(inner.scores, s) != []
    ensures Distinct(Flatten(inner.scores))
    ensures |inner.memberScores| == |Flatten(inner.scores)| == |l|
  {
    SortIsSortedPermutation(l);
    ScoresOfMembers(l);
    hide StableSort, Flatten, TotalLt, ScoresOf;
    forall m, s
      ensures m in Found(inner.scores, s) <==> m in inner.memberScores && inner.memberScores[m] == s
    {
      FlattenMembers(inner.scores, Entry(m, s));
      assert Entry(m, s) in Flatten(inner.scores) <==> Entry(m, s) in l;
    }
    forall s | Lookup(inner.scores, s).Some? ensures Found(inner.scores, s) != [] {
      FoundBucket(inner.scores, s);
    }
    assert |StableSort(l)| == |multiset(StableSort(l))| == |multiset(l)|;
    PermutationIsDistinct(l, StableSort(l));
  }

  lemma {:induction false} FoundBucket(b: seq<Bucket>, s: Score)
    requires Lookup(b, s).Some?
    ensures exists i :: 0 <= i < |b| && b[i] == Bucket(s, Found(b, s))
  {
    if b[0].score != s {
      FoundBucket(b[1..], s);
      var i :| 0 <= i < |b[1..]| && b[1..][i] == Bucket(s, Found(b[1..], s));
      assert b[i + 1] == Bucket(s, Found(b, s));
    }
  }

  /** The index is determined by the list: two inner sets that hold the same list are equal. */
  lemma IndexIsDetermined(a: InnerSet, b: InnerSet, l: seq<Entry>)
    requires Represents(a, l) && Represents(b, l)
    ensures a == b
  {
    SameFlattenSameIndex(a.scores, b.scores);
  }

  lemma {:induction false} SameFlattenSameIndex(a: seq<Bucket>, b: seq<Bucket>)
    requires Ordered(a) && NoneEmpty(a) && Ordered(b) && NoneEmpty(b) && Flatten(a) == Flatten(b)
    ensures a == b
  {
    FlattenIsEmpty(a);
    FlattenIsEmpty(b);
    if a != [] {
      var s := a[0].score;
      TagEntries(a[0].members, s);
      TagEntries(b[0].members, b[0].score);
      assert Flatten(a)[0].score == s && Flatten(b)[0].score == b[0].score;
      assert |a| > 1 ==> TotalLt(s, a[1].score);
      assert |b| > 1 ==> TotalLt(s, b[1].score);
      FlattenAbove(a[1..], s);
      FlattenAbove(b[1..], s);
      HeadsEqual(a[0].members, b[0].members, s, Flatten(a[1..]), Flatten(b[1..]));
      SameFlattenSameIndex(a[1..], b[1..]);
    }
  }

  lemma FlattenIsEmpty(b: seq<Bucket>)
    requires NoneEmpty(b)
    ensures Flatten(b) == [] <==> b == []
  {
    if b != [] {
      TagEntries(b[0].members, b[0].score);
    }
  }

  lemma HeadsEqual(x: seq<Member>, y: seq<Member>, s: Score, xs: seq<Entry>, ys: seq<Entry>)
    requires Tag(x, s) + xs == Tag(y, s) + ys
    requires forall i | 0 <= i < |xs| :: TotalLt(s, xs[i].score)
    requires forall i | 0 <= i < |ys| :: TotalLt(s, ys[i].score)
    ensures x == y && xs == ys
  {
    TagEntries(x, s);
    TagEntries(y, s);
    var all := Tag(x, s) + xs;
    assert forall i | 0 <= i < |all| :: all[i].score == s <==> i < |x|;
    assert forall i | 0 <= i < |all| :: all[i].score == s <==> i < |y|;
    assert |x| < |all| ==> all[|x|].score != s;
    assert |y| < |all| ==> all[|y|].score != s;
    assert |x| == |y|;
    assert forall i | 0 <= i < |x| :: all[i] == Entry(x[i], s) == Entry(y[i], s);
    assert xs == all[|x|..] && ys == all[|y|..];
  }

  /** Taking a member out of its bucket, and the bucket out when that empties it. */
  lemma DropRepresents(inner: InnerSet, l: seq<Entry>, m: Member)
    requires Represents(inner, l) && m in inner.memberScores
    ensures Lookup(inner.scores, inner.memberScores[m]).Some?
    ensures Represents(InnerSet(Dropped(inner.scores, inner.memberScores[m], m), inner.memberScores - {m}), Removed(l, m))
  {
    var s := inner.memberScores[m];
    IndexesAgree(inner, l);
    assert forall t :: m in Found(inner.scores, t) <==> t == s;
    assert m in Found(inner.scores, s);
    forall i | 0 <= i < |inner.scores| && inner.scores[i].score != s ensures m !in inner.scores[i].members {
      BucketIsFound(inner.scores, i);
    }
    DroppedIsFilter(inner.scores, s, m);
    FilterSort(Not(m), l);
    ScoresOfFilter(Not(m), l);
    var members := Retain(Found(inner.scores, s), m);
    if members == [] {
      DeleteKeepsShape(inner.scores, s);
    } else {
      InsertKeepsShape(inner.scores, s, members);
    }
  }

  lemma {:induction false} BucketIsFound(b: seq<Bucket>, i: int)
    requires Ordered(b) && 0 <= i < |b|
    ensures Found(b, b[i].score) == b[i].members
  {
    if i > 0 {
      assert TotalLt(b[0].score, b[i].score);
      BucketIsFound(b[1..], i - 1);
    }
  }

  lemma AbsentIsUnchanged(inner: InnerSet, l: seq<Entry>, m: Member)
    requires Represents(inner, l) && m !in inner.memberScores
    ensures Removed(l, m) == l
  {
    ScoresOfMembers(l);
    forall i | 0 <= i < |l| ensures Keeps(Not(m), l[i]) {
      assert Entry(l[i].member, l[i].score) in l;
    }
    FilterAll(Not(m), l);
  }

  lemma PushRepresents(inner: InnerSet, l: seq<Entry>, m: Member, s: Score)
    requires Represents(inner, l) && m !in inner.memberScores
    ensures Represents(InnerSet(Insert(inner.scores, s, Found(inner.scores, s) + [m]), inner.memberScores[m := s]), l + [Entry(m, s)])
  {
    PushIsStableInsert(inner.scores, m, s);
    InsertKeepsShape(inner.scores, s, Found(inner.scores, s) + [m]);
    SortLast(l, Entry(m, s));
    ScoresOfLast(l, Entry(m, s));
    ScoresOfMembers(l);
    forall i | 0 <= i < |l| ensures l[i].member != m {
      assert Entry(l[i].member, l[i].score) in l;
    }
  }

  lemma BucketsAreOrdered(inner: InnerSet, l: seq<Entry>)
    requires Represents(inner, l)
    ensures Ordered(inner.scores)
  {
  }

  /** The bucket of this score, and the member at its end. */
  predicate IsLastOf(m: Member, s: Score, b: Bucket) {
    b.score == s && b.members != [] && b.members[|b.members| - 1] == m
  }

  lemma {:induction false} InsertedBucket(b: seq<Bucket>, s: Score, members: seq<Member>)
    ensures exists i :: 0 <= i < |Insert(b, s, members)| && Insert(b, s, members)[i] == Bucket(s, members)
  {
    var r := Insert(b, s, members);
    if b == [] || TotalLt(s, b[0].score) || b[0].score == s {
      assert r[0] == Bucket(s, members);
    } else {
      InsertedBucket(b[1..], s, members);
      var rest := Insert(b[1..], s, members);
      var i :| 0 <= i < |rest| && rest[i] == Bucket(s, members);
      assert r[i + 1] == rest[i];
    }
  }

  lemma ListIsDistinct(inner: InnerSet, l: seq<Entry>)
    requires Represents(inner, l)
    ensures Distinct(l)
  {
  }

  lemma EmptyRepresents()
    ensures Represents(EMPTY, [])
  {
  }

  /** The range iterator of a set that holds l reads the range of the stable sort of l. */
  lemma RangeRepresents(inner: InnerSet, l: seq<Entry>, min: Score, max: Score, limit: Option<nat>)
    requires Represents(inner, l)
    ensures Ranged(l, min, max, limit) == Limited(Flatten(Range(inner.scores, min, max)), limit)
  {
    RangeIsFilter(inner.scores, min, max);
  }

  /** The member scores that are not among those gone. */
  function Remaining(memberScores: map<Member, Score>, gone: seq<Score>): map<Member, Score> {
    map m | m in memberScores && memberScores[m] !in gone :: memberScores[m]
  }

  lemma RemainingAll(memberScores: map<Member, Score>)
    ensures Remaining(memberScores, []) == memberScores
  {
  }

  lemma RemainingStep(memberScores: map<Member, Score>, gone: seq<Score>, score: Score, members: seq<Member>)
    requires forall m :: m in members <==> m in memberScores && memberScores[m] == score
    ensures Remaining(memberScores, gone + [score]) == Remaining(memberScores, gone) - (set m | m in members)
  {
  }

  lemma RemoveKeyStep(inner: InnerSet, l: seq<Entry>, keys: seq<Score>, i: int)
    requires Represents(inner, l) && 0 <= i < |keys|
    requires forall j, k | 0 <= j < k < |keys| :: TotalLt(keys[j], keys[k])
    ensures var scores, score := Surviving(inner.scores, keys[..i]), keys[i];
            && score !in keys[..i]
            && keys[..i + 1] == keys[..i] + [score]
            && Delete(scores, score) == Surviving(inner.scores, keys[..i + 1])
            && |Flatten(Delete(scores, score))| == |Flatten(scores)| - |Found(scores, score)|
            && Found(scores, score) == Found(inner.scores, score)
            && (Lookup(scores, score).None? ==> Delete(scores, score) == scores)
            && Remaining(inner.memberScores, keys[..i + 1])
               == Remaining(inner.memberScores, keys[..i]) - (set m | m in Found(scores, score))
            && (Lookup(scores, score).None? ==>
                  Remaining(inner.memberScores, keys[..i + 1]) == Remaining(inner.memberScores, keys[..i]))
  {
    var scores, score := Surviving(inner.scores, keys[..i]), keys[i];
    assert score !in keys[..i];
    SurvivingLookup(inner.scores, keys[..i], score);
    DeleteSurviving(inner.scores, keys[..i], score);
    DeleteLength(scores, score);
    assert keys[..i + 1] == keys[..i] + [score];
    DeleteAbsent(scores, score);
    hide Flatten, Delete, Surviving, TotalLt, Lookup, StableSort;
    IndexesAgree(inner, l);
    RemainingStep(inner.memberScores, keys[..i], score, Found(inner.scores, score));
  }

  lemma {:induction false} DeleteAbsent(b: seq<Bucket>, s: Score)
    ensures Lookup(b, s).None? ==> Delete(b, s) == b
  {
    if b != [] {
      DeleteAbsent(b[1..], s);
    }
  }

  lemma RangeRemovedRepresents(inner: InnerSet, l: seq<Entry>, keys: seq<Score>, min: Score, max: Score)
    requires Represents(inner, l)
    requires forall i | 0 <= i < |inner.scores| :: inner.scores[i].score in keys <==> IeeeBetween(inner.scores[i].score, min, max)
    requires forall s | s in keys :: IeeeBetween(s, min, max)
    ensures Represents(InnerSet(Surviving(inner.scores, keys), Remaining(inner.memberScores, keys)), RangeRemoved(l, min, max))
    ensures |Flatten(inner.scores)| == |l|
    ensures |Flatten(Surviving(inner.scores, keys))| == |RangeRemoved(l, min, max)|
  {
    SurvivingIsFilter(inner.scores, keys, min, max);
    SurvivingKeepsShape(inner.scores, keys);
    FilterSort(Outside(min, max), l);
    ScoresOfFilter(Outside(min, max), l);
    IndexesAgree(inner, l);
    var memberScores := Remaining(inner.memberScores, keys);
    hide Flatten, Surviving, Filter, StableSort, IeeeBetween, TotalLt;
    forall m | m in inner.memberScores
      ensures inner.memberScores[m] in keys <==> IeeeBetween(inner.memberScores[m], min, max)
    {
      var s := inner.memberScores[m];
      assert m in Found(inner.scores, s);
      FoundBucket(inner.scores, s);
    }
    SortLength(l);
    SortLength(RangeRemoved(l, min, max));
    assert memberScores == ScoresOf(RangeRemoved(l, min, max));
  }

  lemma SortLength(l: seq<Entry>)
    ensures |StableSort(l)| == |l|
  {
    SortIsSortedPermutation(l);
    assert |StableSort(l)| == |multiset(StableSort(l))| == |multiset(l)|;
  }

  class MemorySortedSetStore {
    var sets: map<SetName, InnerSet>
    /** The members of every set in the order they were last added. */
    ghost var recency: Sets

    ghost predicate Valid()
      reads this
    {
      && sets.Keys == recency.Keys
      && forall name | name in sets :: Represents(sets[name], recency[name])
    }

    constructor ()
      ensures Valid() && recency == map[]
    {
      sets, recency := map[], map[];
    }

    /** The buckets after an indexed member leaves the one it is in. */
    static method TakeOut(inner: InnerSet, member: Member, ghost l: seq<Entry>) returns (scores: seq<Bucket>)
      requires Represents(inner, l) && member in inner.memberScores
      ensures Represents(InnerSet(scores, inner.memberScores - {member}), Removed(l, member))
    {
      DropRepresents(inner, l, member);
      hide Represents, Filter, Insert, Delete, Retain, Lookup, Removed;
      scores := inner.scores;
      var score := inner.memberScores[member];
      if Lookup(scores, score).Some? {
        var members := Retain(Lookup(scores, score).value, member);
        if members == [] {
          scores := Delete(scores, score);
        } else {
          scores := Insert(scores, score, members);
        }
      }
    }

    /** entry(score).or_default().push(member). */
    static method PushBack(buckets: seq<Bucket>, member: Member, score: Score, ghost others: map<Member, Score>, ghost l: seq<Entry>)
      returns (scores: seq<Bucket>)
      requires Represents(InnerSet(buckets, others), l) && member !in others
      ensures Represents(InnerSet(scores, others[member := score]), l + [Entry(member, score)])
      ensures exists i :: 0 <= i < |scores| && IsLastOf(member, score, scores[i])
    {
      PushRepresents(InnerSet(buckets, others), l, member, score);
      hide Represents, Insert, Lookup;
      var bucket := if Lookup(buckets, score).Some? then Lookup(buckets, score).value else [];
      InsertedBucket(buckets, score, bucket + [member]);
      scores := Insert(buckets, score, bucket + [member]);
    }

    method Add(name: SetName, member: Member, score: Score)
      requires Valid()
      modifies this
      ensures Valid()
      ensures recency == After(old(recency), RecencyList.Add(name, member, score))
      ensures recency.Keys == sets.Keys == old(sets.Keys) + {name}
      ensures forall other | other in sets && other != name ::
                sets[other] == old(sets)[other] && recency[other] == old(recency)[other]
      ensures var l, r := old(Members(recency, name)), recency[name];
              && r != [] && r[|r| - 1] == Entry(member, score)
              && (forall i | 0 <= i < |l| && l[i].member == member :: r[..|r| - 1] == l[..i] + l[i + 1..])
              && ((forall i | 0 <= i < |l| :: l[i].member != member) ==> r[..|r| - 1] == l)
      ensures exists i :: 0 <= i < |sets[name].scores| && IsLastOf(member, score, sets[name].scores[i])
    {
      hide Represents, Filter, Removed, IsLastOf;
      EmptyRepresents();
      var inner := if name in sets then sets[name] else EMPTY;
      ghost var l := Members(recency, name);
      ListIsDistinct(inner, l);
      var scores := inner.scores;
      if member in inner.memberScores {
        scores := TakeOut(inner, member, l);
      } else {
        AbsentIsUnchanged(inner, l, member);
      }
      ghost var others := inner.memberScores - {member};
      assert member !in inner.memberScores ==> others == inner.memberScores;
      scores := PushBack(scores, member, score, others, Removed(l, member));
      assert inner.memberScores[member := score] == others[member := score];
      AddedIsLast(l, member, score);
      sets := sets[name := InnerSet(scores, inner.memberScores[member := score])];
      recency := recency[name := Added(l, member, score)];
    }

    method Remove(name: SetName, member: Member)
      requires Valid()
      modifies this
      ensures Valid()
      ensures recency == After(old(recency), RecencyList.Remove(name, member))
      ensures recency.Keys == sets.Keys == old(sets.Keys)
      ensures forall other | other in sets && other != name ::
                sets[other] == old(sets)[other] && recency[other] == old(recency)[other]
      ensures name in sets ==>
                var l, r := old(recency)[name], recency[name];
                && (forall i | 0 <= i < |l| && l[i].member == member :: r == l[..i] + l[i + 1..])
                && ((forall i | 0 <= i < |l| :: l[i].member != member) ==> r == l)
    {
      hide Represents, Filter, Insert, Delete, Retain, Lookup;
      if name in sets {
        var inner := sets[name];
        ghost var l := recency[name];
        if member in inner.memberScores {
          var scores := TakeOut(inner, member, l);
          sets := sets[name := InnerSet(scores, inner.memberScores - {member})];
        } else {
          AbsentIsUnchanged(inner, l, member);
        }
        recency := recency[name := Removed(l, member)];
        ListIsDistinct(inner, l);
        RemovedIsCut(l, member);
      }
    }

    /** The nested loop over the buckets of a range, with its early return. */
    static method Collect(buckets: seq<Bucket>, limit: Option<nat>) returns (result: seq<Entry>)
      ensures result == Limited(Flatten(buckets), limit)
    {
      hide Flatten, Tag;
      result := [];
      ghost var all := Flatten(buckets);
      assert buckets[0..] == buckets;
      for i := 0 to |buckets|
        invariant |result| <= |all| && result == all[..|result|] && all[|result|..] == Flatten(buckets[i..])
        invariant limit.Some? ==> |result| < (if limit.value == 0 then 1 else limit.value)
      {
        var members := buckets[i].members;
        ghost var rest := Flatten(buckets[i + 1..]);
        FlattenStep(buckets, i);
        assert members[0..] == members;
        for j := 0 to |members|
          invariant |result| <= |all| && result == all[..|result|]
          invariant all[|result|..] == Tag(members[j..], buckets[i].score) + rest
          invariant limit.Some? ==> |result| < (if limit.value == 0 then 1 else limit.value)
        {
          var e := Entry(members[j], buckets[i].score);
          TagStep(members, j, buckets[i].score);
          TailStep(all, |result|, e, Tag(members[j + 1..], buckets[i].score), rest);
          result := result + [e];
          if limit.Some? && |result| >= limit.value {
            return;
          }
        }
        TagEnds(members, buckets[i].score, rest);
      }
      EndsEmpty(buckets);
    }

    /** The query returns exactly the entries of the stable sort whose score is in the range, cut at
        the limit (a limit of zero still lets one through); it panics on an existing set when the
        range is upside down in the total order. */
    method RangeByScore(name: SetName, min: Score, max: Score, limit: Option<nat>) returns (r: RangeResult)
      requires Valid()
      ensures r == if name in recency && TotalLt(max, min) then Panicked
                   else Entries(Ranged(Members(recency, name), min, max, limit))
      ensures r.Entries? ==>
                && (forall e | e in r.entries :: e in Members(recency, name) && TotalLe(min, e.score) && TotalLe(e.score, max))
                && forall i, j | 0 <= i < j < |r.entries| :: TotalLe(r.entries[i].score, r.entries[j].score)
      ensures r.Entries? && limit.None? ==>
                forall e | e in Members(recency, name) && TotalLe(min, e.score) && TotalLe(e.score, max) :: e in r.entries
      ensures r.Entries? && limit == Some(0) ==>
                && |r.entries| <= 1
                && (r.entries == [] ==> forall e | e in Members(recency, name) :: !(TotalLe(min, e.score) && TotalLe(e.score, max)))
    {
      RangedInNumbers(Members(recency, name), min, max, if limit.Some? then limit.value else 0);
      assert Ranged([], min, max, limit) == [];
      hide StableSort, Ranged, Filter, Represents, Range, Flatten, TotalLt;
      if name in sets {
        var inner := sets[name];
        if TotalLt(max, min) {
          return Panicked;
        }
        RangeRepresents(inner, recency[name], min, max, limit);
        var result := Collect(Range(inner.scores, min, max), limit);
        return Entries(result);
      }
      return Entries([]);
    }

    method Count(name: SetName) returns (n: nat)
      requires Valid()
      ensures n == |Members(recency, name)|
    {
      n := 0;
      if name in sets {
        IndexesAgree(sets[name], recency[name]);
        n := |sets[name].memberScores|;
      }
    }

    /** The keys of the buckets in the IEEE range. */
    static method KeysBetween(b: seq<Bucket>, min: Score, max: Score) returns (keys: seq<Score>)
      ensures forall i | 0 <= i < |b| :: b[i].score in keys <==> IeeeBetween(b[i].score, min, max)
      ensures forall s | s in keys :: IeeeBetween(s, min, max)
      ensures Ordered(b) ==> forall i, j | 0 <= i < j < |keys| :: TotalLt(keys[i], keys[j])
    {
      keys := [];
      for i := 0 to |b|
        invariant forall k | 0 <= k < i :: b[k].score in keys <==> IeeeBetween(b[k].score, min, max)
        invariant forall s | s in keys :: IeeeBetween(s, min, max) && exists k :: 0 <= k < i && b[k].score == s
        invariant Ordered(b) ==> forall k, j | 0 <= k < j < |keys| :: TotalLt(keys[k], keys[j])
      {
        if IeeeBetween(b[i].score, min, max) {
          forall j | 0 <= j < |keys| ensures Ordered(b) ==> TotalLt(keys[j], b[i].score) {
            assert keys[j] in keys;
          }
          keys := keys + [b[i].score];
        }
      }
    }

    static method Forget(memberScores: map<Member, Score>, members: seq<Member>) returns (r: map<Member, Score>)
      ensures r == memberScores - (set m | m in members)
    {
      r := memberScores;
      for j := 0 to |members|
        invariant r == memberScores - (set m | m in members[..j])
      {
        r := r - {members[j]};
        assert members[..j + 1] == members[..j] + [members[j]];
      }
      assert members[..|members|] == members;
    }

    /** The loop over the collected keys. */
    static method Purge(inner: InnerSet, keys: seq<Score>, ghost l: seq<Entry>)
      returns (scores: seq<Bucket>, memberScores: map<Member, Score>, removed: nat)
      requires Represents(inner, l)
      requires forall j, k | 0 <= j < k < |keys| :: TotalLt(keys[j], keys[k])
      ensures scores == Surviving(inner.scores, keys)
      ensures memberScores == Remaining(inner.memberScores, keys)
      ensures removed == |Flatten(inner.scores)| - |Flatten(scores)|
    {
      scores, memberScores, removed := inner.scores, inner.memberScores, 0;
      SurvivingAll(scores);
      RemainingAll(memberScores);
      hide Represents, Flatten, Delete, Surviving, TotalLt, Remaining, Lookup;
      for i := 0 to |keys|
        invariant scores == Surviving(inner.scores, keys[..i])
        invariant memberScores == Remaining(inner.memberScores, keys[..i])
        invariant removed == |Flatten(inner.scores)| - |Flatten(scores)|
      {
        RemoveKeyStep(inner, l, keys, i);
        var found := Lookup(scores, keys[i]);
        if found.Some? {
          scores := Delete(scores, keys[i]);
          removed := removed + |found.value|;
          memberScores := Forget(memberScores, found.value);
        }
      }
      assert keys[..|keys|] == keys;
    }

    /** Removes exactly the members whose score is in the IEEE range, and counts them. */
    method RemoveRange(name: SetName, min: Score, max: Score) returns (removed: nat)
      requires Valid()
      modifies this
      ensures Valid()
      ensures recency == After(old(recency), RecencyList.RemoveRange(name, min, max))
      ensures recency.Keys == sets.Keys == old(sets.Keys)
      ensures forall other | other in sets && other != name ::
                sets[other] == old(sets)[other] && recency[other] == old(recency)[other]
      ensures name in sets ==>
                var l, r := old(recency)[name], recency[name];
                && (forall e :: e in r <==> e in l && !(IeeeLe(min, e.score) && IeeeLe(e.score, max)))
                && forall x, y :: Before(r, x, y) ==> Before(l, x, y)
      ensures removed == |old(Members(recency, name))| - |Members(recency, name)|
    {
      hide Represents, Flatten, Surviving, TotalLt, IeeeBetween, Ordered, Remaining, RangeRemoved, Before;
      removed := 0;
      if name in sets {
        var inner := sets[name];
        ghost var l := recency[name];
        BucketsAreOrdered(inner, l);
        var keys := KeysBetween(inner.scores, min, max);
        var scores, memberScores, count := Purge(inner, keys, l);
        RangeRemovedRepresents(inner, l, keys, min, max);
        sets := sets[name := InnerSet(scores, memberScores)];
        recency := recency[name := RangeRemoved(l, min, max)];
        removed := count;
        RangeRemovedInOrder(l, min, max);
      }
    }

    method Score(name: SetName, member: Member) returns (r: Option<Score>)
      requires Valid()
      ensures forall s :: r == Some(s) <==> Entry(member, s) in Members(recency, name)
    {
      r := None;
      if name in sets {
        ScoresOfMembers(recency[name]);
        if member in sets[name].memberScores {
          r := Some(sets[name].memberScores[member]);
        }
      }
    }
  }

  lemma EndsEmpty(b: seq<Bucket>)
    ensures Flatten(b[|b|..]) == []
  {
  }

  lemma FlattenStep(b: seq<Bucket>, i: int)
    requires 0 <= i < |b|
    ensures Flatten(b[i..]) == Tag(b[i].members, b[i].score) + Flatten(b[i + 1..])
  {
    assert b[i..] == [b[i]] + b[i + 1..];
    FlattenHead(b[i], b[i + 1..]);
  }

  lemma TailStep(all: seq<Entry>, k: nat, e: Entry, more: seq<Entry>, rest: seq<Entry>)
    requires k <= |all| && all[k..] == ([e] + more) + rest
    ensures k < |all| && all[..k] + [e] == all[..k + 1]
    ensures all[k + 1..] == more + rest
  {
    assert all[k] == all[k..][0] == e;
    assert all[k + 1..] == all[k..][1..];
  }

  lemma TagEnds(members: seq<Member>, s: Score, rest: seq<Entry>)
    ensures Tag(members[|members|..], s) + rest == rest
  {
  }

  lemma TagStep(members: seq<Member>, j: int, s: Score)
    requires 0 <= j < |members|
    ensures Tag(members[j..], s) == [Entry(members[j], s)] + Tag(members[j + 1..], s)
  {
    assert members[j..][1..] == members[j + 1..];
  }
}
