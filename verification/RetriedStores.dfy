/** Retrying the writes of the sorted sets and of the blob stores when acknowledgements are lost: they
    are operations of the kind RetryIsExactlyOnce speaks of. A put of the file-system blob store is not
    one atomic change, so its attempts may also be cut off part-way. */
module RetriedStores {
  import opened Wrappers
  import opened Scores
  import opened RecencyList
  import RustBreaker
  import opened RustExecutor
  import opened Paths
  import BlobStore

  // ---------- Sorted sets (rust/src/sorted_set.rs:62-100, 137-160) ----------

  function Changing(op: Op): Sets -> (Sets, ()) {
    (s: Sets) => (After(s, op), ())
  }

  function RangeCount(l: seq<Entry>, min: Score, max: Score): nat {
    FilterMembers(Outside(min, max), l);
    |l| - |RangeRemoved(l, min, max)|
  }

  /** A range removal answers how many members it removed. */
  function RemovingRange(name: string, min: Score, max: Score): Sets -> (Sets, nat) {
    (s: Sets) => (After(s, RemoveRange(name, min, max)), RangeCount(Members(s, name), min, max))
  }

  lemma FilterTwice(k: Test, l: seq<Entry>)
    ensures Filter(k, Filter(k, l)) == Filter(k, l)
  {
    FilterMembers(k, l);
    var f := Filter(k, l);
    assert forall i | 0 <= i < |f| :: f[i] in f;
    FilterAll(k, f);
  }

  lemma AddedTwice(l: seq<Entry>, m: Member, s: Score)
    ensures Added(Added(l, m, s), m, s) == Added(l, m, s)
  {
    FilterLast(Not(m), Removed(l, m), Entry(m, s));
    FilterTwice(Not(m), l);
  }

  lemma AfterTwice(s: Sets, op: Op)
    ensures After(After(s, op), op) == After(s, op)
  {
    var l := Members(s, op.name);
    match op {
      case Add(_, m, score) => AddedTwice(l, m, score);
      case Remove(_, m) => FilterTwice(Not(m), l);
      case RemoveRange(_, min, max) => FilterTwice(Outside(min, max), l);
    }
    hide Filter, Added;
  }

  /** However many attempts take effect, a retried add, remove or range removal leaves the sorted
      sets unchanged or changed exactly once, and changed once after a success. */
  lemma SortedSetRetried(op: Op, s: Sets, env: Script, attempts: nat)
    requires attempts >= 1
    ensures var after := Applied(Changing(op), s, Effects(env, attempts));
            && after == (if Effects(env, attempts) == 0 then s else After(s, op))
            && (env(attempts).acked ==> after == After(s, op))
  {
    forall u: Sets ensures Changing(op)(Changing(op)(u).0).0 == Changing(op)(u).0 {
      AfterTwice(u, op);
    }
    RetryIsExactlyOnce(Changing(op), s, env, attempts);
  }

  lemma RemovingRangeIsIdempotent(name: string, min: Score, max: Score)
    ensures Idempotent(RemovingRange(name, min, max))
  {
    var op := RemovingRange(name, min, max);
    forall u: Sets ensures op(op(u).0).0 == op(u).0 {
      AfterTwice(u, RemoveRange(name, min, max));
    }
  }

  /** The count a successful range removal reports is what was removed exactly when no earlier
      attempt took effect unacknowledged, or there was nothing to remove; otherwise it is zero. */
  lemma RemoveRangeRetried(name: string, min: Score, max: Score, s: Sets, env: Script, attempts: nat)
    requires attempts >= 1 && env(attempts).acked
    ensures var op := RemovingRange(name, min, max);
            var count := RangeCount(Members(s, name), min, max);
            && Applied(op, s, Effects(env, attempts)) == After(s, RemoveRange(name, min, max))
            && Result(op, s, env, attempts) == Ok(if Effects(env, attempts - 1) == 0 then count else 0)
            && (Result(op, s, env, attempts) == Ok(count) <==> Effects(env, attempts - 1) == 0 || count == 0)
  {
    RemovingRangeIsIdempotent(name, min, max);
    RetryIsExactlyOnce(RemovingRange(name, min, max), s, env, attempts);
    var l := Members(s, name);
    FilterTwice(Outside(min, max), l);
    assert Members(After(s, RemoveRange(name, min, max)), name) == RangeRemoved(l, min, max);
  }

  /** The retrying wrapper (rust/src/resilience.rs:300-372) around the sorted sets. */
  class ResilientSortedSetStore {
    const inner: Store<Sets>
    const executor: ResilientExecutor

    constructor (inner: Store<Sets>, executor: ResilientExecutor)
      ensures this.inner == inner && this.executor == executor
    {
      this.inner, this.executor := inner, executor;
    }

    /** An add, a remove, or a range removal whose count nobody reads. */
    method Change(op: Op, now: RustBreaker.Time, env: Script) returns (out: Outcome<()>)
      requires Stops(executor.maxRetries, env)
      modifies executor, inner
      ensures inner.contents == old(inner.contents) || inner.contents == After(old(inner.contents), op)
      ensures out.Ok? ==> inner.contents == After(old(inner.contents), op)
      ensures out.Rejected? ==> inner.contents == old(inner.contents)
    {
      forall u: Sets ensures Changing(op)(Changing(op)(u).0).0 == Changing(op)(u).0 {
        AfterTwice(u, op);
      }
      out := executor.ExecuteIdempotent(inner, Changing(op), now, env);
    }

    method Add(name: string, member: Member, score: Score, now: RustBreaker.Time, env: Script) returns (out: Outcome<()>)
      requires Stops(executor.maxRetries, env)
      modifies executor, inner
      ensures out.Ok? ==> inner.contents == After(old(inner.contents), RecencyList.Add(name, member, score))
      ensures inner.contents == old(inner.contents) || inner.contents == After(old(inner.contents), RecencyList.Add(name, member, score))
    {
      out := Change(RecencyList.Add(name, member, score), now, env);
    }

    method Remove(name: string, member: Member, now: RustBreaker.Time, env: Script) returns (out: Outcome<()>)
      requires Stops(executor.maxRetries, env)
      modifies executor, inner
      ensures out.Ok? ==> inner.contents == After(old(inner.contents), RecencyList.Remove(name, member))
      ensures inner.contents == old(inner.contents) || inner.contents == After(old(inner.contents), RecencyList.Remove(name, member))
    {
      out := Change(RecencyList.Remove(name, member), now, env);
    }

    /** The count of a success is what was removed, or zero if an earlier attempt had removed it. */
    method RemoveRange(name: string, min: Score, max: Score, now: RustBreaker.Time, env: Script) returns (out: Outcome<nat>)
      requires Stops(executor.maxRetries, env)
      modifies executor, inner
      ensures var after := After(old(inner.contents), RecencyList.RemoveRange(name, min, max));
              && (inner.contents == old(inner.contents) || inner.contents == after)
              && (out.Ok? ==> inner.contents == after)
      ensures out.Ok? ==> out.value == RangeCount(Members(old(inner.contents), name), min, max) || out.value == 0
    {
      RemovingRangeIsIdempotent(name, min, max);
      FilterTwice(Outside(min, max), Members(inner.contents, name));
      out := executor.ExecuteIdempotent(inner, RemovingRange(name, min, max), now, env);
    }
  }

  // ---------- Blobs (rust/src/blob.rs:45-55, 122-137) ----------

  function PuttingInMemory(key: Path, blob: BlobStore.Blob): BlobStore.Blobs -> (BlobStore.Blobs, ()) {
    (b: BlobStore.Blobs) => (b[key := blob], ())
  }

  lemma MemoryPutRetried(key: Path, blob: BlobStore.Blob, b: BlobStore.Blobs, env: Script, attempts: nat)
    requires attempts >= 1
    ensures var after := Applied(PuttingInMemory(key, blob), b, Effects(env, attempts));
            && after == (if Effects(env, attempts) == 0 then b else b[key := blob])
            && (env(attempts).acked ==> after == b[key := blob])
  {
    var op := PuttingInMemory(key, blob);
    forall u: BlobStore.Blobs ensures op(op(u).0).0 == op(u).0 {
      assert u[key := blob][key := blob] == u[key := blob];
    }
    RetryIsExactlyOnce(op, b, env, attempts);
  }

  /** Where an attempt to put a blob on the file system was cut off: while directories were made from
      the base down, while the data or the sidecar was written, or not. */
  datatype CutOff = AtStart | InDirectories(n: nat) | InData(torn: BlobStore.Bytes) | InSidecar(torn: BlobStore.Bytes) | AtEnd

  /** The disk after a put that was cut off. */
  function CutPut(c: BlobStore.Codec, d: BlobStore.Disk, key: Path, data: BlobStore.Bytes,
                  metadata: Option<BlobStore.Metadata>, cut: CutOff): BlobStore.Disk
  {
    if cut.AtEnd? then BlobStore.LocalPut(c, d, key, data, metadata).1
    else if cut.AtStart? || !(Ancestors(key) !! d.files.Keys) then d
    else if cut.InDirectories? then d.(dirs := d.dirs + BlobStore.Upper(key, cut.n))
    else
      var made := d.(dirs := d.dirs + Ancestors(key));
      if key in d.dirs then made
      else if cut.InData? then made.(files := made.files[key := cut.torn])
      else
        var written := made.(files := made.files[key := data]);
        if metadata.None? || Sidecar(key) in d.dirs then written
        else written.(files := written.files[Sidecar(key) := cut.torn])
  }

  function CutPuts(c: BlobStore.Codec, d: BlobStore.Disk, key: Path, data: BlobStore.Bytes,
                   metadata: Option<BlobStore.Metadata>, cuts: seq<CutOff>): BlobStore.Disk
  {
    if cuts == [] then d
    else CutPut(c, CutPuts(c, d, key, data, metadata, cuts[..|cuts| - 1]), key, data, metadata, cuts[|cuts| - 1])
  }

  lemma CutKeepsTree(c: BlobStore.Codec, d: BlobStore.Disk, key: Path, data: BlobStore.Bytes,
                     metadata: Option<BlobStore.Metadata>, cut: CutOff)
    requires BlobStore.Tree(d) && key != ""
    ensures BlobStore.Tree(CutPut(c, d, key, data, metadata, cut))
  {
    BlobStore.PutPaths(d, key);
    BlobStore.PutKeepsTree(c, d, key, data, metadata);
    if Ancestors(key) !! d.files.Keys {
      BlobStore.DirsKeepTree(d, key, |key|);
      BlobStore.DirsKeepTree(d, key, if cut.InDirectories? then cut.n else 0);
      hide BlobStore.Tree, BlobStore.Upper, Ancestors, Parent, BlobStore.LocalPut;
      var made := d.(dirs := d.dirs + Ancestors(key));
      if key !in d.dirs {
        BlobStore.FileKeepsTree(made, key, if cut.InData? then cut.torn else data);
        if Sidecar(key) !in d.dirs && cut.InSidecar? {
          BlobStore.FileKeepsTree(made.(files := made.files[key := data]), Sidecar(key), cut.torn);
        }
      }
    }
  }

  lemma PutAfterMade(c: BlobStore.Codec, d: BlobStore.Disk, key: Path, data: BlobStore.Bytes,
                     metadata: Option<BlobStore.Metadata>, n: nat)
    requires BlobStore.Tree(d) && key != "" && Ancestors(key) !! d.files.Keys
    ensures var made := d.(dirs := d.dirs + BlobStore.Upper(key, n));
            BlobStore.LocalPut(c, made, key, data, metadata) ==
            if key in d.dirs then (BlobStore.Err, made) else BlobStore.LocalPut(c, d, key, data, metadata)
    ensures key in d.dirs ==> d.dirs + BlobStore.Upper(key, n) == d.dirs
  {
    BlobStore.PutPaths(d, key);
    hide BlobStore.Tree, Ancestors, Parent, Sidecar;
    assert d.dirs + BlobStore.Upper(key, n) + Ancestors(key) == d.dirs + Ancestors(key);
  }

  /** A put overwrites the bytes of both its files. */
  lemma PutOverwrites(c: BlobStore.Codec, d: BlobStore.Disk, key: Path, data: BlobStore.Bytes,
                      metadata: Option<BlobStore.Metadata>, p: Path, torn: BlobStore.Bytes)
    requires BlobStore.Tree(d) && key != "" && key !in d.dirs && Ancestors(key) !! d.files.Keys
    requires p == key || (p == Sidecar(key) && metadata.Some? && p !in d.dirs)
    ensures BlobStore.LocalPut(c, d.(files := d.files[p := torn]), key, data, metadata) ==
            BlobStore.LocalPut(c, d, key, data, metadata)
  {
    BlobStore.PutPaths(d, key);
    assert Sidecar(key) != key;
    hide BlobStore.Tree, Ancestors, Parent, Sidecar;
    var f := d.files[key := data];
    if p == key {
      assert d.files[p := torn][key := data] == f;
    } else {
      assert d.files[p := torn][key := data] == f[p := torn];
      assert f[p := torn][p := c.encode(metadata.value)] == f[p := c.encode(metadata.value)];
    }
  }

  lemma PutAfterCut(c: BlobStore.Codec, d: BlobStore.Disk, key: Path, data: BlobStore.Bytes,
                    metadata: Option<BlobStore.Metadata>, cut: CutOff)
    requires BlobStore.Tree(d) && key != ""
    ensures BlobStore.LocalPut(c, CutPut(c, d, key, data, metadata, cut), key, data, metadata) ==
            BlobStore.LocalPut(c, d, key, data, metadata)
  {
    if Ancestors(key) !! d.files.Keys {
      BlobStore.PutPaths(d, key);
      BlobStore.DirsKeepTree(d, key, |key|);
      PutAfterMade(c, d, key, data, metadata, |key|);
      PutAfterMade(c, d, key, data, metadata, if cut.InDirectories? then cut.n else 0);
      var made := d.(dirs := d.dirs + Ancestors(key));
      hide BlobStore.Tree, BlobStore.Upper, Ancestors, Parent, Sidecar;
      if key !in d.dirs {
        var bytes := if cut.InData? then cut.torn else data;
        PutOverwrites(c, made, key, data, metadata, key, bytes);
        if metadata.Some? && Sidecar(key) !in d.dirs {
          var written := made.(files := made.files[key := bytes]);
          BlobStore.FileKeepsTree(made, key, bytes);
          PutOverwrites(c, written, key, data, metadata, Sidecar(key),
                        if cut.InSidecar? then cut.torn else c.encode(metadata.value));
        }
      }
    }
  }

  /** A put that completes repairs whatever its earlier attempts left behind: the disk and the answer
      are those of a put that ran alone. */
  lemma {:induction false} CutPutsAreRepaired(c: BlobStore.Codec, d: BlobStore.Disk, key: Path, data: BlobStore.Bytes,
                                              metadata: Option<BlobStore.Metadata>, cuts: seq<CutOff>)
    requires BlobStore.Tree(d) && key != ""
    ensures BlobStore.Tree(CutPuts(c, d, key, data, metadata, cuts))
    ensures BlobStore.LocalPut(c, CutPuts(c, d, key, data, metadata, cuts), key, data, metadata) ==
            BlobStore.LocalPut(c, d, key, data, metadata)
  {
    if cuts != [] {
      CutPutsAreRepaired(c, d, key, data, metadata, cuts[..|cuts| - 1]);
      CutKeepsTree(c, CutPuts(c, d, key, data, metadata, cuts[..|cuts| - 1]), key, data, metadata, cuts[|cuts| - 1]);
      PutAfterCut(c, CutPuts(c, d, key, data, metadata, cuts[..|cuts| - 1]), key, data, metadata, cuts[|cuts| - 1]);
    }
  }

  // ---------- Puts that are never completed ----------

  /** The JSON of metadata is not empty, and no proper beginning of it is the JSON of metadata. */
  ghost predicate SelfDelimiting(c: BlobStore.Codec) {
    && (forall m :: c.encode(m) != [])
    && forall m, n | 0 <= n < |c.encode(m)| :: c.decode(c.encode(m)[..n]) == None
  }

  /** What a write that was cut off can leave: a beginning of what it writes. */
  predicate Possible(c: BlobStore.Codec, data: BlobStore.Bytes, metadata: Option<BlobStore.Metadata>, cut: CutOff) {
    && (cut.InData? ==> cut.torn <= data)
    && (cut.InSidecar? && metadata.Some? ==> cut.torn <= c.encode(metadata.value))
  }

  /** A get sees the key as it was, or as the completed put leaves it. */
  predicate AllOrNothing(c: BlobStore.Codec, d: BlobStore.Disk, key: Path, data: BlobStore.Bytes,
                         metadata: Option<BlobStore.Metadata>, cut: CutOff)
  {
    var seen := BlobStore.LocalGet(c, CutPut(c, d, key, data, metadata, cut), key);
    || seen == BlobStore.LocalGet(c, d, key)
    || seen == BlobStore.LocalGet(c, BlobStore.LocalPut(c, d, key, data, metadata).1, key)
  }

  /** The put would write nothing, or nobody could read what it wrote. */
  predicate Unreadable(d: BlobStore.Disk, key: Path) {
    !(Ancestors(key) !! d.files.Keys) || key in d.dirs || Sidecar(key) in d.dirs
  }

  /** What the sidecar of a key says before the put, blob or no blob. */
  function Beside(c: BlobStore.Codec, d: BlobStore.Disk, key: Path): BlobStore.Metadata {
    if Sidecar(key) in d.files then BlobStore.GetOr(c.decode(d.files[Sidecar(key)]), BlobStore.DEFAULT) else BlobStore.DEFAULT
  }

  /** No beginning of the data is new: it is empty, or one byte that replaces an empty blob. */
  predicate DataIsWhole(d: BlobStore.Disk, key: Path, data: BlobStore.Bytes) {
    |data| == 0 || (|data| == 1 && key in d.files && d.files[key] == [])
  }

  /** Neither the change of the data before that of the metadata nor an unreadable sidecar shows: no
      metadata is given, or the data stays and one of the two metadata is the default, or both are. */
  predicate MetadataIsWhole(c: BlobStore.Codec, d: BlobStore.Disk, key: Path, data: BlobStore.Bytes,
                            metadata: Option<BlobStore.Metadata>)
  {
    metadata.Some? ==>
      if key in d.files && d.files[key] == data
      then metadata.value == BlobStore.DEFAULT || Beside(c, d, key) == BlobStore.DEFAULT
      else metadata.value == BlobStore.DEFAULT && Beside(c, d, key) == BlobStore.DEFAULT
  }

  lemma UnreadableIsAtomic(c: BlobStore.Codec, d: BlobStore.Disk, key: Path, data: BlobStore.Bytes,
                           metadata: Option<BlobStore.Metadata>, cut: CutOff)
    requires BlobStore.Tree(d) && key != "" && Unreadable(d, key)
    ensures AllOrNothing(c, d, key, data, metadata, cut)
  {
    BlobStore.PutPaths(d, key);
    assert Sidecar(key) != key;
    hide Ancestors, Parent, Sidecar;
  }

  /** What a get sees of each disk. */
  lemma ReadableViews(c: BlobStore.Codec, d: BlobStore.Disk, key: Path, data: BlobStore.Bytes,
                      metadata: Option<BlobStore.Metadata>, cut: CutOff)
    requires BlobStore.Tree(d) && key != "" && !Unreadable(d, key) && BlobStore.RoundTrips(c)
    ensures var before := BlobStore.LocalGet(c, d, key);
            var done := BlobStore.LocalGet(c, BlobStore.LocalPut(c, d, key, data, metadata).1, key);
            var seen := BlobStore.LocalGet(c, CutPut(c, d, key, data, metadata, cut), key);
            && before == BlobStore.Ok(if key in d.files then Some(BlobStore.Blob(d.files[key], Beside(c, d, key))) else None)
            && done == BlobStore.Ok(Some(BlobStore.Blob(data, BlobStore.GetOr(metadata, Beside(c, d, key)))))
            && seen ==
               match cut
               case AtStart => before
               case InDirectories(_) => before
               case InData(torn) => BlobStore.Ok(Some(BlobStore.Blob(torn, Beside(c, d, key))))
               case InSidecar(torn) =>
                 if metadata.None? then done
                 else BlobStore.Ok(Some(BlobStore.Blob(data, BlobStore.GetOr(c.decode(torn), BlobStore.DEFAULT))))
               case AtEnd => done
  {
    BlobStore.PutPaths(d, key);
    assert Sidecar(key) != key;
    hide Ancestors, Parent, Sidecar, BlobStore.Tree;
  }

  lemma WholeIsAtomic(c: BlobStore.Codec, d: BlobStore.Disk, key: Path, data: BlobStore.Bytes,
                      metadata: Option<BlobStore.Metadata>, cut: CutOff)
    requires BlobStore.Tree(d) && key != "" && !Unreadable(d, key)
    requires BlobStore.RoundTrips(c) && SelfDelimiting(c) && Possible(c, data, metadata, cut)
    requires DataIsWhole(d, key, data) && MetadataIsWhole(c, d, key, data, metadata)
    ensures AllOrNothing(c, d, key, data, metadata, cut)
  {
    ReadableViews(c, d, key, data, metadata, cut);
    hide Unreadable, CutPut, Beside, BlobStore.Tree, BlobStore.LocalGet, BlobStore.LocalPut;
    if cut.InSidecar? && metadata.Some? {
      var text := c.encode(metadata.value);
      assert cut.torn == text[..|cut.torn|];
      if |cut.torn| == |text| {
        assert cut.torn == text;
      }
    }
    if cut.InData? && cut.torn != data {
      assert cut.torn == [];
    }
  }

  /** A cut that shows, unless the put is whole. */
  lemma TornOtherwise(c: BlobStore.Codec, d: BlobStore.Disk, key: Path, data: BlobStore.Bytes,
                      metadata: Option<BlobStore.Metadata>) returns (cut: CutOff)
    requires BlobStore.Tree(d) && key != "" && !Unreadable(d, key)
    requires BlobStore.RoundTrips(c) && SelfDelimiting(c)
    requires !DataIsWhole(d, key, data) || !MetadataIsWhole(c, d, key, data, metadata)
    ensures Possible(c, data, metadata, cut) && !AllOrNothing(c, d, key, data, metadata, cut)
  {
    var present := key in d.files;
    if !DataIsWhole(d, key, data) {
      cut := InData(if present && d.files[key] == [] then data[..1] else []);
    } else if metadata.value != Beside(c, d, key) && !(present && d.files[key] == data) {
      cut := InData(data);
    } else {
      assert c.encode(metadata.value)[..0] == [];
      cut := InSidecar([]);
    }
    ReadableViews(c, d, key, data, metadata, cut);
    hide Unreadable, CutPut, Beside, BlobStore.Tree, BlobStore.LocalGet, BlobStore.LocalPut;
  }

  /** When a put of the file-system store that is cut off and never completed is all-or-nothing: a get
      sees the old blob or the new one wherever the put is cut off, if and only if nobody could read
      what it writes, or neither its data nor its metadata can be seen half-written. */
  lemma CutPutIsAllOrNothingIff(c: BlobStore.Codec, d: BlobStore.Disk, key: Path, data: BlobStore.Bytes,
                                metadata: Option<BlobStore.Metadata>)
    requires BlobStore.Tree(d) && key != ""
    requires BlobStore.RoundTrips(c) && SelfDelimiting(c)
    ensures (forall cut | Possible(c, data, metadata, cut) :: AllOrNothing(c, d, key, data, metadata, cut)) <==>
            Unreadable(d, key) || (DataIsWhole(d, key, data) && MetadataIsWhole(c, d, key, data, metadata))
  {
    hide AllOrNothing, DataIsWhole, MetadataIsWhole, Possible, BlobStore.Tree;
    if Unreadable(d, key) {
      forall cut ensures AllOrNothing(c, d, key, data, metadata, cut) {
        UnreadableIsAtomic(c, d, key, data, metadata, cut);
      }
    } else if DataIsWhole(d, key, data) && MetadataIsWhole(c, d, key, data, metadata) {
      forall cut | Possible(c, data, metadata, cut) ensures AllOrNothing(c, d, key, data, metadata, cut) {
        WholeIsAtomic(c, d, key, data, metadata, cut);
      }
    } else {
      var cut := TornOtherwise(c, d, key, data, metadata);
    }
  }

  /** An ordinary put shows it: data of two bytes or more can be seen half-written on every disk on
      which the put writes a readable blob. */
  lemma LongDataIsTorn(c: BlobStore.Codec, d: BlobStore.Disk, key: Path, data: BlobStore.Bytes,
                       metadata: Option<BlobStore.Metadata>) returns (cut: CutOff)
    requires BlobStore.Tree(d) && key != "" && !Unreadable(d, key) && |data| >= 2
    requires BlobStore.RoundTrips(c) && SelfDelimiting(c)
    ensures Possible(c, data, metadata, cut) && !AllOrNothing(c, d, key, data, metadata, cut)
  {
    cut := TornOtherwise(c, d, key, data, metadata);
  }
}
