/** When the file-system blob store behaves as the in-memory one: over runs of puts and deletes whose
    keys cannot get in each other's way, and exactly as far as metadata does not outlive its blob. */
module BlobRefinement {
  import opened Wrappers
  import opened Paths
  import opened BlobStore

  datatype Op = Put(key: Path, data: Bytes, metadata: Option<Metadata>) | Delete(key: Path)

  /** Keys none of which is a directory of another, and none of which looks like a sidecar anywhere. */
  ghost predicate Compatible(keys: set<Path>) {
    forall k | k in keys ::
      && Normal(k) && !EndsWith(k, SUFFIX)
      && forall a | a in Ancestors(k) :: a !in keys && !EndsWith(a, SUFFIX)
  }

  // ---------- The three stores ----------

  function LocalStep(c: Codec, d: Disk, op: Op): (Result<()>, Disk) {
    match op
    case Put(key, data, metadata) => PutKey(c, d, key, data, metadata)
    case Delete(key) => DeleteKey(d, key)
  }

  function MemoryStep(b: Blobs, op: Op): Blobs {
    match op
    case Put(key, data, metadata) => b[key := Blob(data, GetOr(metadata, DEFAULT))]
    case Delete(key) => b - {key}
  }

  function MetadataOf(b: Blobs, key: Path): Metadata {
    if key in b then b[key].metadata else DEFAULT
  }

  /** A put without metadata keeps the metadata the key had. */
  function StickyStep(b: Blobs, op: Op): Blobs {
    match op
    case Put(key, data, metadata) => b[key := Blob(data, GetOr(metadata, MetadataOf(b, key)))]
    case Delete(key) => b - {key}
  }

  function RunLocal(c: Codec, ops: seq<Op>): Disk {
    if ops == [] then Disk(map[], {}) else LocalStep(c, RunLocal(c, ops[..|ops| - 1]), ops[|ops| - 1]).1
  }

  function RunMemory(ops: seq<Op>): Blobs {
    if ops == [] then map[] else MemoryStep(RunMemory(ops[..|ops| - 1]), ops[|ops| - 1])
  }

  function RunSticky(ops: seq<Op>): Blobs {
    if ops == [] then map[] else StickyStep(RunSticky(ops[..|ops| - 1]), ops[|ops| - 1])
  }

  // ---------- The file-system store refines the sticky one ----------

  /** Every blob is a file, with a sidecar only while it has one, and nothing else is on the disk. */
  ghost predicate Refines(c: Codec, keys: set<Path>, d: Disk, b: Blobs) {
    && Tree(d) && b.Keys <= keys
    && (forall p | p in d.files && !IsSidecar(p) :: p in b)
    && (forall p | p in d.dirs :: p !in keys && !IsSidecar(p))
    && forall k | k in keys :: Holds(c, d, b, k)
  }

  predicate Holds(c: Codec, d: Disk, b: Blobs, k: Path) {
    LocalGet(c, d, k) == Ok(if k in b then Some(b[k]) else None) && (Sidecar(k) in d.files ==> k in b)
  }

  lemma SuffixIsSidecar(p: Path)
    ensures IsSidecar(p) <==> EndsWith(p, SUFFIX)
  {
    NameEndsAsPath(p, SUFFIX);
  }

  /** The paths of a key are no other key's. */
  lemma PathsOfKey(keys: set<Path>, key: Path)
    requires Compatible(keys) && key in keys
    ensures key != "" && !IsSidecar(key) && IsSidecar(Sidecar(key))
    ensures forall a | a in Ancestors(key) :: a !in keys && !IsSidecar(a)
    ensures forall k | k in keys :: Sidecar(key) != k && (k != key ==> Sidecar(key) != Sidecar(k))
  {
    assert key != "";
    SidecarIsBeside(key);
    hide Normal, IsSidecar, Ancestors, EndsWith;
    SuffixIsSidecar(key);
    forall a | a in Ancestors(key) ensures !IsSidecar(a) {
      SuffixIsSidecar(a);
    }
    forall k | k in keys && k != key ensures Sidecar(key) != Sidecar(k) {
      SidecarsDiffer(key, k);
    }
  }

  lemma PutSucceeds(c: Codec, keys: set<Path>, d: Disk, b: Blobs, key: Path, data: Bytes, metadata: Option<Metadata>)
    requires Compatible(keys) && Refines(c, keys, d, b) && key in keys
    ensures LocalPut(c, d, key, data, metadata) ==
            var written := Disk(d.files[key := data], d.dirs + Ancestors(key));
            (Ok(()), if metadata.None? then written
                     else written.(files := written.files[Sidecar(key) := c.encode(metadata.value)]))
  {
    PathsOfKey(keys, key);
    hide Normal, Holds, IsSidecar, Ancestors, Sidecar, Compatible;
  }

  predicate SameAt(d: Disk, d': Disk, p: Path) {
    && (p in d'.files <==> p in d.files)
    && (p in d'.dirs <==> p in d.dirs)
    && (p in d.files ==> d'.files[p] == d.files[p])
  }

  lemma OthersHold(c: Codec, d: Disk, d': Disk, b: Blobs, b': Blobs, k: Path)
    requires Holds(c, d, b, k) && SameAt(d, d', k) && SameAt(d, d', Sidecar(k))
    requires (k in b' <==> k in b) && (k in b ==> b'[k] == b[k])
    ensures Holds(c, d', b', k)
  {
  }

  lemma PutSelfHolds(c: Codec, d: Disk, b: Blobs, key: Path, data: Bytes, metadata: Option<Metadata>, d': Disk)
    requires Holds(c, d, b, key) && RoundTrips(c) && Sidecar(key) != key
    requires var written := d.files[key := data];
             d'.files == if metadata.None? then written else written[Sidecar(key) := c.encode(metadata.value)]
    requires Sidecar(key) !in d.dirs && Sidecar(key) !in d'.dirs
    ensures Holds(c, d', StickyStep(b, Put(key, data, metadata)), key)
  {
    hide Sidecar;
  }

  lemma PutHolds(c: Codec, keys: set<Path>, d: Disk, b: Blobs, key: Path, data: Bytes, metadata: Option<Metadata>, k: Path)
    requires Compatible(keys) && Refines(c, keys, d, b) && key in keys && k in keys && RoundTrips(c)
    ensures Holds(c, LocalPut(c, d, key, data, metadata).1, StickyStep(b, Put(key, data, metadata)), k)
  {
    PutSucceeds(c, keys, d, b, key, data, metadata);
    PathsOfKey(keys, key);
    PathsOfKey(keys, k);
    var d', b' := LocalPut(c, d, key, data, metadata).1, StickyStep(b, Put(key, data, metadata));
    assert Holds(c, d, b, k) && Sidecar(k) !in d.dirs && Sidecar(k) !in d'.dirs;
    hide Normal, IsSidecar, Ancestors, Tree, Sidecar, Compatible, Refines, LocalPut, Holds, RoundTrips;
    if k == key {
      PutSelfHolds(c, d, b, key, data, metadata, d');
    } else {
      OthersHold(c, d, d', b, b', k);
    }
  }

  lemma PutRefines(c: Codec, keys: set<Path>, d: Disk, b: Blobs, key: Path, data: Bytes, metadata: Option<Metadata>)
    requires Compatible(keys) && Refines(c, keys, d, b) && key in keys && RoundTrips(c)
    ensures Refines(c, keys, LocalPut(c, d, key, data, metadata).1, StickyStep(b, Put(key, data, metadata)))
  {
    PutSucceeds(c, keys, d, b, key, data, metadata);
    PathsOfKey(keys, key);
    PutKeepsTree(c, d, key, data, metadata);
    forall k | k in keys ensures Holds(c, LocalPut(c, d, key, data, metadata).1, StickyStep(b, Put(key, data, metadata)), k) {
      PutHolds(c, keys, d, b, key, data, metadata, k);
    }
    hide Normal, IsSidecar, Ancestors, Sidecar, Compatible, LocalPut, Holds, Tree;
  }

  lemma DeleteHolds(c: Codec, keys: set<Path>, d: Disk, b: Blobs, key: Path, k: Path)
    requires Compatible(keys) && Refines(c, keys, d, b) && key in keys && k in keys
    ensures Holds(c, LocalDelete(d, key), b - {key}, k)
  {
    PathsOfKey(keys, key);
    PathsOfKey(keys, k);
    assert Holds(c, d, b, k) && k !in d.dirs;
    hide Normal, IsSidecar, Ancestors, Tree, Sidecar, Compatible, Refines;
    if k != key {
      hide Holds;
      OthersHold(c, d, LocalDelete(d, key), b, b - {key}, k);
    }
  }

  lemma DeleteRefines(c: Codec, keys: set<Path>, d: Disk, b: Blobs, key: Path)
    requires Compatible(keys) && Refines(c, keys, d, b) && key in keys
    ensures Refines(c, keys, LocalDelete(d, key), b - {key})
  {
    forall k | k in keys ensures Holds(c, LocalDelete(d, key), b - {key}, k) {
      DeleteHolds(c, keys, d, b, key, k);
    }
    hide Normal, IsSidecar, Ancestors, Sidecar, Compatible, Holds;
  }

  /** A step of the file-system store succeeds and is the step of the sticky map. */
  lemma StepRefines(c: Codec, keys: set<Path>, d: Disk, b: Blobs, op: Op)
    requires Compatible(keys) && Refines(c, keys, d, b) && op.key in keys && RoundTrips(c)
    ensures LocalStep(c, d, op).0.Ok? && Refines(c, keys, LocalStep(c, d, op).1, StickyStep(b, op))
  {
    assert Normal(op.key);
    NormalKey(c, d, op.key, if op.Put? then op.data else [], if op.Put? then op.metadata else None);
    hide PutKey, DeleteKey, Normal;
    if op.Put? {
      PutSucceeds(c, keys, d, b, op.key, op.data, op.metadata);
      PutRefines(c, keys, d, b, op.key, op.data, op.metadata);
    } else {
      DeleteRefines(c, keys, d, b, op.key);
    }
    hide Refines, Compatible, LocalPut;
  }

  lemma {:induction false} RunRefines(c: Codec, keys: set<Path>, ops: seq<Op>)
    requires Compatible(keys) && RoundTrips(c) && forall i | 0 <= i < |ops| :: ops[i].key in keys
    ensures Refines(c, keys, RunLocal(c, ops), RunSticky(ops))
  {
    if ops != [] {
      RunRefines(c, keys, ops[..|ops| - 1]);
      StepRefines(c, keys, RunLocal(c, ops[..|ops| - 1]), RunSticky(ops[..|ops| - 1]), ops[|ops| - 1]);
    }
  }

  /** No operation of such a run fails. */
  lemma NothingFails(c: Codec, keys: set<Path>, ops: seq<Op>, i: nat)
    requires Compatible(keys) && RoundTrips(c) && forall j | 0 <= j < |ops| :: ops[j].key in keys
    requires i < |ops|
    ensures LocalStep(c, RunLocal(c, ops[..i]), ops[i]).0.Ok?
  {
    RunRefines(c, keys, ops[..i]);
    StepRefines(c, keys, RunLocal(c, ops[..i]), RunSticky(ops[..i]), ops[i]);
  }

  /** Why no key may be a directory of another: of two different keys, put one after the other into
      an empty store, the second fails exactly when one of them is a directory of the other. */
  lemma SecondPutFailsIff(c: Codec, j: Path, k: Path, data: Bytes)
    requires Normal(j) && Normal(k) && j != k
    ensures var first := PutKey(c, Disk(map[], {}), j, data, None);
            && first.0.Ok?
            && (PutKey(c, first.1, k, data, None).0.Err? <==> j in Ancestors(k) || k in Ancestors(j))
  {
    NormalKey(c, Disk(map[], {}), j, data, None);
    NormalKey(c, PutKey(c, Disk(map[], {}), j, data, None).1, k, data, None);
    hide PutKey, Normal, Ancestors;
  }

  // ---------- The in-memory store ----------

  /** Over any run the sticky and the in-memory store hold the same keys with the same data. */
  lemma {:induction false} StickyKeepsData(ops: seq<Op>)
    ensures RunSticky(ops).Keys == RunMemory(ops).Keys
    ensures forall k | k in RunMemory(ops) :: RunSticky(ops)[k].data == RunMemory(ops)[k].data
  {
    if ops != [] {
      StickyKeepsData(ops[..|ops| - 1]);
    }
  }

  /** Every put without metadata meets a key that has none, or only the default. */
  predicate NeverStale(ops: seq<Op>) {
    forall i | 0 <= i < |ops| && ops[i].Put? && ops[i].metadata.None? :: MetadataOf(RunMemory(ops[..i]), ops[i].key) == DEFAULT
  }

  lemma StaleStep(b: Blobs, op: Op)
    ensures StickyStep(b, op) == MemoryStep(b, op) <==> (op.Put? && op.metadata.None? ==> MetadataOf(b, op.key) == DEFAULT)
  {
    if op.Put? {
      assert StickyStep(b, op)[op.key] == Blob(op.data, GetOr(op.metadata, MetadataOf(b, op.key)));
      assert MemoryStep(b, op)[op.key] == Blob(op.data, GetOr(op.metadata, DEFAULT));
    }
  }

  predicate AgreeAt(ops: seq<Op>, n: nat)
    requires n <= |ops|
  {
    RunSticky(ops[..n]) == RunMemory(ops[..n])
  }

  lemma NeverStaleSplit(ops: seq<Op>)
    requires ops != []
    ensures var init, last := ops[..|ops| - 1], ops[|ops| - 1];
            NeverStale(ops) <==>
            && NeverStale(init)
            && (last.Put? && last.metadata.None? ==> MetadataOf(RunMemory(init), last.key) == DEFAULT)
  {
    var init := ops[..|ops| - 1];
    hide RunMemory, MetadataOf;
    assert forall i | 0 <= i < |init| :: init[i] == ops[i] && init[..i] == ops[..i];
  }

  /** The two stores show the same metadata throughout a run if and only if no put without metadata
      replaces a blob that has some. */
  lemma {:induction false} MetadataAgreesIff(ops: seq<Op>)
    ensures (forall n: nat | n <= |ops| :: AgreeAt(ops, n)) <==> NeverStale(ops)
  {
    if ops == [] {
      assert forall n: nat | n <= |ops| :: ops[..n] == [];
    } else {
      var init, last := ops[..|ops| - 1], ops[|ops| - 1];
      MetadataAgreesIff(init);
      NeverStaleSplit(ops);
      StaleStep(RunMemory(init), last);
      assert ops[..|ops|] == ops && init[..|init|] == init;
      assert AgreeAt(init, |init|) ==>
               (AgreeAt(ops, |ops|) <==> StickyStep(RunMemory(init), last) == MemoryStep(RunMemory(init), last));
      forall n: nat | n <= |init| ensures AgreeAt(ops, n) <==> AgreeAt(init, n) {
        assert init[..n] == ops[..n];
      }
      hide AgreeAt, StickyStep, MemoryStep, MetadataOf, NeverStale;
    }
  }

  // ---------- The file-system store against the in-memory one ----------

  function Answer(b: Blobs, k: Path): Option<Blob> {
    if k in b then Some(b[k]) else None
  }

  /** Every get of the file-system store answers what the map holds. */
  ghost predicate Shows(c: Codec, keys: set<Path>, d: Disk, b: Blobs) {
    forall k | k in keys :: GetKey(c, d, k) == Ok(Answer(b, k))
  }

  lemma RefinedIsShown(c: Codec, keys: set<Path>, d: Disk, b: Blobs)
    requires Compatible(keys) && Refines(c, keys, d, b)
    ensures Shows(c, keys, d, b)
  {
    hide GetKey, Normal, Ancestors, EndsWith, LocalGet;
    forall k | k in keys ensures GetKey(c, d, k) == Ok(Answer(b, k)) {
      assert Holds(c, d, b, k);
      NormalKey(c, d, k, [], None);
    }
  }

  lemma ShownIsEqual(c: Codec, keys: set<Path>, d: Disk, a: Blobs, b: Blobs)
    requires Shows(c, keys, d, a) && Shows(c, keys, d, b) && a.Keys <= keys && b.Keys <= keys
    ensures a == b
  {
    hide GetKey;
    forall k ensures Answer(a, k) == Answer(b, k) {
      if k in keys {
        assert GetKey(c, d, k) == Ok(Answer(a, k)) == Ok(Answer(b, k));
      }
    }
    assert forall k :: (k in a <==> Answer(a, k).Some?) && (k in b <==> Answer(b, k).Some?);
    assert forall k | k in a :: a[k] == Answer(a, k).value;
  }

  /** After a run, the file-system store shows the in-memory one exactly if no stale metadata is left. */
  lemma ShowsMemoryIff(c: Codec, keys: set<Path>, ops: seq<Op>)
    requires Compatible(keys) && RoundTrips(c) && forall i | 0 <= i < |ops| :: ops[i].key in keys
    ensures Shows(c, keys, RunLocal(c, ops), RunSticky(ops))
    ensures Shows(c, keys, RunLocal(c, ops), RunMemory(ops)) <==> RunSticky(ops) == RunMemory(ops)
  {
    RunRefines(c, keys, ops);
    StickyKeepsData(ops);
    RefinedIsShown(c, keys, RunLocal(c, ops), RunSticky(ops));
    if Shows(c, keys, RunLocal(c, ops), RunMemory(ops)) {
      ShownIsEqual(c, keys, RunLocal(c, ops), RunSticky(ops), RunMemory(ops));
    }
  }

  /** Over any run of puts and deletes with compatible keys, every get of the file-system store answers
      what the in-memory store answers at that moment, metadata included, if and only if no put
      without metadata replaces a blob that has some. */
  lemma GetsAgreeIff(c: Codec, keys: set<Path>, ops: seq<Op>)
    requires Compatible(keys) && RoundTrips(c) && forall i | 0 <= i < |ops| :: ops[i].key in keys
    ensures (forall n: nat | n <= |ops| :: Shows(c, keys, RunLocal(c, ops[..n]), RunMemory(ops[..n]))) <==> NeverStale(ops)
  {
    MetadataAgreesIff(ops);
    hide Shows, RunLocal, RunMemory, RunSticky, NeverStale, Compatible;
    forall n: nat | n <= |ops|
      ensures Shows(c, keys, RunLocal(c, ops[..n]), RunMemory(ops[..n])) <==> AgreeAt(ops, n)
    {
      ShowsMemoryIff(c, keys, ops[..n]);
    }
  }

  /** Over any run of puts and deletes with compatible keys the file-system store lists, under every
      prefix, the same keys as the in-memory one, and every get answers, with the same data, or that
      the key is absent. */
  lemma FilesystemRefinesMemory(c: Codec, keys: set<Path>, ops: seq<Op>)
    requires Compatible(keys) && RoundTrips(c) && forall i | 0 <= i < |ops| :: ops[i].key in keys
    ensures var d, b := RunLocal(c, ops), RunMemory(ops);
            && Visible(d) == b.Keys
            && (forall k | k in keys ::
                  && GetKey(c, d, k).Ok?
                  && (GetKey(c, d, k).value.Some? <==> k in b)
                  && (k in b ==> GetKey(c, d, k).value.value.data == b[k].data))
            && forall prefix, listing, other ::
                 IsListing(listing, Visible(d), prefix) && IsListing(other, b.Keys, prefix) ==> listing == other
  {
    RunRefines(c, keys, ops);
    StickyKeepsData(ops);
    ShowsMemoryIff(c, keys, ops);
    var d, b, s := RunLocal(c, ops), RunMemory(ops), RunSticky(ops);
    hide RunLocal, RunMemory, RunSticky, IsListing, Normal, GetKey, LocalGet;
    VisibleIsKeys(c, keys, d, s);
    forall k | k in keys ensures GetKey(c, d, k) == Ok(Answer(s, k)) { }
    forall prefix, listing, other | IsListing(listing, Visible(d), prefix) && IsListing(other, b.Keys, prefix)
      ensures listing == other
    {
      ListingIsUnique(listing, other, b.Keys, prefix);
    }
  }

  lemma VisibleIsKeys(c: Codec, keys: set<Path>, d: Disk, b: Blobs)
    requires Compatible(keys) && Refines(c, keys, d, b)
    ensures Visible(d) == b.Keys
  {
    hide Normal, EndsWith, Ancestors;
    forall k | k in b ensures k in Visible(d) {
      assert Holds(c, d, b, k);
      PathsOfKey(keys, k);
    }
  }
}
