/** The two local blob stores of rust/src/blob.rs. The in-memory one is a map. The file-system one keeps
    a blob in the file its key names and the blob's metadata in a sidecar file, and lists by walking
    the directory tree. The file system is a tree of directories and files; an operation on it fails
    for the shape of that tree only. */
module BlobStore {
  import opened Wrappers
  import opened Paths
  import Sorting

  type Bytes = seq<bv8>

  datatype Metadata = Metadata(contentType: Option<string>, custom: map<string, string>)

  const DEFAULT := Metadata(None, map[])

  /** The JSON form of metadata; decoding may fail on other bytes. */
  datatype Codec = Codec(encode: Metadata -> Bytes, decode: Bytes -> Option<Metadata>)

  ghost predicate RoundTrips(c: Codec) {
    forall m :: c.decode(c.encode(m)) == Some(m)
  }

  datatype Blob = Blob(data: Bytes, metadata: Metadata)

  datatype Result<+T> = Ok(value: T) | Err

  function GetOr(m: Option<Metadata>, other: Metadata): Metadata {
    if m.Some? then m.value else other
  }

  predicate Matches(prefix: Option<string>, key: Path) {
    prefix.Some? ==> prefix.value <= key
  }

  /** The keys of `have` that start with the prefix, each once, in order. */
  ghost predicate IsListing(keys: seq<Path>, have: set<Path>, prefix: Option<string>) {
    && Sorting.SortedBy(StringLe, keys)
    && multiset(keys) == multiset(set k | k in have && Matches(prefix, k))
  }

  /** There is one listing. */
  lemma ListingIsUnique(keys: seq<Path>, others: seq<Path>, have: set<Path>, prefix: Option<string>)
    requires IsListing(keys, have, prefix) && IsListing(others, have, prefix)
    ensures keys == others
  {
    StringLeIsOrder();
    Sorting.SortedIsUnique(StringLe, keys, others);
  }

  /** A listing in words: exactly the keys that start with the prefix, and of any two the earlier one is a
      proper beginning of the later or has the smaller character where they first differ. */
  lemma ListingInWords(keys: seq<Path>, have: set<Path>, prefix: Option<string>)
    requires IsListing(keys, have, prefix)
    ensures forall k :: k in keys <==> k in have && (prefix.Some? ==> prefix.value <= k)
    ensures forall i, j | 0 <= i < j < |keys| ::
              keys[i] != keys[j] && (keys[i] <= keys[j] || exists n :: SmallerAt(keys[i], keys[j], n))
  {
    var wanted := set k | k in have && Matches(prefix, k);
    forall k ensures k in keys <==> k in wanted {
      assert k in keys <==> multiset(keys)[k] > 0;
      assert k in wanted <==> multiset(wanted)[k] > 0;
    }
    forall i, j | 0 <= i < j < |keys|
      ensures keys[i] != keys[j] && (keys[i] <= keys[j] || exists n :: SmallerAt(keys[i], keys[j], n))
    {
      StringLeMeaning(keys[i], keys[j]);
      assert multiset(wanted)[keys[i]] <= 1;
      if keys[i] == keys[j] {
        TwiceListed(keys, i, j);
      }
    }
  }

  lemma TwiceListed(keys: seq<Path>, i: int, j: int)
    requires 0 <= i < j < |keys| && keys[i] == keys[j]
    ensures multiset(keys)[keys[i]] >= 2
  {
    assert keys == keys[..j] + [keys[j]] + keys[j + 1..];
    assert keys[i] in keys[..j];
  }

  // ---------- The file system ----------

  datatype Disk = Disk(files: map<Path, Bytes>, dirs: set<Path>)

  /** No path is both file and directory, and whatever exists is in an existing directory. */
  ghost predicate Tree(d: Disk) {
    && d.files.Keys !! d.dirs
    && "" !in d.files
    && (forall p | p in d.files :: Parent(p) in d.dirs)
    && forall p | p in d.dirs && p != "" :: Parent(p) in d.dirs
  }

  predicate Exists(d: Disk, p: Path) {
    p in d.files || p in d.dirs
  }

  /** Path::exists of a path as it is spelt. */
  predicate Names(d: Disk, s: string) {
    Norm(s) in d.dirs || (Proper(s) && Norm(s) in d.files)
  }

  class FileSystem {
    var disk: Disk

    constructor ()
      ensures disk == Disk(map[], {})
    {
      disk := Disk(map[], {});
    }

    /** Fails when a file is in the way. */
    method CreateParents(s: string) returns (ok: bool)
      modifies this
      ensures ok <==> Ancestors(Norm(s)) !! old(disk).files.Keys
      ensures disk == if ok then old(disk).(dirs := old(disk).dirs + Ancestors(Norm(s))) else old(disk)
    {
      ok := Ancestors(Norm(s)) !! disk.files.Keys;
      if ok {
        disk := disk.(dirs := disk.dirs + Ancestors(Norm(s)));
      }
    }

    /** Fails on a path that is spelt as a directory or is one, and in a directory that does not exist. */
    method Write(s: string, data: Bytes) returns (ok: bool)
      modifies this
      ensures ok <==> Proper(s) && Norm(s) !in old(disk).dirs && Parent(Norm(s)) in old(disk).dirs
      ensures disk == if ok then old(disk).(files := old(disk).files[Norm(s) := data]) else old(disk)
    {
      ok := Proper(s) && Norm(s) !in disk.dirs && Parent(Norm(s)) in disk.dirs;
      if ok {
        disk := disk.(files := disk.files[Norm(s) := data]);
      }
    }

    method Read(s: string) returns (r: Result<Bytes>)
      ensures r == if Proper(s) && Norm(s) in disk.files then Ok(disk.files[Norm(s)]) else Err
    {
      r := if Proper(s) && Norm(s) in disk.files then Ok(disk.files[Norm(s)]) else Err;
    }

    /** Leaves a directory alone, and never removes the directories above a file. */
    method RemoveFile(s: string)
      modifies this
      ensures disk == if Proper(s) then old(disk).(files := old(disk).files - {Norm(s)}) else old(disk)
    {
      if Proper(s) {
        disk := disk.(files := disk.files - {Norm(s)});
      }
    }

    /** What is in a directory. */
    method ReadDir(dir: Path) returns (entries: set<Path>)
      ensures entries == Entries(disk, dir)
    {
      entries := Entries(disk, dir);
    }
  }

  function Entries(d: Disk, dir: Path): set<Path> {
    set p | p in d.files.Keys + d.dirs && p != "" && Parent(p) == dir
  }

  // ---------- The file-system store as functions of the disk ----------

  function LocalPut(c: Codec, d: Disk, key: Path, data: Bytes, metadata: Option<Metadata>): (Result<()>, Disk) {
    if !(Ancestors(key) !! d.files.Keys) || key in d.dirs then (Err, d)
    else
      var written := Disk(d.files[key := data], d.dirs + Ancestors(key));
      match metadata
      case None => (Ok(()), written)
      case Some(m) =>
        if Sidecar(key) in d.dirs then (Err, written)
        else (Ok(()), written.(files := written.files[Sidecar(key) := c.encode(m)]))
  }

  function LocalDelete(d: Disk, key: Path): Disk {
    d.(files := d.files - {key, Sidecar(key)})
  }

  function LocalGet(c: Codec, d: Disk, key: Path): Result<Option<Blob>> {
    if key in d.files then
      if Sidecar(key) in d.files then Ok(Some(Blob(d.files[key], GetOr(c.decode(d.files[Sidecar(key)]), DEFAULT))))
      else if Sidecar(key) in d.dirs then Err
      else Ok(Some(Blob(d.files[key], DEFAULT)))
    else if key in d.dirs then Err
    else Ok(None)
  }

  // A key is resolved first; one whose last component names nothing can only be a directory.

  function PutKey(c: Codec, d: Disk, key: string, data: Bytes, metadata: Option<Metadata>): (Result<()>, Disk) {
    match Resolved(key)
    case None => (Err, d)
    case Some(s) =>
      if Proper(s) then LocalPut(c, d, Norm(s), data, metadata)
      else (Err, if Ancestors(Norm(s)) !! d.files.Keys then d.(dirs := d.dirs + Ancestors(Norm(s))) else d)
  }

  function DeleteKey(d: Disk, key: string): (Result<()>, Disk) {
    match Resolved(key)
    case None => (Err, d)
    case Some(s) => (Ok(()), if Proper(s) then LocalDelete(d, Norm(s)) else d.(files := d.files - {Norm(Sidecar(s))}))
  }

  function GetKey(c: Codec, d: Disk, key: string): Result<Option<Blob>> {
    match Resolved(key)
    case None => Err
    case Some(s) => if Proper(s) then LocalGet(c, d, Norm(s)) else if Norm(s) in d.dirs then Err else Ok(None)
  }

  /** A normalised key is the path it names. */
  lemma NormalKey(c: Codec, d: Disk, key: Path, data: Bytes, metadata: Option<Metadata>)
    requires Normal(key)
    ensures PutKey(c, d, key, data, metadata) == LocalPut(c, d, key, data, metadata)
    ensures DeleteKey(d, key) == (Ok(()), LocalDelete(d, key))
    ensures GetKey(c, d, key) == LocalGet(c, d, key)
  {
    hide Resolved, Proper, Norm, LocalPut, LocalDelete, LocalGet;
  }

  /** Two dots in a row. */
  predicate HasDots(key: string) {
    exists i :: 0 <= i < |key| - 1 && key[i] == '.' && key[i + 1] == '.'
  }

  /** A key with two dots in a row is refused and changes nothing. */
  lemma DotsAreRefused(c: Codec, d: Disk, key: string, data: Bytes, metadata: Option<Metadata>)
    requires HasDots(key)
    ensures PutKey(c, d, key, data, metadata) == (Err, d) && GetKey(c, d, key) == Err && DeleteKey(d, key) == (Err, d)
  {
    var n := ResolvedInWords(key);
    hide Resolved;
  }

  lemma NoPath(d: Disk, key: string)
    requires Resolved(key).None?
    ensures DeleteKey(d, key) == (Err, d)
  {
    hide Resolved;
  }

  /** What a put does for a normalised key, shape by shape of the disk. */
  ghost predicate PutInWords(c: Codec, d: Disk, key: Path, data: Bytes, metadata: Option<Metadata>, r: Result<()>, d': Disk) {
    var side := key + ".meta.json";
    && (r.Ok? <==> (forall a | a in Ancestors(key) :: a !in d.files) && key !in d.dirs
                   && (metadata.Some? ==> side !in d.dirs))
    && (r.Ok? ==> d'.dirs == d.dirs + Ancestors(key)
                  && d'.files == if metadata.Some? then d.files[key := data][side := c.encode(metadata.value)]
                                 else d.files[key := data])
    && (r.Err? ==> d' == d || (metadata.Some? && side in d.dirs && d'.files == d.files[key := data]))
  }

  /** What a get answers. */
  ghost predicate GetInWords(c: Codec, d: Disk, key: Path, r: Result<Option<Blob>>) {
    var side := key + ".meta.json";
    if key in d.files && side in d.files then
      r == Ok(Some(Blob(d.files[key], GetOr(c.decode(d.files[side]), Metadata(None, map[])))))
    else if key in d.files && side !in d.dirs then r == Ok(Some(Blob(d.files[key], Metadata(None, map[]))))
    else if key in d.files || key in d.dirs then r.Err?
    else r == Ok(None)
  }

  /** What a delete does: the blob and its sidecar are gone, everything else stays. */
  ghost predicate DeleteInWords(d: Disk, key: Path, r: Result<()>, d': Disk) {
    r.Ok? && d'.dirs == d.dirs && d'.files == d.files - {key, key + ".meta.json"}
  }

  /** The three calls on a key with dots, and on a normalised one. */
  lemma AnyKeyInWords(c: Codec, d: Disk, key: string, data: Bytes, metadata: Option<Metadata>)
    ensures HasDots(key) ==>
              PutKey(c, d, key, data, metadata) == (Err, d) && GetKey(c, d, key) == Err && DeleteKey(d, key) == (Err, d)
    ensures Normal(key) ==>
              && PutInWords(c, d, key, data, metadata,
                            PutKey(c, d, key, data, metadata).0, PutKey(c, d, key, data, metadata).1)
              && GetInWords(c, d, key, GetKey(c, d, key))
              && DeleteInWords(d, key, DeleteKey(d, key).0, DeleteKey(d, key).1)
  {
    hide Normal, Ancestors, Resolved;
    if HasDots(key) {
      DotsAreRefused(c, d, key, data, metadata);
    }
    if Normal(key) {
      NormalKey(c, d, key, data, metadata);
      hide PutKey, GetKey, DeleteKey;
    }
  }

  /** The files a listing shows. */
  function Visible(d: Disk): set<Path> {
    set f | f in d.files && !IsSidecar(f)
  }

  // ---------- The walk ----------

  /** The directories found once the directories in `done` have been read. */
  function Reached(d: Disk, done: set<Path>): set<Path> {
    set p | p in d.dirs && (p == "" || Parent(p) in done)
  }

  /** What the listing has collected from the directories in `done`. */
  function Found(d: Disk, done: set<Path>, prefix: Option<string>): set<Path> {
    set f | f in d.files && Parent(f) in done && Listed(f, prefix)
  }

  predicate Listed(f: Path, prefix: Option<string>) {
    !IsSidecar(f) && Matches(prefix, f)
  }

  /** A walk that has read every directory it found has read the whole tree. */
  lemma {:induction false} WalkReachesAll(d: Disk, done: set<Path>, p: Path)
    requires Tree(d) && Reached(d, done) <= done && p in d.dirs
    ensures p in done
    decreases |p|
  {
    if p != "" {
      WalkReachesAll(d, done, Parent(p));
    }
  }

  lemma {:induction false} ParentsExist(d: Disk, p: Path)
    requires Tree(d) && Exists(d, p)
    ensures Ancestors(p) <= d.dirs
    decreases |p|
  {
    if p != "" {
      ParentsExist(d, Parent(p));
    }
  }

  lemma OneMore(s: set<Path>, p: Path)
    requires p !in s
    ensures multiset(s + {p}) == multiset(s) + multiset{p}
  {
  }

  /** The entries seen so far, parted into directories and files to list. */
  ghost predicate Parted(d: Disk, seen: set<Path>, pushed: set<Path>, found: set<Path>, prefix: Option<string>) {
    && pushed <= seen && found <= seen
    && forall p | p in seen ::
         (p in pushed <==> p in d.dirs) && (p in found <==> p !in d.dirs && !IsSidecar(p) && Matches(prefix, p))
  }

  lemma NothingSeen(d: Disk, prefix: Option<string>)
    ensures Parted(d, {}, {}, {}, prefix)
  {
  }

  lemma SeeOne(d: Disk, seen: set<Path>, pushed: set<Path>, found: set<Path>, prefix: Option<string>, p: Path)
    requires Parted(d, seen, pushed, found, prefix) && p !in seen
    ensures multiset(pushed + {p}) == multiset(pushed) + multiset{p}
    ensures multiset(found + {p}) == multiset(found) + multiset{p}
    ensures Parted(d, seen + {p}, if p in d.dirs then pushed + {p} else pushed,
                   if p !in d.dirs && !IsSidecar(p) && Matches(prefix, p) then found + {p} else found, prefix)
  {
    hide IsSidecar, Matches;
    OneMore(pushed, p);
    OneMore(found, p);
  }

  lemma PartedAll(d: Disk, dir: Path, pushed: set<Path>, found: set<Path>, prefix: Option<string>)
    requires Parted(d, Entries(d, dir), pushed, found, prefix)
    ensures pushed == Entries(d, dir) * d.dirs
    ensures Tree(d) ==> found == Found(d, {dir}, prefix)
  {
    hide IsSidecar, Matches;
  }

  lemma PutPaths(d: Disk, key: Path)
    requires Tree(d) && key != ""
    ensures Parent(key) in Ancestors(key) && Parent(Sidecar(key)) in Ancestors(key)
    ensures key !in Ancestors(key) && Sidecar(key) !in Ancestors(key)
    ensures key in d.dirs ==> Ancestors(key) <= d.dirs && Ancestors(key) !! d.files.Keys && d.dirs + Ancestors(key) == d.dirs
  {
    SidecarIsBeside(key);
    AncestorsAreShorter(key);
    if key in d.dirs {
      ParentsExist(d, key);
    }
  }

  /** The two paths of a blob as they are spelt. */
  lemma SpeltPaths(d: Disk, s: string)
    requires Tree(d)
    ensures Proper(s + SUFFIX)
    ensures Proper(s) ==> Norm(s + SUFFIX) == Sidecar(Norm(s)) && Norm(s) != ""
    ensures Proper(s) ==>
              var key := Norm(s);
              && Parent(key) in Ancestors(key) && Parent(Sidecar(key)) in Ancestors(key)
              && key !in Ancestors(key) && Sidecar(key) !in Ancestors(key)
              && (key in d.dirs ==> Ancestors(key) <= d.dirs && Ancestors(key) !! d.files.Keys && d.dirs + Ancestors(key) == d.dirs)
  {
    NameAppended(s, SUFFIX);
    assert |FileName(s + SUFFIX)| > 1;
    if Proper(s) {
      NormAppended(s, SUFFIX);
      PutPaths(d, Norm(s));
    }
  }

  class LocalBlobStore {
    const codec: Codec
    const fs: FileSystem

    constructor (codec: Codec, fs: FileSystem)
      ensures this.codec == codec && this.fs == fs
    {
      this.codec, this.fs := codec, fs;
    }

    method Put(key: string, data: Bytes, metadata: Option<Metadata>) returns (r: Result<()>)
      requires Below(key) && Tree(fs.disk)
      modifies fs
      ensures (r, fs.disk) == PutKey(codec, old(fs.disk), key, data, metadata)
      ensures HasDots(key) ==> r.Err? && fs.disk == old(fs.disk)
      ensures Normal(key) ==> PutInWords(codec, old(fs.disk), key, data, metadata, r, fs.disk)
    {
      AnyKeyInWords(codec, fs.disk, key, data, metadata);
      hide Below, Resolved, Ancestors, Parent, Tree, Norm, Proper, Normal, HasDots, GetInWords, PutInWords, DeleteInWords;
      hide GetKey, LocalGet, DeleteKey, LocalDelete;
      var clean := Resolved(key);
      if clean.None? {
        return Err;
      }
      var blobPath := clean.value;
      SpeltPaths(fs.disk, blobPath);
      var ok := fs.CreateParents(blobPath);
      if !ok {
        return Err;
      }
      ok := fs.Write(blobPath, data);
      if !ok {
        return Err;
      }
      if metadata.Some? {
        ok := fs.Write(blobPath + SUFFIX, codec.encode(metadata.value));
        if !ok {
          return Err;
        }
      }
      return Ok(());
    }

    method Get(key: string) returns (r: Result<Option<Blob>>)
      requires Below(key) && Tree(fs.disk)
      ensures r == GetKey(codec, fs.disk, key)
      ensures HasDots(key) ==> r.Err?
      ensures Normal(key) ==> GetInWords(codec, fs.disk, key, r)
    {
      AnyKeyInWords(codec, fs.disk, key, [], None);
      hide Below, Resolved, Ancestors, Parent, Norm, Proper, Normal, HasDots, GetInWords, PutInWords, DeleteInWords;
      hide PutKey, LocalPut, DeleteKey, LocalDelete;
      var clean := Resolved(key);
      if clean.None? {
        return Err;
      }
      var blobPath := clean.value;
      SpeltPaths(fs.disk, blobPath);
      if !Names(fs.disk, blobPath) {
        return Ok(None);
      }
      var data := fs.Read(blobPath);
      if data.Err? {
        return Err;
      }
      var metadata := DEFAULT;
      if Names(fs.disk, blobPath + SUFFIX) {
        var bytes := fs.Read(blobPath + SUFFIX);
        if bytes.Err? {
          return Err;
        }
        metadata := GetOr(codec.decode(bytes.value), DEFAULT);
      }
      return Ok(Some(Blob(data.value, metadata)));
    }

    method Delete(key: string) returns (r: Result<()>)
      requires Below(key) && Tree(fs.disk)
      modifies fs
      ensures (r, fs.disk) == DeleteKey(old(fs.disk), key)
      ensures HasDots(key) ==> r.Err? && fs.disk == old(fs.disk)
      ensures Normal(key) ==> DeleteInWords(old(fs.disk), key, r, fs.disk)
    {
      AnyKeyInWords(codec, fs.disk, key, [], None);
      hide *;
      var clean := Resolved(key);
      if clean.None? {
        NoPath(fs.disk, key);
        return Err;
      }
      RemoveBoth(key, clean.value);
      return Ok(());
    }

    /** Removes the file of the blob, and that of its metadata, where there is one. */
    method RemoveBoth(ghost key: string, blobPath: string)
      requires Below(key) && Tree(fs.disk) && Resolved(key) == Some(blobPath)
      modifies fs
      ensures (Ok(()), fs.disk) == DeleteKey(old(fs.disk), key)
    {
      hide Below, Resolved, Ancestors, Parent, Norm, Proper;
      SpeltPaths(fs.disk, blobPath);
      if Names(fs.disk, blobPath) {
        fs.RemoveFile(blobPath);
      }
      if Names(fs.disk, blobPath + SUFFIX) {
        fs.RemoveFile(blobPath + SUFFIX);
      }
      assert fs.disk.files == DeleteKey(old(fs.disk), key).1.files;
    }

    /** One directory of the walk: its sub-directories go on the stack, its matching files into the
        results, in whatever order the entries come. */
    method VisitDir(dir: Path, stack: seq<Path>, results: seq<Path>, prefix: Option<string>)
      returns (stack': seq<Path>, results': seq<Path>)
      ensures multiset(stack') == multiset(stack) + multiset(Entries(fs.disk, dir) * fs.disk.dirs)
      ensures Tree(fs.disk) ==>
                multiset(results') == multiset(results) + multiset(Found(fs.disk, {dir}, prefix))
    {
      hide Entries, IsSidecar, Matches, Parted;
      var d := fs.disk;
      var entries := fs.ReadDir(dir);
      stack', results' := stack, results;
      ghost var pushed, found, seen: set<Path> := {}, {}, {};
      ghost var all := entries;
      NothingSeen(d, prefix);
      while entries != {}
        invariant seen !! entries && seen + entries == all
        invariant Parted(d, seen, pushed, found, prefix)
        invariant multiset(stack') == multiset(stack) + multiset(pushed)
        invariant multiset(results') == multiset(results) + multiset(found)
        decreases entries
      {
        var path :| path in entries;
        entries := entries - {path};
        SeeOne(d, seen, pushed, found, prefix, path);
        seen := seen + {path};
        if path in d.dirs {
          stack' := stack' + [path];
          pushed := pushed + {path};
        } else if !IsSidecar(path) {
          if Matches(prefix, path) {
            results' := results' + [path];
            found := found + {path};
          }
        }
      }
      PartedAll(d, dir, pushed, found, prefix);
    }

    /** The keys that are files of the tree but not sidecars, sorted, each once. */
    method List(prefix: Option<string>) returns (keys: seq<Path>)
      requires Tree(fs.disk)
      ensures IsListing(keys, Visible(fs.disk), prefix)
      ensures forall k :: k in keys <==>
                && k in fs.disk.files && !(|k| >= 10 && k[|k| - 10..] == ".meta.json")
                && (prefix.Some? ==> prefix.value <= k)
      ensures forall i, j | 0 <= i < j < |keys| ::
                keys[i] != keys[j] && (keys[i] <= keys[j] || exists n :: SmallerAt(keys[i], keys[j], n))
    {
      keys := WalkTree(prefix);
      ListingInWords(keys, Visible(fs.disk), prefix);
      forall k ensures IsSidecar(k) <==> |k| >= 10 && k[|k| - 10..] == ".meta.json" {
        NameEndsAsPath(k, SUFFIX);
      }
      hide IsSidecar, IsListing, Tree;
    }

    /** The walk with a stack of directories, and the sort of what it collects. */
    method WalkTree(prefix: Option<string>) returns (keys: seq<Path>)
      requires Tree(fs.disk)
      ensures IsListing(keys, Visible(fs.disk), prefix)
    {
      var d := fs.disk;
      StringLeIsOrder();
      hide Walking, Tree, Visible, Sorting.TotalOrder, Sorting.SortedBy, Found, Entries;
      if !Exists(d, "") {
        NothingWithoutBase(d, prefix);
        return [];
      }
      var results: seq<Path> := [];
      var stack := [""];
      ghost var done: set<Path> := {};
      WalkStarts(d, prefix);
      while stack != []
        invariant Walking(d, stack, results, done, prefix)
        decreases d.dirs - done
      {
        var dir := stack[|stack| - 1];
        ghost var before, had := stack, results;
        stack, results := VisitDir(dir, stack[..|stack| - 1], results, prefix);
        ReadOne(d, before, had, done, stack, results, prefix);
        done := done + {dir};
      }
      WalkEnds(d, results, done, prefix);
      keys := Sorting.Sort(StringLe, results);
    }
  }

  /** The stack holds, each once, the directories found but not read; the results hold, each once,
      what the directories read contain. */
  ghost predicate Walking(d: Disk, stack: seq<Path>, results: seq<Path>, done: set<Path>, prefix: Option<string>) {
    && done <= Reached(d, done)
    && multiset(stack) == multiset(Reached(d, done) - done)
    && multiset(results) == multiset(Found(d, done, prefix))
  }

  lemma NothingWithoutBase(d: Disk, prefix: Option<string>)
    requires Tree(d) && "" !in d.dirs
    ensures IsListing([], Visible(d), prefix)
  {
    forall f ensures f !in d.files {
      if f in d.files {
        ParentsExist(d, f);
        AncestorsAreShorter(f);
        assert false;
      }
    }
    assert (set k | k in Visible(d) && Matches(prefix, k)) == {};
  }

  lemma WalkStarts(d: Disk, prefix: Option<string>)
    requires Tree(d) && "" in d.dirs
    ensures Walking(d, [""], [], {}, prefix)
  {
    assert Reached(d, {}) - {} == {""} && Found(d, {}, prefix) == {};
  }

  lemma PopOne(stack: seq<Path>, waiting: set<Path>)
    requires stack != [] && multiset(stack) == multiset(waiting)
    ensures stack[|stack| - 1] in waiting
    ensures multiset(stack[..|stack| - 1]) == multiset(waiting - {stack[|stack| - 1]})
  {
    var dir := stack[|stack| - 1];
    assert stack == stack[..|stack| - 1] + [dir] && dir in multiset(stack);
    OneMore(waiting - {dir}, dir);
    assert waiting - {dir} + {dir} == waiting;
    assert multiset(stack[..|stack| - 1]) == multiset(stack) - multiset{dir};
  }

  lemma Unite(s: set<Path>, t: set<Path>, u: set<Path>)
    requires s !! t && u == s + t
    ensures multiset(u) == multiset(s) + multiset(t)
  {
  }

  /** Reading the directory on top of the stack finds new directories and new files. */
  lemma ReadOne(d: Disk, stack: seq<Path>, results: seq<Path>, done: set<Path>, stack': seq<Path>, results': seq<Path>,
                prefix: Option<string>)
    requires Walking(d, stack, results, done, prefix) && stack != []
    requires var dir := stack[|stack| - 1];
             && multiset(stack') == multiset(stack[..|stack| - 1]) + multiset(Entries(d, dir) * d.dirs)
             && multiset(results') == multiset(results) + multiset(Found(d, {dir}, prefix))
    ensures stack[|stack| - 1] in d.dirs - done
    ensures Walking(d, stack', results', done + {stack[|stack| - 1]}, prefix)
  {
    var dir := stack[|stack| - 1];
    var waiting := Reached(d, done) - done;
    PopOne(stack, waiting);
    hide IsSidecar, Matches, Parent;
    Unite(Found(d, done, prefix), Found(d, {dir}, prefix), Found(d, done + {dir}, prefix));
    Unite(waiting - {dir}, Entries(d, dir) * d.dirs, Reached(d, done + {dir}) - (done + {dir}));
  }

  lemma WalkEnds(d: Disk, results: seq<Path>, done: set<Path>, prefix: Option<string>)
    requires Tree(d) && Walking(d, [], results, done, prefix)
    ensures multiset(results) == multiset(set k | k in Visible(d) && Matches(prefix, k))
  {
    hide IsSidecar, Matches;
    var waiting := Reached(d, done) - done;
    forall p ensures p !in waiting {
      assert p in waiting <==> p in multiset(waiting);
    }
    assert Reached(d, done) <= done by {
      forall p | p in Reached(d, done) ensures p in done {
        assert p !in waiting;
      }
    }
    forall p | p in d.dirs ensures p in done {
      WalkReachesAll(d, done, p);
    }
    assert Found(d, done, prefix) == set k | k in Visible(d) && Matches(prefix, k);
  }

  // ---------- Puts keep the tree ----------

  /** The first n characters' worth of the directories above a key. */
  function Upper(key: Path, n: nat): set<Path> {
    set a | a in Ancestors(key) && |a| <= n
  }

  lemma DirsKeepTree(d: Disk, key: Path, n: nat)
    requires Tree(d) && key != "" && Ancestors(key) !! d.files.Keys
    ensures Tree(d.(dirs := d.dirs + Upper(key, n)))
    ensures |key| <= n ==> Upper(key, n) == Ancestors(key)
  {
    ParentsOfAncestors(key);
    AncestorsAreShorter(key);
    hide Ancestors, Parent;
  }

  lemma FileKeepsTree(d: Disk, p: Path, data: Bytes)
    requires Tree(d) && p != "" && p !in d.dirs && Parent(p) in d.dirs
    ensures Tree(d.(files := d.files[p := data]))
  {
    hide Parent;
  }

  lemma PutKeepsTree(c: Codec, d: Disk, key: Path, data: Bytes, metadata: Option<Metadata>)
    requires Tree(d) && key != ""
    ensures Tree(LocalPut(c, d, key, data, metadata).1)
  {
    PutPaths(d, key);
    hide Tree, Ancestors, Parent;
    if Ancestors(key) !! d.files.Keys && key !in d.dirs {
      DirsKeepTree(d, key, |key|);
      FileKeepsTree(d.(dirs := d.dirs + Ancestors(key)), key, data);
      if metadata.Some? && Sidecar(key) !in d.dirs {
        var written := Disk(d.files[key := data], d.dirs + Ancestors(key));
        FileKeepsTree(written, Sidecar(key), c.encode(metadata.value));
      }
    }
  }

  /** After a put that succeeded, a get answers unless a directory has the sidecar's name; it answers
      the data just put, with the metadata just put or, when none was given, what the sidecar says. */
  lemma PutThenGet(c: Codec, d: Disk, key: Path, data: Bytes, metadata: Option<Metadata>)
    requires Tree(d) && key != "" && RoundTrips(c)
    requires LocalPut(c, d, key, data, metadata).0.Ok?
    ensures var after := LocalPut(c, d, key, data, metadata).1;
            && (LocalGet(c, after, key).Ok? <==> Sidecar(key) !in d.dirs)
            && (LocalGet(c, after, key).Ok? ==>
                  LocalGet(c, after, key).value ==
                  Some(Blob(data, GetOr(metadata,
                                        if Sidecar(key) in d.files
                                        then GetOr(c.decode(d.files[Sidecar(key)]), DEFAULT) else DEFAULT))))
  {
    PutPaths(d, key);
    assert Sidecar(key) != key;
    hide Ancestors, Parent, Sidecar, Tree;
  }

  // ---------- The in-memory store ----------

  type Blobs = map<Path, Blob>

  class MemoryBlobStore {
    var blobs: Blobs

    constructor ()
      ensures blobs == map[]
    {
      blobs := map[];
    }

    method Put(key: Path, data: Bytes, metadata: Option<Metadata>)
      modifies this
      ensures blobs == old(blobs)[key := Blob(data, GetOr(metadata, DEFAULT))]
    {
      blobs := blobs[key := Blob(data, GetOr(metadata, DEFAULT))];
    }

    method Get(key: Path) returns (r: Option<Blob>)
      ensures r == if key in blobs then Some(blobs[key]) else None
    {
      r := if key in blobs then Some(blobs[key]) else None;
    }

    method Delete(key: Path)
      modifies this
      ensures blobs == old(blobs) - {key}
    {
      blobs := blobs - {key};
    }

    method List(prefix: Option<string>) returns (keys: seq<Path>)
      ensures IsListing(keys, blobs.Keys, prefix)
      ensures forall k :: k in keys <==> k in blobs && (prefix.Some? ==> prefix.value <= k)
      ensures forall i, j | 0 <= i < j < |keys| ::
                keys[i] != keys[j] && (keys[i] <= keys[j] || exists n :: SmallerAt(keys[i], keys[j], n))
    {
      StringLeIsOrder();
      var all := blobs.Keys;
      var kept: seq<Path> := [];
      while all != {}
        invariant all <= blobs.Keys
        invariant multiset(kept) == multiset(set k | k in blobs.Keys - all && Matches(prefix, k))
        decreases all
      {
        var k :| k in all;
        ghost var before := set j | j in blobs.Keys - all && Matches(prefix, j);
        all := all - {k};
        ghost var now := set j | j in blobs.Keys - all && Matches(prefix, j);
        if Matches(prefix, k) {
          assert now == before + {k} && k !in before;
          kept := kept + [k];
        } else {
          assert now == before;
        }
      }
      assert blobs.Keys - all == blobs.Keys;
      keys := Sorting.Sort(StringLe, kept);
      ListingInWords(keys, blobs.Keys, prefix);
    }
  }
}
