/** Slash-separated paths below the base directory of the file-system blob store, as the strings the
    store handles. The base directory itself is the empty path. */
module Paths {
  import opened Wrappers
  import Sorting

  type Path = string

  /** A blob's metadata is kept beside it, in a file of the same name with this suffix. */
  const SUFFIX := ".meta.json"

  function Parent(p: Path): (d: Path)
    ensures p != "" ==> |d| < |p|
  {
    if p == "" then ""
    else if p[|p| - 1] == '/' then p[..|p| - 1]
    else Parent(p[..|p| - 1])
  }

  function FileName(p: Path): string {
    if p == "" || p[|p| - 1] == '/' then "" else FileName(p[..|p| - 1]) + [p[|p| - 1]]
  }

  /** Every directory on the way from the base to p, the base included and p excluded. */
  function Ancestors(p: Path): set<Path>
    decreases |p|
  {
    if p == "" then {} else {Parent(p)} + Ancestors(Parent(p))
  }

  function Sidecar(p: Path): Path {
    p + SUFFIX
  }

  predicate EndsWith(s: string, w: string) {
    |w| <= |s| && s[|s| - |w|..] == w
  }

  predicate IsSidecar(p: Path) {
    EndsWith(FileName(p), SUFFIX)
  }

  // ---------- From a key to a path ----------

  function TrimSlashes(s: string): string {
    if s != "" && s[0] == '/' then TrimSlashes(s[1..]) else s
  }

  function ForwardSlashes(s: string): string {
    seq(|s|, i requires 0 <= i < |s| => if s[i] == '\\' then '/' else s[i])
  }

  /** What the store makes of a key, before it joins it to the base directory: None is the error. */
  function Resolved(key: string): Option<string> {
    var clean := ForwardSlashes(TrimSlashes(key));
    if exists i | 0 <= i < |clean| - 1 :: clean[i] == clean[i + 1] == '.' then None else Some(clean)
  }

  /** The joined path stays below the base: it does not itself start at the root. */
  predicate Below(key: string) {
    Resolved(key).Some? && Resolved(key).value != "" ==> Resolved(key).value[0] != '/'
  }

  /** The path the operating system follows: without empty and single-dot components. */
  function Norm(s: string): Path
    decreases |s|
  {
    if s == "" then ""
    else
      var d := Norm(Parent(s));
      if !Proper(s) then d else if d == "" then FileName(s) else d + "/" + FileName(s)
  }

  /** The string names something by its last component; otherwise it can only name a directory. */
  predicate Proper(s: string) {
    FileName(s) != "" && FileName(s) != "."
  }

  /** A key that is its own path. */
  predicate Normal(key: Path) {
    Resolved(key) == Some(key) && Proper(key) && Norm(key) == key
  }

  lemma {:induction false} NameAppended(p: Path, w: string)
    requires '/' !in w
    ensures FileName(p + w) == FileName(p) + w
    ensures p != "" ==> Parent(p + w) == Parent(p)
    decreases |w|
  {
    if w == "" {
      assert p + w == p;
    } else {
      var v, c := w[..|w| - 1], w[|w| - 1];
      assert w == v + [c] && (p + w)[..|p + w| - 1] == p + v;
      NameAppended(p, v);
    }
  }

  /** Appending a suffix to a key appends it to the path. */
  lemma NormAppended(s: string, w: string)
    requires Proper(s) && '/' !in w
    ensures Proper(s + w) && Norm(s + w) == Norm(s) + w && Norm(s) != ""
  {
    NameAppended(s, w);
    assert FileName(s + w)[0] == FileName(s)[0] && |FileName(s + w)| == |FileName(s)| + |w|;
  }

  lemma OneMoreChar(t: string, c: char)
    requires c != '/'
    ensures FileName(t + [c]) == FileName(t) + [c] && Parent(t + [c]) == Parent(t)
  {
    assert (t + [c])[..|t|] == t;
  }

  lemma SlashEnds(s: string)
    ensures FileName(s + "/") == "" && Parent(s + "/") == s
  {
    assert (s + "/")[..|s|] == s;
  }

  /** The last component and the directory above it. */
  lemma {:induction false} LastComponent(s: string, name: string)
    requires '/' !in name
    ensures FileName(s + "/" + name) == name && Parent(s + "/" + name) == s
    ensures FileName(name) == name && Parent(name) == ""
    decreases |name|
  {
    if name == "" {
      SlashEnds(s);
      assert s + "/" + name == s + "/";
    } else {
      hide FileName, Parent;
      var v, c := name[..|name| - 1], name[|name| - 1];
      LastComponent(s, v);
      OneMoreChar(s + "/" + v, c);
      OneMoreChar(v, c);
      assert name == v + [c] && s + "/" + name == (s + "/" + v) + [c];
    }
  }

  /** The path of a string, component by component: empty ones and single dots are left out. */
  lemma NormOfComponents(s: string, name: string)
    requires '/' !in name
    ensures Norm("") == ""
    ensures Norm(name) == if name == "" || name == "." then "" else name
    ensures Norm(s + "/" + name) ==
            if name == "" || name == "." then Norm(s) else if Norm(s) == "" then name else Norm(s) + "/" + name
  {
    LastComponent(s, name);
    hide Parent, FileName;
  }

  lemma {:induction false} TrimmedFrom(s: string) returns (n: nat)
    ensures n <= |s| && TrimSlashes(s) == s[n..]
    ensures (forall i | 0 <= i < n :: s[i] == '/') && (n < |s| ==> s[n] != '/')
  {
    n := 0;
    if s != "" && s[0] == '/' {
      n := TrimmedFrom(s[1..]);
      n := n + 1;
      assert s[1..][n - 1..] == s[n..];
      forall i | 0 <= i < n ensures s[i] == '/' {
        assert i > 0 ==> s[1..][i - 1] == '/';
      }
    }
  }

  /** A key is refused exactly if it contains two dots in a row. Else its leading slashes go, n of them,
      and every backslash becomes a slash. */
  lemma ResolvedInWords(key: string) returns (n: nat)
    ensures Resolved(key).None? <==> exists i :: 0 <= i < |key| - 1 && key[i] == '.' && key[i + 1] == '.'
    ensures n <= |key| && (forall i | 0 <= i < n :: key[i] == '/') && (n < |key| ==> key[n] != '/')
    ensures Resolved(key).Some? ==>
              var s := Resolved(key).value;
              |s| == |key| - n && forall j | 0 <= j < |s| :: s[j] == if key[n + j] == '\\' then '/' else key[n + j]
  {
    n := TrimmedFrom(key);
    hide TrimSlashes;
    var clean := ForwardSlashes(TrimSlashes(key));
    assert |clean| == |key| - n;
    assert forall j | 0 <= j < |clean| :: clean[j] == if key[n + j] == '\\' then '/' else key[n + j];
    if i :| 0 <= i < |key| - 1 && key[i] == '.' && key[i + 1] == '.' {
      assert clean[i - n] == clean[i - n + 1] == '.';
    }
    if i :| 0 <= i < |clean| - 1 && clean[i] == clean[i + 1] == '.' {
      assert key[n + i] == '.' && key[n + i + 1] == '.';
    }
  }

  lemma SidecarIsBeside(p: Path)
    requires p != ""
    ensures IsSidecar(Sidecar(p)) && Parent(Sidecar(p)) == Parent(p) && Ancestors(Sidecar(p)) == Ancestors(p)
  {
    NameAppended(p, SUFFIX);
  }

  lemma SidecarsDiffer(j: Path, k: Path)
    requires j != k
    ensures Sidecar(j) != Sidecar(k)
  {
    assert Sidecar(j)[..|j|] == j && Sidecar(k)[..|k|] == k;
  }

  /** The test on the file name is a test on the whole path. */
  lemma {:induction false} NameEndsAsPath(p: Path, w: string)
    requires '/' !in w
    ensures EndsWith(FileName(p), w) <==> EndsWith(p, w)
  {
    if w != "" && p != "" {
      var q, c, v, z := p[..|p| - 1], p[|p| - 1], w[..|w| - 1], w[|w| - 1];
      LastEnds(p, w);
      if c != '/' {
        LastEnds(FileName(p), w);
        NameEndsAsPath(q, v);
      }
    }
  }

  lemma LastEnds(s: string, w: string)
    requires s != "" && w != ""
    ensures EndsWith(s, w) <==> s[|s| - 1] == w[|w| - 1] && EndsWith(s[..|s| - 1], w[..|w| - 1])
  {
    if |w| <= |s| {
      var t, u := s[|s| - |w|..], s[..|s| - 1][|s| - |w|..];
      assert t == u + [s[|s| - 1]] && w == w[..|w| - 1] + [w[|w| - 1]];
    }
  }

  lemma {:induction false} AncestorsAreShorter(p: Path)
    ensures forall a | a in Ancestors(p) :: |a| < |p| && Ancestors(a) <= Ancestors(p)
    ensures p != "" ==> "" in Ancestors(p)
    decreases |p|
  {
    if p != "" {
      AncestorsAreShorter(Parent(p));
    }
  }

  lemma {:induction false} ParentsOfAncestors(p: Path)
    ensures forall a | a in Ancestors(p) && a != "" :: Parent(a) in Ancestors(p)
    decreases |p|
  {
    if p != "" {
      ParentsOfAncestors(Parent(p));
    }
  }

  // ---------- The order of the listings ----------

  /** Comparison of strings by their first difference. */
  predicate StringLe(a: string, b: string) {
    a == "" || (b != "" && (a[0] < b[0] || (a[0] == b[0] && StringLe(a[1..], b[1..]))))
  }

  /** The strings agree before position n, and a has the smaller character there. */
  predicate SmallerAt(a: string, b: string, n: nat) {
    n < |a| && n < |b| && a[..n] == b[..n] && a[n] < b[n]
  }

  /** a is not behind b exactly if b starts with a, or a has the smaller character at the first difference. */
  lemma {:induction false} StringLeMeaning(a: string, b: string)
    ensures StringLe(a, b) <==> a <= b || exists n :: SmallerAt(a, b, n)
  {
    if a != "" && b != "" {
      var s, t := a[1..], b[1..];
      assert a == [a[0]] + s && b == [b[0]] + t;
      if a[0] == b[0] {
        StringLeMeaning(s, t);
        hide StringLe;
        if n: nat :| SmallerAt(a, b, n) {
          assert n > 0 && s[..n - 1] == a[..n][1..] && t[..n - 1] == b[..n][1..];
          assert SmallerAt(s, t, n - 1);
        }
        if n: nat :| SmallerAt(s, t, n) {
          assert a[..n + 1] == [a[0]] + s[..n] && b[..n + 1] == [b[0]] + t[..n];
          assert SmallerAt(a, b, n + 1);
        }
        assert a <= b <==> s <= t;
      } else if a[0] < b[0] {
        assert SmallerAt(a, b, 0);
      } else {
        forall n: nat ensures !SmallerAt(a, b, n) {
          assert 0 < n <= |a| && n <= |b| ==> a[..n][0] == a[0] && b[..n][0] == b[0];
        }
      }
    }
  }

  lemma {:induction false} StringLeIsTotal(a: string, b: string)
    ensures StringLe(a, b) || StringLe(b, a)
    ensures StringLe(a, b) && StringLe(b, a) ==> a == b
  {
    if a != "" && b != "" {
      StringLeIsTotal(a[1..], b[1..]);
      assert a == [a[0]] + a[1..] && b == [b[0]] + b[1..];
    }
  }

  lemma {:induction false} StringLeIsTransitive(a: string, b: string, c: string)
    requires StringLe(a, b) && StringLe(b, c)
    ensures StringLe(a, c)
  {
    if a != "" && a[0] == b[0] == c[0] {
      StringLeIsTransitive(a[1..], b[1..], c[1..]);
    }
  }

  lemma StringLeIsOrder()
    ensures Sorting.TotalOrder(StringLe)
  {
    hide StringLe;
    forall a, b
      ensures StringLe(a, b) || StringLe(b, a)
      ensures StringLe(a, b) && StringLe(b, a) ==> a == b
    {
      StringLeIsTotal(a, b);
    }
    forall a, b, c | StringLe(a, b) && StringLe(b, c) ensures StringLe(a, c) {
      StringLeIsTransitive(a, b, c);
    }
  }
}
