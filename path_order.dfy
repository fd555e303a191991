/**
 * The ordering `sorted` uses on paths: Python compares two paths by their
 * lists of parts, lexicographically, and two parts as strings, by code point.
 */
module PathOrder {
  import opened Tiers

  /** Python's `<` on strings. */
  predicate StrLt(a: string, b: string) {
    if |a| == 0 then |b| > 0
    else if |b| == 0 then false
    else if a[0] != b[0] then a[0] < b[0]
    else StrLt(a[1..], b[1..])
  }

  /** Python's `<` on the part lists of two paths. */
  predicate PathLt(a: Path, b: Path) {
    if |a| == 0 then |b| > 0
    else if |b| == 0 then false
    else if a[0] != b[0] then StrLt(a[0], b[0])
    else PathLt(a[1..], b[1..])
  }

  predicate PathLe(a: Path, b: Path) {
    a == b || PathLt(a, b)
  }

  lemma {:induction false} StrLtIrreflexive(a: string)
    ensures !StrLt(a, a)
  {
    if |a| > 0 {
      StrLtIrreflexive(a[1..]);
    }
  }

  lemma {:induction false} StrLtTransitive(a: string, b: string, c: string)
    requires StrLt(a, b) && StrLt(b, c)
    ensures StrLt(a, c)
  {
    if |a| > 0 && a[0] == b[0] && b[0] == c[0] {
      StrLtTransitive(a[1..], b[1..], c[1..]);
    }
  }

  lemma {:induction false} StrLtTotal(a: string, b: string)
    requires a != b
    ensures StrLt(a, b) || StrLt(b, a)
  {
    if |a| > 0 && |b| > 0 && a[0] == b[0] {
      assert a == [a[0]] + a[1..] && b == [b[0]] + b[1..];
      StrLtTotal(a[1..], b[1..]);
    }
  }

  lemma {:induction false} PathLtIrreflexive(a: Path)
    ensures !PathLt(a, a)
  {
    if |a| > 0 {
      PathLtIrreflexive(a[1..]);
    }
  }

  lemma {:induction false} PathLtTransitive(a: Path, b: Path, c: Path)
    requires PathLt(a, b) && PathLt(b, c)
    ensures PathLt(a, c)
  {
    if |a| > 0 && |b| > 0 && |c| > 0 {
      if a[0] == b[0] && b[0] == c[0] {
        PathLtTransitive(a[1..], b[1..], c[1..]);
      } else if a[0] != b[0] && b[0] != c[0] {
        StrLtTransitive(a[0], b[0], c[0]);
        if a[0] == c[0] {
          StrLtIrreflexive(a[0]);
        }
      }
    }
  }

  lemma {:induction false} PathLtTotal(a: Path, b: Path)
    requires a != b
    ensures PathLt(a, b) || PathLt(b, a)
  {
    if |a| > 0 && |b| > 0 {
      if a[0] == b[0] {
        assert a == [a[0]] + a[1..] && b == [b[0]] + b[1..];
        PathLtTotal(a[1..], b[1..]);
      } else {
        StrLtTotal(a[0], b[0]);
      }
    }
  }

  lemma PathLtAsymmetric(a: Path, b: Path)
    requires PathLt(a, b)
    ensures !PathLt(b, a)
  {
    if PathLt(b, a) {
      PathLtTransitive(a, b, a);
      PathLtIrreflexive(a);
    }
  }

  lemma PathLeTransitive(a: Path, b: Path, c: Path)
    requires PathLe(a, b) && PathLe(b, c)
    ensures PathLe(a, c)
  {
    if a != b && b != c {
      PathLtTransitive(a, b, c);
    }
  }

  predicate Sorted(s: seq<Path>) {
    forall i, j :: 0 <= i < j < |s| ==> PathLe(s[i], s[j])
  }

  /** Inserts `x` into the sorted `s` before the first element not below it. */
  function Insert(x: Path, s: seq<Path>): (r: seq<Path>)
    requires Sorted(s)
    ensures Sorted(r)
    ensures multiset(r) == multiset(s) + multiset{x}
  {
    if s == [] then [x]
    else if PathLe(x, s[0]) then
      forall j | 0 <= j < |s| ensures PathLe(x, s[j]) {
        PathLeTransitive(x, s[0], s[j]);
      }
      [x] + s
    else
      PathLtTotal(x, s[0]);
      var rest := Insert(x, s[1..]);
      assert s == [s[0]] + s[1..];
      forall j | 0 <= j < |rest| ensures PathLe(s[0], rest[j]) {
        assert rest[j] in multiset(rest);
      }
      [s[0]] + rest
  }

  /** `sorted(paths)`: the paths in ascending order, each kept as often as it occurs. */
  function SortPaths(s: seq<Path>): (r: seq<Path>)
    ensures Sorted(r)
    ensures multiset(r) == multiset(s)
  {
    if s == [] then []
    else
      assert s == [s[0]] + s[1..];
      Insert(s[0], SortPaths(s[1..]))
  }

  /**
   * There is only one sorted arrangement of a multiset of paths, so
   * SortPaths gives what `sorted` gives, whatever algorithm computes it.
   */
  lemma {:induction false} SortedUnique(a: seq<Path>, b: seq<Path>)
    requires Sorted(a) && Sorted(b)
    requires multiset(a) == multiset(b)
    ensures a == b
  {
    if a == [] {
      assert |b| == |multiset(b)| == 0;
    } else {
      assert |b| == |multiset(b)| == |a|;
      SameFirst(a, b);
      MultisetTail(a);
      MultisetTail(b);
      SortedUnique(a[1..], b[1..]);
      assert a == [a[0]] + a[1..] && b == [b[0]] + b[1..];
    }
  }

  /** Two sorted arrangements of one multiset start with the same path. */
  lemma SameFirst(a: seq<Path>, b: seq<Path>)
    requires Sorted(a) && Sorted(b) && a != [] && b != []
    requires multiset(a) == multiset(b)
    ensures a[0] == b[0]
  {
    assert a[0] in multiset(b);
    assert b[0] in multiset(a);
    var i :| 0 <= i < |b| && b[i] == a[0];
    var j :| 0 <= j < |a| && a[j] == b[0];
    assert PathLe(b[0], a[0]) && PathLe(a[0], b[0]);
    if a[0] != b[0] {
      PathLtAsymmetric(a[0], b[0]);
    }
  }

  lemma MultisetTail(s: seq<Path>)
    requires s != []
    ensures multiset(s[1..]) == multiset(s) - multiset{s[0]}
  {
    assert s == [s[0]] + s[1..];
  }
}
