/** The order `getfattr` lists attribute names in: `strcmp` on the bytes of the names,
    applied through `pstrcmp` by `qsort`. */
module NameOrder {
  import opened Common

  /** An attribute name as `listxattr` returns it: bytes, NUL-terminated, so no NUL
      inside. */
  predicate CName(s: string)
  {
    forall k | 0 <= k < |s| :: 0 < s[k] as int < 256
  }

  /** `strcmp`: the difference of the first unsigned bytes that differ, or of the
      bytes at the end of the shorter string. */
  function Strcmp(a: string, b: string): int
    decreases |a|
  {
    if At(a, 0) != At(b, 0) || At(a, 0) == '\0' then ByteOf(At(a, 0)) - ByteOf(At(b, 0))
    else Strcmp(a[1..], b[1..])
  }

  /** `a` comes no later than `b`. */
  predicate Le(a: string, b: string)
  {
    Strcmp(a, b) <= 0
  }

  lemma ByteOfName(s: string, k: nat)
    requires CName(s)
    ensures ByteOf(At(s, k)) == At(s, k) as int
    ensures At(s, k) == '\0' <==> k >= |s|
  {
  }

  /** Swapping the arguments negates the result. */
  lemma {:induction false} StrcmpAntisymmetric(a: string, b: string)
    ensures Strcmp(b, a) == -Strcmp(a, b)
    decreases |a|
  {
    if !(At(a, 0) != At(b, 0) || At(a, 0) == '\0') {
      StrcmpAntisymmetric(a[1..], b[1..]);
    }
  }

  /** On names, `strcmp` is zero exactly for equal names. */
  lemma {:induction false} StrcmpZeroIff(a: string, b: string)
    requires CName(a) && CName(b)
    ensures Strcmp(a, b) == 0 <==> a == b
    decreases |a|
  {
    ByteOfName(a, 0);
    ByteOfName(b, 0);
    if !(At(a, 0) != At(b, 0) || At(a, 0) == '\0') {
      assert CName(a[1..]) && CName(b[1..]);
      StrcmpZeroIff(a[1..], b[1..]);
      assert a == [a[0]] + a[1..] && b == [b[0]] + b[1..];
    }
  }

  lemma {:induction false} StrcmpTransitive(a: string, b: string, c: string)
    requires CName(a) && CName(b) && CName(c)
    requires Le(a, b) && Le(b, c)
    ensures Le(a, c)
    decreases |a|
  {
    ByteOfName(a, 0);
    ByteOfName(b, 0);
    ByteOfName(c, 0);
    if At(a, 0) == At(b, 0) && At(b, 0) == At(c, 0) && At(a, 0) != '\0' {
      assert CName(a[1..]) && CName(b[1..]) && CName(c[1..]);
      StrcmpTransitive(a[1..], b[1..], c[1..]);
    }
  }

  lemma StrcmpTotal(a: string, b: string)
    ensures Le(a, b) || Le(b, a)
  {
    StrcmpAntisymmetric(a, b);
  }

  /** The length of the longest common prefix. */
  function CommonPrefix(a: string, b: string): (k: nat)
    ensures k <= |a| && k <= |b| && a[..k] == b[..k]
    ensures k == |a| || k == |b| || a[k] != b[k]
    decreases |a|
  {
    if a == [] || b == [] || a[0] != b[0] then 0
    else
      var k := 1 + CommonPrefix(a[1..], b[1..]);
      assert a[..k] == [a[0]] + a[1..][..k - 1];
      assert b[..k] == [b[0]] + b[1..][..k - 1];
      k
  }

  /** Lexicographic order on bytes: `a` is a proper prefix of `b`, or has the smaller
      byte where they first differ. */
  predicate Precedes(a: string, b: string)
  {
    var k := CommonPrefix(a, b);
    k < |b| && (k == |a| || a[k] < b[k])
  }

  /** `strcmp` orders names lexicographically by their bytes. */
  lemma {:induction false} StrcmpOrdersLexicographically(a: string, b: string)
    requires CName(a) && CName(b)
    ensures Strcmp(a, b) < 0 <==> Precedes(a, b)
    decreases |a|
  {
    ByteOfName(a, 0);
    ByteOfName(b, 0);
    if !(At(a, 0) != At(b, 0) || At(a, 0) == '\0') {
      assert CName(a[1..]) && CName(b[1..]);
      StrcmpOrdersLexicographically(a[1..], b[1..]);
      assert CommonPrefix(a, b) == 1 + CommonPrefix(a[1..], b[1..]);
    }
  }

  // ---------------------------------------------------------------- sorting

  predicate Sorted(s: seq<string>)
  {
    forall k, l | 0 <= k < l < |s| :: Le(s[k], s[l])
  }

  predicate AllNames(s: seq<string>)
  {
    forall k | 0 <= k < |s| :: CName(s[k])
  }

  /** The `qsort(names, count, sizeof(char *), pstrcmp)` call: afterwards the names are
      the same ones, in `strcmp` order. */
  method SortNames(a: array<string>)
    requires AllNames(a[..])
    modifies a
    ensures Sorted(a[..])
    ensures multiset(a[..]) == old(multiset(a[..]))
  {
    if a.Length == 0 {
      return;
    }
    var i := 1;
    while i < a.Length
      invariant 1 <= i <= a.Length
      invariant AllNames(a[..])
      invariant Sorted(a[..i])
      invariant multiset(a[..]) == old(multiset(a[..]))
    {
      InsertNext(a, i);
      i := i + 1;
    }
  }

  /** One pass of the insertion: the name at `i` moves down into the sorted `a[..i]`. */
  method InsertNext(a: array<string>, i: nat)
    requires 0 < i < a.Length && AllNames(a[..]) && Sorted(a[..i])
    modifies a
    ensures AllNames(a[..]) && Sorted(a[..i + 1])
    ensures multiset(a[..]) == old(multiset(a[..]))
  {
    var j := i;
    InsertingStart(a[..], i);
    while j > 0 && Strcmp(a[j - 1], a[j]) > 0
      invariant 0 <= j <= i
      invariant AllNames(a[..]) && Inserting(a[..], i, j)
      invariant multiset(a[..]) == old(multiset(a[..]))
    {
      ghost var s := a[..];
      StrcmpTotal(a[j - 1], a[j]);
      a[j - 1], a[j] := a[j], a[j - 1];
      assert a[..] == Swapped(s, j);
      InsertingSwap(s, i, j);
      j := j - 1;
    }
    InsertingDone(a[..], i, j);
  }

  /** `s` with the names at `j - 1` and `j` exchanged. */
  function Swapped(s: seq<string>, j: nat): (r: seq<string>)
    requires 0 < j < |s|
    ensures |r| == |s| && multiset(r) == multiset(s)
    ensures AllNames(s) ==> AllNames(r)
  {
    s[j - 1 := s[j]][j := s[j - 1]]
  }

  /** While the name that was at `i` sits at `j`: everything else in `s[..i + 1]` is in
      order, and it comes no later than what follows it. */
  predicate Inserting(s: seq<string>, i: nat, j: nat)
    requires j <= i < |s|
  {
    && (forall k, l | 0 <= k < l <= i && k != j && l != j :: Le(s[k], s[l]))
    && (forall l | j < l <= i :: Le(s[j], s[l]))
  }

  lemma InsertingStart(s: seq<string>, i: nat)
    requires i < |s| && Sorted(s[..i])
    ensures Inserting(s, i, i)
  {
    forall k, l | 0 <= k < l <= i && k != i && l != i ensures Le(s[k], s[l]) {
      assert s[k] == s[..i][k] && s[l] == s[..i][l];
    }
  }

  lemma InsertingSwap(s: seq<string>, i: nat, j: nat)
    requires 0 < j <= i < |s| && Inserting(s, i, j) && Le(s[j], s[j - 1])
    ensures Inserting(Swapped(s, j), i, j - 1)
  {
  }

  lemma InsertingDone(s: seq<string>, i: nat, j: nat)
    requires j <= i < |s| && AllNames(s) && Inserting(s, i, j)
    requires j == 0 || Le(s[j - 1], s[j])
    ensures Sorted(s[..i + 1])
  {
    forall k | 0 <= k < j ensures Le(s[k], s[j]) {
      if k < j - 1 {
        StrcmpTransitive(s[k], s[j - 1], s[j]);
      }
    }
    var t := s[..i + 1];
    forall k, l | 0 <= k < l < |t| ensures Le(t[k], t[l]) {
      assert t[k] == s[k] && t[l] == s[l];
    }
  }

  /** The order `qsort` leaves the names in, as a value: insertion of each name into
      the sorted rest. */
  function Sort(s: seq<string>): seq<string>
  {
    if s == [] then [] else Insert(s[0], Sort(s[1..]))
  }

  function Insert(x: string, s: seq<string>): seq<string>
  {
    if s == [] || Le(x, s[0]) then [x] + s else [s[0]] + Insert(x, s[1..])
  }

  lemma {:induction false} InsertPermutes(x: string, s: seq<string>)
    ensures multiset(Insert(x, s)) == multiset{x} + multiset(s)
  {
    if !(s == [] || Le(x, s[0])) {
      InsertPermutes(x, s[1..]);
      assert s == [s[0]] + s[1..];
    }
  }

  lemma {:induction false} InsertSorted(x: string, s: seq<string>)
    requires CName(x) && AllNames(s) && Sorted(s)
    ensures Sorted(Insert(x, s)) && AllNames(Insert(x, s))
  {
    if s == [] {
    } else if Le(x, s[0]) {
      forall m | 0 <= m < |s| ensures Le(x, s[m]) {
        if m > 0 {
          StrcmpTransitive(x, s[0], s[m]);
        }
      }
      ConsSorted(x, s);
    } else {
      Tails(s);
      InsertSorted(x, s[1..]);
      StrcmpTotal(x, s[0]);
      FirstBelowInsert(x, s);
      ConsSorted(s[0], Insert(x, s[1..]));
    }
  }

  /** A name no later than every name of a sorted list can go in front of it. */
  lemma ConsSorted(h: string, t: seq<string>)
    requires CName(h) && AllNames(t) && Sorted(t)
    requires forall m | 0 <= m < |t| :: Le(h, t[m])
    ensures Sorted([h] + t) && AllNames([h] + t)
  {
    var r := [h] + t;
    forall k, l | 0 <= k < l < |r| ensures Le(r[k], r[l]) {
      if k > 0 {
        assert r[k] == t[k - 1];
      }
      assert r[l] == t[l - 1];
    }
    forall k | 0 <= k < |r| ensures CName(r[k]) {
      if k > 0 {
        assert r[k] == t[k - 1];
      }
    }
  }

  lemma FirstBelowInsert(x: string, s: seq<string>)
    requires |s| > 0 && Sorted(s) && Le(s[0], x)
    ensures forall m | 0 <= m < |Insert(x, s[1..])| :: Le(s[0], Insert(x, s[1..])[m])
  {
    var t := Insert(x, s[1..]);
    InsertPermutes(x, s[1..]);
    forall m | 0 <= m < |t| ensures Le(s[0], t[m]) {
      assert t[m] in multiset(t);
      if t[m] != x {
        assert t[m] in multiset(s[1..]);
        var n :| 0 <= n < |s[1..]| && s[1..][n] == t[m];
        assert Le(s[0], s[n + 1]);
      }
    }
  }

  /** The sorted names are the given ones, in `strcmp` order. */
  lemma {:induction false} SortSortsAndPermutes(s: seq<string>)
    requires AllNames(s)
    ensures Sorted(Sort(s)) && AllNames(Sort(s))
    ensures multiset(Sort(s)) == multiset(s)
  {
    if s != [] {
      assert AllNames(s[1..]) by {
        forall k | 0 <= k < |s[1..]| ensures CName(s[1..][k]) {
          assert s[1..][k] == s[k + 1];
        }
      }
      SortSortsAndPermutes(s[1..]);
      InsertSorted(s[0], Sort(s[1..]));
      InsertPermutes(s[0], Sort(s[1..]));
      assert s == [s[0]] + s[1..];
    }
  }

  /** A permutation of names is made of names. */
  lemma PermutedNames(s: seq<string>, t: seq<string>)
    requires AllNames(s) && multiset(t) == multiset(s)
    ensures AllNames(t)
  {
    forall k | 0 <= k < |t| ensures CName(t[k]) {
      assert t[k] in multiset(s);
    }
  }

  /** Whatever order an in-place sort leaves the names in is `Sort`'s. */
  lemma SortedIsSort(s: seq<string>, t: seq<string>)
    requires AllNames(s) && AllNames(t) && Sorted(t) && multiset(t) == multiset(s)
    ensures t == Sort(s)
  {
    SortSortsAndPermutes(s);
    SortedUnique(t, Sort(s));
  }

  /** The sorted order of a set of names is unique: two sorted lists of the same
      names are the same list. */
  lemma {:induction false} SortedUnique(s: seq<string>, t: seq<string>)
    requires AllNames(s) && AllNames(t) && Sorted(s) && Sorted(t)
    requires multiset(s) == multiset(t)
    ensures s == t
    decreases |s|
  {
    if s != [] {
      assert |t| == |multiset(t)| == |multiset(s)| == |s|;
      SameFirst(s, t);
      Tails(s);
      Tails(t);
      SortedUnique(s[1..], t[1..]);
      assert s == [s[0]] + s[1..] && t == [t[0]] + t[1..];
    }
  }

  lemma SameFirst(s: seq<string>, t: seq<string>)
    requires |s| > 0 && |t| > 0 && AllNames(s) && AllNames(t) && Sorted(s) && Sorted(t)
    requires multiset(s) == multiset(t)
    ensures s[0] == t[0]
  {
    assert s[0] in multiset(t) && t[0] in multiset(s);
    var i :| 0 <= i < |t| && t[i] == s[0];
    var j :| 0 <= j < |s| && s[j] == t[0];
    StrcmpZeroIff(s[0], s[0]);
    StrcmpZeroIff(t[0], t[0]);
    assert Le(t[0], s[0]) by {
      if i > 0 {
        assert Le(t[0], t[i]);
      }
    }
    assert Le(s[0], t[0]) by {
      if j > 0 {
        assert Le(s[0], s[j]);
      }
    }
    StrcmpAntisymmetric(s[0], t[0]);
    StrcmpZeroIff(s[0], t[0]);
  }

  lemma Tails(s: seq<string>)
    requires |s| > 0 && AllNames(s) && Sorted(s)
    ensures AllNames(s[1..]) && Sorted(s[1..])
    ensures multiset(s[1..]) == multiset(s) - multiset{s[0]}
  {
    assert s == [s[0]] + s[1..];
    forall k, l | 0 <= k < l < |s[1..]| ensures Le(s[1..][k], s[1..][l]) {
      assert s[1..][k] == s[k + 1] && s[1..][l] == s[l + 1];
    }
  }
}
