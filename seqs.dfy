/** Sequence utilities the container code relies on: list comprehensions
    with a filter, projections, joining byte strings, Python's stable
    `sorted(..., key=...)`, and `len(set(xs)) == len(xs)`, each with the
    facts about permutations that the decode pipeline needs. */
module Seqs {

  /** [x for x in s if p(x)] */
  function Filter<T>(p: T -> bool, s: seq<T>): (r: seq<T>)
    ensures |r| <= |s|
    ensures forall i :: 0 <= i < |r| ==> r[i] in s && p(r[i])
    ensures forall i :: 0 <= i < |s| && p(s[i]) ==> s[i] in r
  {
    if s == [] then [] else (if p(s[0]) then [s[0]] else []) + Filter(p, s[1..])
  }

  /** [f(x) for x in s] */
  function MapSeq<T, U>(f: T -> U, s: seq<T>): (r: seq<U>)
    ensures |r| == |s|
    ensures forall i :: 0 <= i < |s| ==> r[i] == f(s[i])
  {
    if s == [] then [] else [f(s[0])] + MapSeq(f, s[1..])
  }

  /** b''.join(ss) */
  function Flatten<T>(ss: seq<seq<T>>): seq<T>
  {
    if ss == [] then [] else ss[0] + Flatten(ss[1..])
  }

  /** The set of the elements of s. */
  function Elements<T(==)>(s: seq<T>): set<T>
  {
    set x | x in s
  }

  /** len(set(s)) == len(s) */
  predicate Distinct<T(==)>(s: seq<T>)
  {
    |Elements(s)| == |s|
  }

  lemma {:induction false} FilterConcat<T>(p: T -> bool, a: seq<T>, b: seq<T>)
    ensures Filter(p, a + b) == Filter(p, a) + Filter(p, b)
  {
    if a != [] {
      assert (a + b)[1..] == a[1..] + b;
      FilterConcat(p, a[1..], b);
    } else {
      assert a + b == b;
    }
  }

  /** Nothing passes the filter when no element does. */
  lemma {:induction false} FilterNone<T>(p: T -> bool, s: seq<T>)
    requires forall i :: 0 <= i < |s| ==> !p(s[i])
    ensures Filter(p, s) == []
  {
    if s != [] {
      assert !p(s[0]);
      FilterNone(p, s[1..]);
    }
  }

  /** One more element of a prefix passes the filter or does not. */
  lemma FilterStep<T>(p: T -> bool, s: seq<T>, i: nat)
    requires i < |s|
    ensures Filter(p, s[..i + 1]) == Filter(p, s[..i]) + (if p(s[i]) then [s[i]] else [])
  {
    assert s[..i + 1] == s[..i] + [s[i]];
    FilterConcat(p, s[..i], [s[i]]);
    assert [s[i]][1..] == [];
  }

  lemma {:induction false} MapConcat<T, U>(f: T -> U, a: seq<T>, b: seq<T>)
    ensures MapSeq(f, a + b) == MapSeq(f, a) + MapSeq(f, b)
  {
    var l, r := MapSeq(f, a + b), MapSeq(f, a) + MapSeq(f, b);
    assert |l| == |r|;
    forall i | 0 <= i < |l| ensures l[i] == r[i] {
      if i < |a| { assert (a + b)[i] == a[i]; } else { assert (a + b)[i] == b[i - |a|]; }
    }
  }

  lemma {:induction false} FlattenConcat<T>(a: seq<seq<T>>, b: seq<seq<T>>)
    ensures Flatten(a + b) == Flatten(a) + Flatten(b)
  {
    if a != [] {
      assert (a + b)[1..] == a[1..] + b;
      FlattenConcat(a[1..], b);
    } else {
      assert a + b == b;
    }
  }

  /** Filtering keeps, of every element, either all its copies or none. */
  lemma {:induction false} FilterMultiset<T>(p: T -> bool, s: seq<T>)
    ensures forall x :: multiset(Filter(p, s))[x] == if p(x) then multiset(s)[x] else 0
  {
    if s != [] {
      FilterMultiset(p, s[1..]);
      assert s == [s[0]] + s[1..];
      assert multiset(s) == multiset{s[0]} + multiset(s[1..]);
    }
  }

  /** Filtering two permutations of each other gives two permutations of each other. */
  lemma FilterPermutation<T>(p: T -> bool, s: seq<T>, t: seq<T>)
    requires multiset(s) == multiset(t)
    ensures multiset(Filter(p, s)) == multiset(Filter(p, t))
  {
    FilterMultiset(p, s);
    FilterMultiset(p, t);
    assert forall x :: multiset(Filter(p, s))[x] == multiset(Filter(p, t))[x];
  }

  /** Projecting two permutations of each other gives two permutations of each other. */
  lemma {:induction false} MapPermutation<T, U>(f: T -> U, s: seq<T>, t: seq<T>)
    requires multiset(s) == multiset(t)
    ensures multiset(MapSeq(f, s)) == multiset(MapSeq(f, t))
    decreases |s|
  {
    if s != [] {
      assert s[0] in multiset(t);
      var k :| 0 <= k < |t| && t[k] == s[0];
      RemoveMatching(s, t, k);
      MapPermutation(f, s[1..], t[..k] + t[k + 1..]);
      MapRemove(f, t, k);
      assert MapSeq(f, s) == [f(s[0])] + MapSeq(f, s[1..]);
      assert multiset(MapSeq(f, s)) == multiset{f(s[0])} + multiset(MapSeq(f, s[1..]));
    }
  }

  lemma MapRemove<T, U>(f: T -> U, t: seq<T>, k: nat)
    requires k < |t|
    ensures multiset(MapSeq(f, t)) == multiset(MapSeq(f, t[..k] + t[k + 1..])) + multiset{f(t[k])}
  {
    var a, b := MapSeq(f, t[..k]), MapSeq(f, t[k + 1..]);
    var m, r := MapSeq(f, t), MapSeq(f, t[..k] + t[k + 1..]);
    var m' := a + [f(t[k])] + b;
    forall i | 0 <= i < |m| ensures m[i] == m'[i] {
      if i < k { assert t[..k][i] == t[i]; }
      else if i > k { assert t[k + 1..][i - k - 1] == t[i]; }
    }
    assert m == m';
    MapConcat(f, t[..k], t[k + 1..]);
    assert r == a + b;
    assert multiset(m') == multiset(a) + multiset{f(t[k])} + multiset(b);
  }

  /** Taking the same element out of two permutations of each other leaves
      two permutations of each other. */
  lemma RemoveMatching<T>(s: seq<T>, t: seq<T>, k: nat)
    requires multiset(s) == multiset(t)
    requires s != [] && k < |t| && t[k] == s[0]
    ensures multiset(s[1..]) == multiset(t[..k] + t[k + 1..])
  {
    var rest := t[..k] + t[k + 1..];
    assert t == t[..k] + [t[k]] + t[k + 1..];
    assert s == [s[0]] + s[1..];
    assert multiset(t) == multiset(rest) + multiset{t[k]};
    assert multiset(s) == multiset(s[1..]) + multiset{s[0]};
    forall y ensures multiset(s[1..])[y] == multiset(rest)[y] {
      assert multiset(s)[y] == multiset(s[1..])[y] + multiset{s[0]}[y];
      assert multiset(t)[y] == multiset(rest)[y] + multiset{t[k]}[y];
    }
  }

  /** Distinct means pairwise different. */
  lemma {:induction false} DistinctIff<T>(s: seq<T>)
    ensures Distinct(s) <==> forall i, j :: 0 <= i < j < |s| ==> s[i] != s[j]
  {
    if s == [] {
      assert Elements(s) == {};
    } else {
      DistinctIff(s[1..]);
      ElementsBound(s[1..]);
      assert Elements(s) == {s[0]} + Elements(s[1..]);
      if s[0] in s[1..] {
        assert Elements(s) == Elements(s[1..]);
        var j :| 0 <= j < |s[1..]| && s[1..][j] == s[0];
        assert s[0] == s[j + 1];
      } else {
        assert |Elements(s)| == 1 + |Elements(s[1..])|;
        if forall i, j :: 0 <= i < j < |s[1..]| ==> s[1..][i] != s[1..][j] {
          forall i, j | 0 <= i < j < |s| ensures s[i] != s[j] {
            if i > 0 { assert s[i] == s[1..][i - 1] && s[j] == s[1..][j - 1]; }
            else { assert s[j] in s[1..]; }
          }
        } else {
          var i, j :| 0 <= i < j < |s[1..]| && s[1..][i] == s[1..][j];
          assert s[i + 1] == s[j + 1];
        }
      }
    }
  }

  lemma {:induction false} ElementsBound<T>(s: seq<T>)
    ensures |Elements(s)| <= |s|
  {
    if s != [] {
      ElementsBound(s[1..]);
      assert Elements(s) == {s[0]} + Elements(s[1..]);
    }
  }

  /** Whether the elements are distinct does not depend on their order. */
  lemma DistinctPermutation<T>(s: seq<T>, t: seq<T>)
    requires multiset(s) == multiset(t)
    ensures Distinct(s) <==> Distinct(t)
  {
    assert forall x :: x in s <==> x in multiset(s);
    assert forall x :: x in t <==> x in multiset(t);
    assert Elements(s) == Elements(t);
    assert |s| == |multiset(s)| == |t|;
  }

  predicate SortedBy<T>(key: T -> int, s: seq<T>)
  {
    forall i, j :: 0 <= i < j < |s| ==> key(s[i]) <= key(s[j])
  }

  predicate StrictlySortedBy<T>(key: T -> int, s: seq<T>)
  {
    forall i, j :: 0 <= i < j < |s| ==> key(s[i]) < key(s[j])
  }

  /** Put x into sorted s after every element whose key is not greater. */
  function InsertBy<T>(key: T -> int, x: T, s: seq<T>): (r: seq<T>)
    requires SortedBy(key, s)
    ensures SortedBy(key, r)
    ensures multiset(r) == multiset(s) + multiset{x}
  {
    if s == [] then [x]
    else if key(x) < key(s[0]) then [x] + s
    else
      var tail := InsertBy(key, x, s[1..]);
      InsertAfterHead(key, x, s, tail);
      [s[0]] + tail
  }

  lemma InsertAfterHead<T>(key: T -> int, x: T, s: seq<T>, tail: seq<T>)
    requires s != [] && SortedBy(key, s) && key(s[0]) <= key(x)
    requires SortedBy(key, tail) && multiset(tail) == multiset(s[1..]) + multiset{x}
    ensures SortedBy(key, [s[0]] + tail)
    ensures multiset([s[0]] + tail) == multiset(s) + multiset{x}
  {
    forall i | 0 <= i < |tail| ensures key(s[0]) <= key(tail[i]) {
      assert tail[i] in multiset(tail);
      if tail[i] != x {
        assert tail[i] in multiset(s[1..]);
        var j :| 0 <= j < |s[1..]| && s[1..][j] == tail[i];
        assert s[j + 1] == tail[i];
      }
    }
    assert s == [s[0]] + s[1..];
    assert multiset(s) == multiset{s[0]} + multiset(s[1..]);
  }

  /** sorted(s, key=key): a stable insertion sort, the last element inserted
      last so that it lands after every earlier element with an equal key. */
  function SortBy<T>(key: T -> int, s: seq<T>): (r: seq<T>)
    ensures SortedBy(key, r)
    ensures multiset(r) == multiset(s)
  {
    if s == [] then []
    else
      assert s == s[..|s| - 1] + [s[|s| - 1]];
      InsertBy(key, s[|s| - 1], SortBy(key, s[..|s| - 1]))
  }

  /** A sorted sequence whose keys are distinct is strictly sorted. */
  lemma SortedDistinctIsStrict<T>(key: T -> int, s: seq<T>)
    requires SortedBy(key, s)
    requires Distinct(MapSeq(key, s))
    ensures StrictlySortedBy(key, s)
  {
    DistinctIff(MapSeq(key, s));
  }

  lemma HeadIsLeast<T>(key: T -> int, s: seq<T>, j: nat)
    requires StrictlySortedBy(key, s) && j < |s|
    ensures key(s[0]) <= key(s[j])
  {
    if j > 0 {
      assert key(s[0]) < key(s[j]);
    }
  }

  lemma OnlyHeadIsLeast<T>(key: T -> int, s: seq<T>, j: nat)
    requires StrictlySortedBy(key, s) && j < |s| && key(s[j]) <= key(s[0])
    ensures j == 0
  {
  }

  lemma TailStrictlySorted<T>(key: T -> int, s: seq<T>)
    requires s != [] && StrictlySortedBy(key, s)
    ensures StrictlySortedBy(key, s[1..])
  {
    forall i, j | 0 <= i < j < |s[1..]| ensures key(s[1..][i]) < key(s[1..][j]) {
      assert s[1..][i] == s[i + 1] && s[1..][j] == s[j + 1];
    }
  }

  /** Two strictly sorted arrangements of the same elements start alike. */
  lemma SameHead<T>(key: T -> int, s: seq<T>, t: seq<T>)
    requires StrictlySortedBy(key, s) && StrictlySortedBy(key, t)
    requires multiset(s) == multiset(t) && s != []
    ensures t != [] && s[0] == t[0]
  {
    assert |t| == |multiset(t)| == |s|;
    assert s[0] in multiset(t) && t[0] in multiset(s);
    var i :| 0 <= i < |t| && t[i] == s[0];
    var j :| 0 <= j < |s| && s[j] == t[0];
    HeadIsLeast(key, s, j);
    HeadIsLeast(key, t, i);
    OnlyHeadIsLeast(key, t, i);
  }

  /** Permutations of each other with the same first element have tails
      that are permutations of each other. */
  lemma SameTails<T>(s: seq<T>, t: seq<T>)
    requires multiset(s) == multiset(t) && s != [] && t != [] && s[0] == t[0]
    ensures multiset(s[1..]) == multiset(t[1..])
  {
    RemoveMatching(s, t, 0);
    assert t[..0] + t[1..] == t[1..];
  }

  lemma SameHeadAndTail<T>(s: seq<T>, t: seq<T>)
    requires s != [] && t != [] && s[0] == t[0] && s[1..] == t[1..]
    ensures s == t
  {
    assert s == [s[0]] + s[1..] && t == [t[0]] + t[1..];
  }

  /** Two strictly sorted arrangements of the same elements are identical:
      the order is fixed by the keys alone. */
  lemma {:induction false} StrictlySortedUnique<T>(key: T -> int, s: seq<T>, t: seq<T>)
    requires StrictlySortedBy(key, s) && StrictlySortedBy(key, t)
    requires multiset(s) == multiset(t)
    ensures s == t
    decreases |s|
  {
    if s != [] {
      SameHead(key, s, t);
      SameTails(s, t);
      TailStrictlySorted(key, s);
      TailStrictlySorted(key, t);
      StrictlySortedUnique(key, s[1..], t[1..]);
      SameHeadAndTail(s, t);
    }
  }

  /** Regrouping a concatenation; a lemma call keeps the surrounding
      context out of the solver's way where an assert would not. */
  lemma ConcatAssoc4<T>(x: seq<T>, y: seq<T>, u: seq<T>, v: seq<T>)
    ensures x + y + u + v == x + (y + u + v)
  {
  }

  lemma ConcatNest5<T>(x: seq<T>, y: seq<T>, u: seq<T>, v: seq<T>, w: seq<T>)
    ensures x + y + u + v + w == x + (y + (u + (v + w)))
  {
  }

  /** A sequence is its three slices at i and j laid end to end. */
  lemma Split3<T>(s: seq<T>, i: nat, j: nat)
    requires i <= j <= |s|
    ensures s == s[..i] + s[i..j] + s[j..]
  {
    assert s[..j] == s[..i] + s[i..j];
  }

  /** A sequence is its four slices at i, j and k laid end to end. */
  lemma Split4<T>(s: seq<T>, i: nat, j: nat, k: nat)
    requires i <= j <= k <= |s|
    ensures s == s[..i] + s[i..j] + s[j..k] + s[k..]
  {
    Split3(s[..k], i, j);
    assert s == s[..k] + s[k..];
  }

  /** When exactly one element passes the filter, every element that passes
      is that one. */
  lemma FilterSingle<T>(p: T -> bool, s: seq<T>)
    requires |Filter(p, s)| == 1
    ensures forall i :: 0 <= i < |s| && p(s[i]) ==> s[i] == Filter(p, s)[0]
  {
    forall i | 0 <= i < |s| && p(s[i]) ensures s[i] == Filter(p, s)[0] {
      assert s[i] in Filter(p, s);
    }
  }
}
