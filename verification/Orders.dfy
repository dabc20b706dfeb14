/** Sorting by a total preorder, and why the result does not depend on the input order. */
module Orders {

  /** `leq` is total and transitive: what a sort key gives. */
  ghost predicate TotalPreorder<T(!new)>(leq: (T, T) -> bool) {
    && (forall a, b :: leq(a, b) || leq(b, a))
    && (forall a, b, c :: leq(a, b) && leq(b, c) ==> leq(a, c))
  }

  predicate SortedBy<T>(leq: (T, T) -> bool, s: seq<T>) {
    forall i, j | 0 <= i < j < |s| :: leq(s[i], s[j])
  }

  /** No two different elements of `s` tie under `leq`. */
  ghost predicate NoTies<T>(leq: (T, T) -> bool, s: seq<T>) {
    forall a, b | a in s && b in s && leq(a, b) && leq(b, a) :: a == b
  }

  function Insert<T>(leq: (T, T) -> bool, x: T, s: seq<T>): seq<T> {
    if s == [] then [x]
    else if leq(x, s[0]) then [x] + s
    else [s[0]] + Insert(leq, x, s[1..])
  }

  /** A stable sort, as Python's `sorted` is. */
  function SortBy<T>(leq: (T, T) -> bool, s: seq<T>): seq<T> {
    if s == [] then [] else Insert(leq, s[0], SortBy(leq, s[1..]))
  }

  lemma {:induction false} InsertMultiset<T>(leq: (T, T) -> bool, x: T, s: seq<T>)
    ensures multiset(Insert(leq, x, s)) == multiset(s) + multiset{x}
  {
    if s == [] {
    } else if leq(x, s[0]) {
      Prepended(x, s);
    } else {
      var rest := Insert(leq, x, s[1..]);
      InsertMultiset(leq, x, s[1..]);
      assert s == [s[0]] + s[1..];
      Prepended(s[0], s[1..]);
      Prepended(s[0], rest);
    }
  }

  lemma Prepended<T>(x: T, s: seq<T>)
    ensures multiset([x] + s) == multiset{x} + multiset(s)
  {
  }

  lemma {:induction false} InsertSorted<T(!new)>(leq: (T, T) -> bool, x: T, s: seq<T>)
    requires TotalPreorder(leq) && SortedBy(leq, s)
    ensures SortedBy(leq, Insert(leq, x, s))
  {
    if s == [] || leq(x, s[0]) {
    } else {
      InsertSorted(leq, x, s[1..]);
      var t := Insert(leq, x, s[1..]);
      forall k | 0 <= k < |t| ensures leq(s[0], t[k]) {
        InsertMultiset(leq, x, s[1..]);
        assert t[k] in multiset(t);
        assert t[k] == x || t[k] in s[1..];
      }
    }
  }

  lemma {:induction false} SortByMultiset<T>(leq: (T, T) -> bool, s: seq<T>)
    ensures multiset(SortBy(leq, s)) == multiset(s)
    ensures |SortBy(leq, s)| == |s|
  {
    hide Insert;
    if s == [] {
    } else {
      SortByMultiset(leq, s[1..]);
      InsertMultiset(leq, s[0], SortBy(leq, s[1..]));
      assert s == [s[0]] + s[1..] && multiset(s) == multiset{s[0]} + multiset(s[1..]);
    }
    SameSize(SortBy(leq, s), s);
  }

  lemma SameSize<T>(s: seq<T>, t: seq<T>)
    requires multiset(s) == multiset(t)
    ensures |s| == |t|
  {
    assert |multiset(s)| == |multiset(t)|;
  }

  lemma {:induction false} SortBySorted<T(!new)>(leq: (T, T) -> bool, s: seq<T>)
    requires TotalPreorder(leq)
    ensures SortedBy(leq, SortBy(leq, s))
  {
    if s == [] {
    } else {
      SortBySorted(leq, s[1..]);
      InsertSorted(leq, s[0], SortBy(leq, s[1..]));
    }
  }

  lemma SameElements<T>(s: seq<T>, t: seq<T>)
    requires multiset(s) == multiset(t)
    ensures |s| == |t|
    ensures forall x :: x in s <==> x in t
  {
    assert |multiset(s)| == |multiset(t)|;
    forall x ensures x in s <==> x in t {
      assert x in s <==> x in multiset(s);
      assert x in t <==> x in multiset(t);
    }
  }

  lemma SortedHead<T>(leq: (T, T) -> bool, s: seq<T>, x: T)
    requires SortedBy(leq, s) && x in s
    ensures x == s[0] || leq(s[0], x)
  {
    var i :| 0 <= i < |s| && s[i] == x;
    assert i == 0 || leq(s[0], s[i]);
  }

  lemma SameHead<T>(leq: (T, T) -> bool, s: seq<T>, t: seq<T>)
    requires s != [] && t != [] && SortedBy(leq, s) && SortedBy(leq, t)
    requires s[0] in t && t[0] in s && NoTies(leq, s)
    ensures s[0] == t[0]
  {
    SortedHead(leq, t, s[0]);
    SortedHead(leq, s, t[0]);
  }

  lemma DropHead<T>(s: seq<T>, t: seq<T>)
    requires s != [] && t != [] && s[0] == t[0] && multiset(s) == multiset(t)
    ensures multiset(s[1..]) == multiset(t[1..])
  {
    assert s == [s[0]] + s[1..] && t == [t[0]] + t[1..];
    assert multiset(s) == multiset{s[0]} + multiset(s[1..]);
    assert multiset(t) == multiset{t[0]} + multiset(t[1..]);
    assert multiset(s[1..]) == multiset(s) - multiset{s[0]};
  }

  /** Two sorted sequences of the same elements are the same sequence, once nothing ties. */
  lemma {:induction false} SortedUnique<T>(leq: (T, T) -> bool, s: seq<T>, t: seq<T>)
    requires SortedBy(leq, s) && SortedBy(leq, t)
    requires multiset(s) == multiset(t) && NoTies(leq, s)
    ensures s == t
  {
    SameElements(s, t);
    if s == [] {
    } else {
      SameHead(leq, s, t);
      DropHead(s, t);
      SortedUnique(leq, s[1..], t[1..]);
      assert s == [s[0]] + s[1..] && t == [t[0]] + t[1..];
    }
  }

  /** Sorting forgets the order its input came in. */
  lemma SortForgetsOrder<T(!new)>(leq: (T, T) -> bool, s: seq<T>, t: seq<T>)
    requires TotalPreorder(leq) && multiset(s) == multiset(t) && NoTies(leq, s)
    ensures SortBy(leq, s) == SortBy(leq, t)
  {
    SortBySorted(leq, s);
    SortBySorted(leq, t);
    SortByMultiset(leq, s);
    SortByMultiset(leq, t);
    SameElements(s, SortBy(leq, s));
    SortedUnique(leq, SortBy(leq, s), SortBy(leq, t));
  }

  // ---- the order of strings --------------------------------------------------

  /** Code-point order, which is how Python and Go compare strings and how JSON keys are sorted. */
  predicate Leq(a: string, b: string) {
    a == "" || (b != "" && (a[0] < b[0] || (a[0] == b[0] && Leq(a[1..], b[1..]))))
  }

  lemma {:induction false} LeqTotal(a: string, b: string)
    ensures Leq(a, b) || Leq(b, a)
    ensures Leq(a, b) && Leq(b, a) ==> a == b
  {
    if a == "" || b == "" || a[0] != b[0] {
    } else {
      LeqTotal(a[1..], b[1..]);
      assert a == [a[0]] + a[1..] && b == [b[0]] + b[1..];
    }
  }

  lemma {:induction false} LeqTransitive(a: string, b: string, c: string)
    requires Leq(a, b) && Leq(b, c)
    ensures Leq(a, c)
  {
    if a == "" || a[0] != b[0] || b[0] != c[0] {
    } else {
      LeqTransitive(a[1..], b[1..], c[1..]);
    }
  }

  /** The two strings agree up to `k`, and there the first has the smaller character. */
  ghost predicate SmallerAt(a: string, b: string, k: nat) {
    k < |a| && k < |b| && a[..k] == b[..k] && a[k] < b[k]
  }

  /** One string comes before another when it is a prefix of it or has the smaller character where they
      first differ. */
  lemma {:induction false} LeqIsLexicographic(a: string, b: string)
    ensures Leq(a, b) <==> a <= b || exists k: nat :: SmallerAt(a, b, k)
  {
    if a == "" || b == "" {
    } else if a[0] != b[0] {
      assert a[0] < b[0] ==> SmallerAt(a, b, 0);
    } else {
      LeqIsLexicographic(a[1..], b[1..]);
      assert a == [a[0]] + a[1..] && b == [a[0]] + b[1..];
      if k: nat :| SmallerAt(a, b, k) {
        assert a[1..][..k - 1] == a[..k][1..] && b[1..][..k - 1] == b[..k][1..];
        assert SmallerAt(a[1..], b[1..], k - 1);
      }
      if k: nat :| SmallerAt(a[1..], b[1..], k) {
        assert a[..k + 1] == [a[0]] + a[1..][..k] && b[..k + 1] == [a[0]] + b[1..][..k];
        assert SmallerAt(a, b, k + 1);
      }
    }
  }

  /** Ordering by a string key is a total preorder. */
  lemma KeyOrder<T(!new)>(key: T -> string, leq: (T, T) -> bool)
    requires forall a, b :: leq(a, b) <==> Leq(key(a), key(b))
    ensures TotalPreorder(leq)
    ensures forall a, b :: leq(a, b) && leq(b, a) ==> key(a) == key(b)
  {
    forall a, b ensures leq(a, b) || leq(b, a)
      ensures leq(a, b) && leq(b, a) ==> key(a) == key(b)
    {
      LeqTotal(key(a), key(b));
    }
    forall a, b, c | leq(a, b) && leq(b, c) ensures leq(a, c) {
      LeqTransitive(key(a), key(b), key(c));
    }
  }

  // ---- sets listed without repeats ---------------------------------------------

  predicate Distinct<K(==)>(keys: seq<K>) {
    forall i, j | 0 <= i < j < |keys| :: keys[i] != keys[j]
  }

  /** Adding to a set kept as a list without repeats. */
  function AddTo<K(==,!new)>(keys: seq<K>, k: K): (r: seq<K>)
    requires Distinct(keys)
    ensures Distinct(r) && forall x :: x in r <==> x in keys || x == k
  {
    if k in keys then keys else keys + [k]
  }

  lemma {:induction false} DistinctOnce<K>(s: seq<K>, c: K)
    requires Distinct(s)
    ensures multiset(s)[c] <= 1
  {
    if s == [] {
    } else {
      DistinctOnce(s[1..], c);
      assert s == [s[0]] + s[1..];
      assert s[0] !in s[1..];
    }
  }

  lemma DistinctForgetsOrder<K>(s: seq<K>, t: seq<K>)
    requires Distinct(s) && multiset(s) == multiset(t)
    ensures Distinct(t)
  {
    forall i, j | 0 <= i < j < |t| ensures t[i] != t[j] {
      DistinctOnce(s, t[i]);
      assert t == t[..j] + t[j..];
      assert t[i] in t[..j] && t[j] in t[j..];
      assert multiset(t) == multiset(t[..j]) + multiset(t[j..]);
      assert multiset(t[..j])[t[i]] >= 1 && multiset(t[j..])[t[j]] >= 1;
    }
  }

  /** `len(set(s)) != len(s)` says that `s` repeats something. */
  lemma {:induction false} RepeatsShrinkTheSet<K>(s: seq<K>)
    ensures |set x | x in s| <= |s|
    ensures |set x | x in s| != |s| <==> !Distinct(s)
  {
    if s == [] {
    } else {
      var all, tail := set x | x in s, set x | x in s[1..];
      RepeatsShrinkTheSet(s[1..]);
      assert all == {s[0]} + tail;
      if s[0] in s[1..] {
        assert all == tail;
        var j :| 0 <= j < |s[1..]| && s[1..][j] == s[0];
        assert s[0] == s[j + 1];
      } else {
        assert |all| == 1 + |tail|;
        DistinctCons(s);
      }
    }
  }

  lemma DistinctCons<K>(s: seq<K>)
    requires s != [] && s[0] !in s[1..]
    ensures Distinct(s) <==> Distinct(s[1..])
  {
    if Distinct(s[1..]) {
      forall i, j | 0 <= i < j < |s| ensures s[i] != s[j] {
        assert s[1..][j - 1] == s[j] && s[j] in s[1..];
        assert i > 0 ==> s[1..][i - 1] == s[i];
      }
    }
  }

  /** Two lists of the same set hold the same elements, each once. */
  lemma SameMembersSameMultiset<K>(s: seq<K>, t: seq<K>)
    requires Distinct(s) && Distinct(t) && forall x :: x in s <==> x in t
    ensures multiset(s) == multiset(t)
  {
    forall x ensures multiset(s)[x] == multiset(t)[x] {
      DistinctOnce(s, x);
      DistinctOnce(t, x);
      assert x in s <==> x in multiset(s);
      assert x in t <==> x in multiset(t);
    }
  }

  /** `sorted` of a set of strings. */
  lemma SortedDistinct(found: seq<string>)
    requires Distinct(found)
    ensures
      var sorted := SortBy(Leq, found);
      Distinct(sorted) && SortedBy(Leq, sorted) && forall c :: c in sorted <==> c in found
  {
    KeyOrder((s: string) => s, Leq);
    SortBySorted(Leq, found);
    SortByMultiset(Leq, found);
    SameElements(found, SortBy(Leq, found));
    DistinctForgetsOrder(found, SortBy(Leq, found));
  }
}
