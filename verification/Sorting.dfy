/** Byte-wise order of strings, the stable sort by a string key that the program uses for its lists, and reordered lists. */
module Sorting {

  predicate Le(a: string, b: string) {
    a == "" || (b != "" && (a[0] < b[0] || (a[0] == b[0] && Le(a[1..], b[1..]))))
  }

  lemma LeTotal(a: string, b: string)
    ensures Le(a, b) || Le(b, a)
  {
  }

  lemma {:induction false} LeAntisymmetric(a: string, b: string)
    requires Le(a, b) && Le(b, a)
    ensures a == b
  {
    if a != "" {
      LeAntisymmetric(a[1..], b[1..]);
      assert a == [a[0]] + a[1..] && b == [b[0]] + b[1..];
    }
  }

  lemma LeTransitive(a: string, b: string, c: string)
    requires Le(a, b) && Le(b, c)
    ensures Le(a, c)
  {
  }

  /** A common prefix does not matter, and then the first byte decides. */
  lemma {:induction false} LeAfterPrefix(prefix: string, a: string, b: string)
    requires a != "" && b != "" && a[0] < b[0]
    ensures Le(prefix + a, prefix + b) && !Le(prefix + b, prefix + a)
  {
    if prefix == "" {
      assert prefix + a == a && prefix + b == b;
    } else {
      assert (prefix + a)[1..] == prefix[1..] + a && (prefix + b)[1..] == prefix[1..] + b;
      LeAfterPrefix(prefix[1..], a, b);
    }
  }

  ghost predicate Sorted<T(!new)>(key: T -> string, s: seq<T>) {
    forall i, j :: 0 <= i < j < |s| ==> Le(key(s[i]), key(s[j]))
  }

  ghost predicate UniqueKeys<T(!new)>(key: T -> string, s: seq<T>) {
    forall i, j :: 0 <= i < j < |s| ==> key(s[i]) != key(s[j])
  }

  /** Puts `x` behind every element whose key is not greater. */
  function Insert<T>(key: T -> string, x: T, s: seq<T>): seq<T> {
    if s == [] || Le(key(s[|s| - 1]), key(x)) then s + [x]
    else Insert(key, x, s[..|s| - 1]) + [s[|s| - 1]]
  }

  function SortBy<T>(key: T -> string, s: seq<T>): seq<T> {
    if s == [] then [] else Insert(key, s[|s| - 1], SortBy(key, s[..|s| - 1]))
  }

  lemma {:induction false} InsertAdds<T>(key: T -> string, x: T, s: seq<T>)
    ensures multiset(Insert(key, x, s)) == multiset(s) + multiset{x}
  {
    hide Le;
    if s != [] && !Le(key(s[|s| - 1]), key(x)) {
      assert s == s[..|s| - 1] + [s[|s| - 1]];
      InsertAdds(key, x, s[..|s| - 1]);
    }
  }

  lemma {:induction false} InsertKeeps<T(!new)>(key: T -> string, x: T, s: seq<T>)
    requires Sorted(key, s)
    ensures Sorted(key, Insert(key, x, s))
  {
    hide Le;
    if s == [] || Le(key(s[|s| - 1]), key(x)) {
      forall i | 0 <= i < |s| ensures Le(key(s[i]), key(x)) {
        if i < |s| - 1 { LeTransitive(key(s[i]), key(s[|s| - 1]), key(x)); }
      }
    } else {
      var init, last := s[..|s| - 1], s[|s| - 1];
      assert s == init + [last];
      InsertKeeps(key, x, init);
      InsertAdds(key, x, init);
      var t := Insert(key, x, init);
      LeTotal(key(last), key(x));
      forall i | 0 <= i < |t| ensures Le(key(t[i]), key(last)) {
        assert t[i] in multiset(t);
        if t[i] != x {
          assert t[i] in multiset(init);
          assert t[i] in init;
        }
      }
    }
  }

  lemma {:induction false} SortByMeaning<T(!new)>(key: T -> string, s: seq<T>)
    ensures Sorted(key, SortBy(key, s))
    ensures multiset(SortBy(key, s)) == multiset(s)
  {
    if s != [] {
      assert s == s[..|s| - 1] + [s[|s| - 1]];
      SortByMeaning(key, s[..|s| - 1]);
      InsertKeeps(key, s[|s| - 1], SortBy(key, s[..|s| - 1]));
      InsertAdds(key, s[|s| - 1], SortBy(key, s[..|s| - 1]));
    }
  }

  /** The elements with a given key, in order. */
  function Select<T>(key: T -> string, s: seq<T>, k: string): seq<T> {
    if s == [] then []
    else
      var rest := Select(key, s[..|s| - 1], k);
      if key(s[|s| - 1]) == k then rest + [s[|s| - 1]] else rest
  }

  /** Inserting leaves the order of elements with one key as it was, the new one behind them. */
  lemma {:induction false} InsertIsStable<T>(key: T -> string, x: T, s: seq<T>, k: string)
    ensures Select(key, Insert(key, x, s), k) == Select(key, s + [x], k)
  {
    hide Le;
    assert (s + [x])[..|s|] == s;
    if s != [] && !Le(key(s[|s| - 1]), key(x)) {
      var init, last := s[..|s| - 1], s[|s| - 1];
      InsertIsStable(key, x, init, k);
      assert (init + [x])[..|init|] == init;
      var t := Insert(key, x, init);
      assert (t + [last])[..|t|] == t;
      LeReflexive(key(x));
      assert key(last) != key(x);
    }
  }

  lemma LeReflexive(a: string)
    ensures Le(a, a)
  {
    LeTotal(a, a);
  }

  /** The sort is stable: elements with one key keep their order. */
  lemma {:induction false} SortIsStable<T>(key: T -> string, s: seq<T>, k: string)
    ensures Select(key, SortBy(key, s), k) == Select(key, s, k)
  {
    if s != [] {
      var init, x := s[..|s| - 1], s[|s| - 1];
      var t := SortBy(key, init);
      SortIsStable(key, init, k);
      InsertIsStable(key, x, t, k);
      assert (t + [x])[..|t|] == t;
    }
  }

  lemma LastIsGreatest<T(!new)>(key: T -> string, s: seq<T>, x: T)
    requires Sorted(key, s) && x in s
    ensures Le(key(x), key(s[|s| - 1]))
  {
    LeTotal(key(x), key(x));
  }

  lemma LastsAgree<T(!new)>(key: T -> string, s: seq<T>, t: seq<T>)
    requires Sorted(key, s) && Sorted(key, t) && UniqueKeys(key, t)
    requires s != [] && t != [] && s[|s| - 1] in t && t[|t| - 1] in s
    ensures s[|s| - 1] == t[|t| - 1]
  {
    var a, b := s[|s| - 1], t[|t| - 1];
    LastIsGreatest(key, s, b);
    LastIsGreatest(key, t, a);
    LeAntisymmetric(key(a), key(b));
    var i :| 0 <= i < |t| && t[i] == a;
  }

  lemma WithoutLast<T>(s: seq<T>)
    requires s != []
    ensures s == s[..|s| - 1] + [s[|s| - 1]]
    ensures multiset(s[..|s| - 1]) == multiset(s) - multiset{s[|s| - 1]}
  {
  }

  lemma PrefixIsSorted<T(!new)>(key: T -> string, s: seq<T>)
    requires s != [] && Sorted(key, s) && UniqueKeys(key, s)
    ensures Sorted(key, s[..|s| - 1]) && UniqueKeys(key, s[..|s| - 1])
  {
  }

  /** With unique keys there is only one sorted arrangement. */
  lemma {:induction false} SortedIsUnique<T(!new)>(key: T -> string, s: seq<T>, t: seq<T>)
    requires Sorted(key, s) && Sorted(key, t)
    requires UniqueKeys(key, s) && UniqueKeys(key, t)
    requires multiset(s) == multiset(t)
    ensures s == t
    decreases |s|
  {
    assert |s| == |multiset(s)| && |t| == |multiset(t)|;
    if s != [] {
      assert s[|s| - 1] in multiset(t) && t[|t| - 1] in multiset(s);
      LastsAgree(key, s, t);
      WithoutLast(s);
      WithoutLast(t);
      PrefixIsSorted(key, s);
      PrefixIsSorted(key, t);
      hide Sorted, UniqueKeys, Le;
      SortedIsUnique(key, s[..|s| - 1], t[..|t| - 1]);
    }
  }

  /** Sorting gives the same list whatever order the elements came in, once keys are unique. */
  lemma SortIgnoresOrder<T(!new)>(key: T -> string, s: seq<T>, t: seq<T>)
    requires multiset(s) == multiset(t) && UniqueKeys(key, s)
    ensures SortBy(key, s) == SortBy(key, t) && UniqueKeys(key, SortBy(key, s))
  {
    SortByMeaning(key, s);
    SortByMeaning(key, t);
    UniqueKeysPermute(key, s, SortBy(key, s));
    UniqueKeysPermute(key, s, SortBy(key, t));
    SortedIsUnique(key, SortBy(key, s), SortBy(key, t));
  }

  lemma UniqueKeysPermute<T(!new)>(key: T -> string, s: seq<T>, t: seq<T>)
    requires multiset(s) == multiset(t) && UniqueKeys(key, s)
    ensures UniqueKeys(key, t)
  {
    forall i, j | 0 <= i < j < |t| ensures key(t[i]) != key(t[j]) {
      assert t[i] in multiset(s) && t[j] in multiset(s);
      if t[i] == t[j] {
        TwiceInMultiset(t, i, j);
        OnceInMultiset(key, s, t[i]);
      } else {
        var a :| 0 <= a < |s| && s[a] == t[i];
        var b :| 0 <= b < |s| && s[b] == t[j];
      }
    }
  }

  lemma TwiceInMultiset<T>(t: seq<T>, i: nat, j: nat)
    requires i < j < |t| && t[i] == t[j]
    ensures multiset(t)[t[i]] >= 2
  {
    assert t == t[..j] + [t[j]] + t[j + 1..];
    assert t[..j][i] == t[i];
    assert t[i] in multiset(t[..j]);
  }

  lemma {:induction false} OnceInMultiset<T(!new)>(key: T -> string, s: seq<T>, x: T)
    requires UniqueKeys(key, s)
    ensures multiset(s)[x] <= 1
    decreases |s|
  {
    if s != [] {
      WithoutLast(s);
      var init := s[..|s| - 1];
      OnceInMultiset(key, init, x);
      if s[|s| - 1] == x {
        assert x !in init;
        assert x !in multiset(init);
      }
    }
  }

  // ----- lists with the same entries -----

  /** The same entries, in any order. */
  ghost predicate SameEntries<T>(a: seq<T>, b: seq<T>) {
    multiset(a) == multiset(b)
  }

  lemma SameMembers<T>(a: seq<T>, b: seq<T>)
    requires SameEntries(a, b)
    ensures |a| == |b| && forall x :: x in a <==> x in b
  {
    assert |multiset(a)| == |a| && |multiset(b)| == |b|;
    forall x ensures x in a <==> x in b {
      assert x in a <==> x in multiset(a);
      assert x in b <==> x in multiset(b);
    }
  }

  /** Two places of one list are two places of the other. */
  lemma TwoPlaces<T>(a: seq<T>, b: seq<T>, i: nat, j: nat) returns (m: nat, n: nat)
    requires SameEntries(a, b) && i < j < |b|
    ensures m < |a| && n < |a| && m != n && a[m] == b[i] && a[n] == b[j]
  {
    SameMembers(a, b);
    assert b[i] in a && b[j] in a;
    if b[i] != b[j] {
      m :| m < |a| && a[m] == b[i];
      n :| n < |a| && a[n] == b[j];
    } else {
      TwiceInMultiset(b, i, j);
      m, n := Twice(a, b[i]);
    }
  }

  lemma {:induction false} Twice<T>(a: seq<T>, x: T) returns (m: nat, n: nat)
    requires multiset(a)[x] >= 2
    ensures m < n < |a| && a[m] == a[n] == x
    decreases |a|
  {
    WithoutLast(a);
    var init := a[..|a| - 1];
    if a[|a| - 1] == x {
      assert x in multiset(init);
      m :| m < |init| && init[m] == x;
      n := |a| - 1;
    } else {
      m, n := Twice(init, x);
    }
  }
}
