/** Sequences used as the ordered sets and maps of JavaScript (`Set`, `Map`
    keep insertion order). */
module Seqs {

  /** No element occurs twice. */
  predicate NoDup<T(==)>(s: seq<T>) {
    forall i, j | 0 <= i < j < |s| :: s[i] != s[j]
  }

  /** `Set.add` / `Map.set` on the key order: a new key goes last, a present
      key keeps its place. */
  function AddLast<T(==,!new)>(s: seq<T>, x: T): (r: seq<T>)
    ensures forall y :: y in r <==> y in s || y == x
    ensures NoDup(s) ==> NoDup(r)
    ensures x in s ==> r == s
    ensures x !in s ==> r == s + [x]
  {
    if x in s then s else s + [x]
  }

  /** `Set.delete` / `Map.delete`: the sequence without `x`, order kept. */
  function Without<T(==,!new)>(s: seq<T>, x: T): (r: seq<T>)
    ensures forall y :: y in r <==> y in s && y != x
    ensures |r| <= |s|
  {
    if s == [] then []
    else (if s[0] == x then [] else [s[0]]) + Without(s[1..], x)
  }

  /** `r` is a selection of the elements of `s`, in the order they have
      in `s`. */
  predicate Subsequence<T(==)>(r: seq<T>, s: seq<T>)
    decreases |s|
  {
    if r == [] then true
    else if s == [] then false
    else (r[0] == s[0] && Subsequence(r[1..], s[1..])) || Subsequence(r, s[1..])
  }

  lemma {:induction false} WithoutKeepsNoDup<T(!new)>(s: seq<T>, x: T)
    requires NoDup(s)
    ensures NoDup(Without(s, x))
  {
    if s != [] {
      assert NoDup(s[1..]) by {
        forall i, j | 0 <= i < j < |s[1..]| ensures s[1..][i] != s[1..][j] {
          assert s[1..][i] == s[i + 1] && s[1..][j] == s[j + 1];
        }
      }
      WithoutKeepsNoDup(s[1..], x);
      var t := Without(s[1..], x);
      if s[0] != x {
        assert s[0] !in s[1..] by {
          forall i | 0 <= i < |s[1..]| ensures s[1..][i] != s[0] {
            assert s[1..][i] == s[i + 1];
          }
        }
        assert s[0] !in t;
        var r := [s[0]] + t;
        forall i, j | 0 <= i < j < |r| ensures r[i] != r[j] {
          if i == 0 {
            assert r[j] == t[j - 1];
          } else {
            assert r[i] == t[i - 1] && r[j] == t[j - 1];
          }
        }
      }
    }
  }

  lemma {:induction false} WithoutAbsent<T(!new)>(s: seq<T>, x: T)
    requires x !in s
    ensures Without(s, x) == s
  {
    if s != [] {
      assert x !in s[1..];
      WithoutAbsent(s[1..], x);
      assert s == [s[0]] + s[1..];
    }
  }

  /** Taking out the element just added gives back the original sequence. */
  lemma {:induction false} WithoutAddLast<T(!new)>(s: seq<T>, x: T)
    requires x !in s
    ensures Without(AddLast(s, x), x) == s
  {
    if s == [] {
      assert AddLast(s, x) == [x];
    } else {
      var t := AddLast(s, x);
      assert t[0] == s[0] && t[1..] == s[1..] + [x];
      assert x !in s[1..];
      WithoutAddLast(s[1..], x);
      assert AddLast(s[1..], x) == s[1..] + [x];
      assert s == [s[0]] + s[1..];
    }
  }

  /** Taking out the first element of a list without duplicates leaves the
      rest. */
  lemma WithoutHead<T(!new)>(s: seq<T>)
    requires NoDup(s) && |s| > 0
    ensures Without(s, s[0]) == s[1..]
  {
    assert s[0] !in s[1..] by {
      forall i | 0 <= i < |s[1..]| ensures s[1..][i] != s[0] {
        assert s[1..][i] == s[i + 1];
      }
    }
    WithoutAbsent(s[1..], s[0]);
  }

  lemma NoDupTail<T>(s: seq<T>)
    requires NoDup(s) && |s| > 0
    ensures NoDup(s[1..])
  {
    forall i, j | 0 <= i < j < |s[1..]| ensures s[1..][i] != s[1..][j] {
      assert s[1..][i] == s[i + 1] && s[1..][j] == s[j + 1];
    }
  }

  lemma PairOfSingletons<T>(a: T, b: T)
    ensures [a] + [b] == [a, b]
  {
  }

  lemma OntoEmpty<T>(s: seq<T>, x: T)
    requires s == []
    ensures s + [x] == [x]
  {
  }

  /** A key written twice holds only the second value. */
  lemma PutTwice<K, V>(m: map<K, V>, k: K, a: V, b: V)
    ensures m[k := a][k := b] == m[k := b]
  {
  }

  /** Removing a key forgets what was last written under it. */
  lemma RemovePut<K, V>(m: map<K, V>, k: K, v: V)
    ensures m[k := v] - {k} == m - {k}
  {
  }

  /** Writing back the value a key already holds changes nothing. */
  lemma PutSame<K, V>(m: map<K, V>, k: K)
    requires k in m
    ensures m[k := m[k]] == m
  {
  }

  /** Writes under two different keys can be made in either order. */
  lemma PutSwap<K, V>(m: map<K, V>, a: K, x: V, b: K, y: V)
    requires a != b
    ensures m[a := x][b := y] == m[b := y][a := x]
  {
  }
}
