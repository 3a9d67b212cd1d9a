/** Text order, and listing rows by a text column as `ORDER BY` does. */
module Ordering {
  import opened Basics

  predicate Less(a: string, b: string) {
    b != "" && (a == "" || a[0] < b[0] || (a[0] == b[0] && Less(a[1..], b[1..])))
  }

  lemma {:induction false} LessTransitive(a: string, b: string, c: string)
    requires Less(a, b) && Less(b, c)
    ensures Less(a, c)
  {
    if a != "" && a[0] == b[0] == c[0] {
      LessTransitive(a[1..], b[1..], c[1..]);
    }
  }

  lemma {:induction false} LessTotal(a: string, b: string)
    ensures Less(a, b) || Less(b, a) || a == b
    ensures !(Less(a, b) && Less(b, a))
    ensures !Less(a, a)
  {
    if a != "" && b != "" && a[0] == b[0] {
      LessTotal(a[1..], b[1..]);
      assert a == [a[0]] + a[1..] && b == [b[0]] + b[1..];
    }
    if a != "" {
      LessTotal(a[1..], a[1..]);
    }
  }

  /** The texts agree up to place `n`, where the first one ends or has the smaller character. */
  predicate SmallerAt(a: string, b: string, n: nat) {
    n <= |a| && n < |b| && a[..n] == b[..n] && (n == |a| || a[n] as int < b[n] as int)
  }

  /** The order is that of the first difference, by character code, and a text comes after its prefixes. */
  lemma {:induction false} LessIsLexicographic(a: string, b: string)
    ensures Less(a, b) <==> exists n: nat :: SmallerAt(a, b, n)
  {
    if a != "" && b != "" && a[0] == b[0] {
      LessIsLexicographic(a[1..], b[1..]);
      if n: nat :| SmallerAt(a[1..], b[1..], n) {
        LaterPlace(a, b, n);
      }
      if n: nat :| SmallerAt(a, b, n) {
        EarlierPlace(a, b, n);
      }
    } else {
      assert Less(a, b) ==> SmallerAt(a, b, 0);
      forall n: nat | SmallerAt(a, b, n)
        ensures Less(a, b)
      {
        SameStart(a, b, n);
      }
    }
  }

  lemma SameStart(a: string, b: string, n: nat)
    requires SmallerAt(a, b, n)
    ensures n == 0 || (a != "" && b != "" && a[0] == b[0])
  {
    if n > 0 {
      assert a[..n][0] == b[..n][0];
    }
  }

  lemma LaterPlace(a: string, b: string, n: nat)
    requires a != "" && b != "" && a[0] == b[0] && SmallerAt(a[1..], b[1..], n)
    ensures SmallerAt(a, b, n + 1)
  {
    assert a[..n + 1] == [a[0]] + a[1..][..n] && b[..n + 1] == [b[0]] + b[1..][..n];
  }

  lemma EarlierPlace(a: string, b: string, n: nat)
    requires a != "" && b != "" && a[0] == b[0] && SmallerAt(a, b, n)
    ensures n > 0 && SmallerAt(a[1..], b[1..], n - 1)
  {
    assert n > 0;
    assert a[1..][..n - 1] == a[..n][1..] && b[1..][..n - 1] == b[..n][1..];
  }

  /** Distinct rows have distinct keys: what a UNIQUE column gives. */
  ghost predicate UniqueKey<T(!new)>(ids: set<int>, key: map<int, T>) {
    ids <= key.Keys &&
    forall i, j :: i in ids && j in ids && key[i] == key[j] ==> i == j
  }

  predicate IsLeast(m: int, ids: set<int>, key: map<int, string>)
    requires ids <= key.Keys
  {
    m in ids && forall j :: j in ids && j != m ==> Less(key[m], key[j])
  }

  lemma {:induction false} LeastExists(ids: set<int>, key: map<int, string>)
    requires ids != {}
    requires UniqueKey(ids, key)
    ensures exists m :: IsLeast(m, ids, key)
    decreases |ids|
  {
    assert |ids| > 0;
    var x := SomeElement(ids);
    var rest := ids - {x};
    assert ids == rest + {x};
    if rest == {} {
      assert IsLeast(x, ids, key);
    } else {
      LeastExists(rest, key);
      var m :| IsLeast(m, rest, key);
      LessTotal(key[m], key[x]);
      if Less(key[x], key[m]) {
        forall j | j in ids && j != x
          ensures Less(key[x], key[j])
        {
          if j != m {
            LessTransitive(key[x], key[m], key[j]);
          }
        }
        assert IsLeast(x, ids, key);
      } else {
        assert IsLeast(m, ids, key);
      }
    }
  }

  lemma LeastUnique(ids: set<int>, key: map<int, string>)
    requires UniqueKey(ids, key)
    ensures forall m, n :: IsLeast(m, ids, key) && IsLeast(n, ids, key) ==> m == n
  {
    forall m, n | IsLeast(m, ids, key) && IsLeast(n, ids, key)
      ensures m == n
    {
      LessTotal(key[m], key[n]);
    }
  }

  /** `ORDER BY key` over a unique column: the one ascending listing of the rows. */
  function OrderBy(ids: set<int>, key: map<int, string>): (r: seq<int>)
    requires UniqueKey(ids, key)
    ensures forall i :: i in r <==> i in ids
    ensures forall a, b :: 0 <= a < b < |r| ==> r[a] in ids && r[b] in ids && Less(key[r[a]], key[r[b]])
    ensures forall a, b :: 0 <= a < b < |r| ==> r[a] != r[b]
    decreases |ids|
  {
    if |ids| == 0 then []
    else
      LeastExists(ids, key);
      LeastUnique(ids, key);
      var m :| IsLeast(m, ids, key);
      var rest := OrderBy(ids - {m}, key);
      [m] + rest
  }

  // ---------- ORDER BY columns that may tie ----------

  /** Irreflexive and transitive on `s`. */
  ghost predicate StrictOn<T(!new)>(s: set<T>, less: (T, T) -> bool) {
    && (forall x :: x in s ==> !less(x, x))
    && (forall x, y, z :: x in s && y in s && z in s && less(x, y) && less(y, z) ==> less(x, z))
  }

  predicate Minimal<T(==)>(m: T, s: set<T>, less: (T, T) -> bool) {
    m in s && forall x :: x in s ==> !less(x, m)
  }

  lemma {:induction false} MinimalExists<T(!new)>(s: set<T>, less: (T, T) -> bool)
    requires s != {} && StrictOn(s, less)
    ensures exists m :: Minimal(m, s, less)
    decreases |s|
  {
    var x := SomeElement(s);
    var rest := s - {x};
    assert s == rest + {x};
    if rest == {} {
      assert Minimal(x, s, less);
    } else {
      MinimalExists(rest, less);
      var m :| Minimal(m, rest, less);
      assert if less(x, m) then Minimal(x, s, less) else Minimal(m, s, less);
    }
  }

  /** Every element once, and none before a smaller one; elements that tie come in any order. */
  ghost predicate IsListing<T(!new)>(s: set<T>, less: (T, T) -> bool, r: seq<T>) {
    && (forall k :: 0 <= k < |r| ==> r[k] in s)
    && (forall x :: x in s ==> x in r)
    && (forall a, b :: 0 <= a < b < |r| ==> r[a] != r[b] && !less(r[b], r[a]))
  }

  /** `r` lists the first elements of `s`, and `todo` the others. */
  ghost predicate ListingSoFar<T(!new)>(s: set<T>, less: (T, T) -> bool, r: seq<T>, todo: set<T>) {
    && todo <= s && IsListing(s - todo, less, r)
    && (forall k, x :: 0 <= k < |r| && x in todo ==> !less(x, r[k]))
  }

  lemma ListingNext<T(!new)>(s: set<T>, less: (T, T) -> bool, r: seq<T>, todo: set<T>, m: T)
    requires ListingSoFar(s, less, r, todo) && Minimal(m, todo, less)
    ensures ListingSoFar(s, less, r + [m], todo - {m})
  {
    var more := r + [m];
    assert forall k :: 0 <= k < |r| ==> more[k] == r[k];
    assert forall x :: x in more <==> x in r || x == m;
  }

  method SortedListing<T(==,!new)>(s: set<T>, less: (T, T) -> bool) returns (r: seq<T>)
    requires StrictOn(s, less)
    ensures IsListing(s, less, r)
  {
    r := [];
    var todo := s;
    while todo != {}
      invariant ListingSoFar(s, less, r, todo)
      decreases |todo|
    {
      MinimalExists(todo, less);
      var m :| Minimal(m, todo, less);
      ListingNext(s, less, r, todo, m);
      r, todo := r + [m], todo - {m};
    }
    assert s - todo == s;
  }
}
