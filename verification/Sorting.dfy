/** Sorting by a string key, in the order Go and Python compare strings: lexicographic on bytes,
    which is lexicographic on code points. */
module Sorting {
  type Code = seq<int>

  predicate Less(a: Code, b: Code) {
    b != [] && (a == [] || a[0] < b[0] || (a[0] == b[0] && Less(a[1..], b[1..])))
  }

  /** Less is the order of dictionaries: a proper prefix comes first, and otherwise the first place
      where the two differ decides. */
  lemma {:induction false} LessExact(a: Code, b: Code)
    ensures Less(a, b) <==> a < b || exists k: nat :: k < |a| && k < |b| && a[..k] == b[..k] && a[k] < b[k]
  {
    if a != [] && b != [] && a[0] == b[0] {
      LessExact(a[1..], b[1..]);
      assert a == [a[0]] + a[1..] && b == [b[0]] + b[1..];
      if k: nat :| k < |a| && k < |b| && a[..k] == b[..k] && a[k] < b[k] {
        assert k > 0;
        assert a[1..][..k - 1] == a[..k][1..] && b[1..][..k - 1] == b[..k][1..];
      }
      if k: nat :| k < |a[1..]| && k < |b[1..]| && a[1..][..k] == b[1..][..k] && a[1..][k] < b[1..][k] {
        assert a[..k + 1] == [a[0]] + a[1..][..k] && b[..k + 1] == [b[0]] + b[1..][..k];
      }
    } else if a != [] && b != [] {
      if a[0] < b[0] {
        assert a[..0] == b[..0];
      }
      forall k: nat | 0 < k < |a| && k < |b|
        ensures a[..k] != b[..k]
      {
        assert a[..k][0] == a[0] && b[..k][0] == b[0];
      }
    }
  }

  predicate AtMost(a: Code, b: Code) {
    !Less(b, a)
  }

  lemma {:induction false} LessIsStrictOrder(a: Code, b: Code, c: Code)
    ensures !Less(a, a)
    ensures Less(a, b) ==> !Less(b, a)
    ensures Less(a, b) && AtMost(b, c) ==> Less(a, c)
    ensures AtMost(a, b) && AtMost(b, c) ==> AtMost(a, c)
    ensures AtMost(a, b) && AtMost(b, a) ==> a == b
    decreases |a| + |b| + |c|
  {
    if a != [] {
      LessIsStrictOrder(a[1..], [], []);
    }
    if a != [] && b != [] {
      LessIsStrictOrder(a[1..], b[1..], []);
      assert a == [a[0]] + a[1..] && b == [b[0]] + b[1..];
      if c != [] {
        LessIsStrictOrder(a[1..], b[1..], c[1..]);
      }
    }
  }

  predicate Sorted<T>(key: T -> Code, xs: seq<T>) {
    forall i, j | 0 <= i < j < |xs| :: AtMost(key(xs[i]), key(xs[j]))
  }

  predicate StrictlySorted<T>(key: T -> Code, xs: seq<T>) {
    forall i, j | 0 <= i < j < |xs| :: Less(key(xs[i]), key(xs[j]))
  }

  function Insert<T>(key: T -> Code, x: T, xs: seq<T>): (r: seq<T>)
    requires Sorted(key, xs)
    ensures Sorted(key, r)
    ensures multiset(r) == multiset(xs) + multiset{x}
  {
    if xs == [] || AtMost(key(x), key(xs[0])) then
      InFront(key, x, xs);
      [x] + xs
    else
      var rest := Insert(key, x, xs[1..]);
      assert xs == [xs[0]] + xs[1..];
      FrontStays(key, x, xs, rest);
      [xs[0]] + rest
  }

  lemma InFront<T>(key: T -> Code, x: T, xs: seq<T>)
    requires Sorted(key, xs) && (xs == [] || AtMost(key(x), key(xs[0])))
    ensures Sorted(key, [x] + xs)
  {
    var r := [x] + xs;
    forall j | 1 <= j < |r|
      ensures AtMost(key(x), key(r[j]))
    {
      if j > 1 {
        LessIsStrictOrder(key(x), key(xs[0]), key(xs[j - 1]));
      }
    }
  }

  lemma FrontStays<T>(key: T -> Code, x: T, xs: seq<T>, rest: seq<T>)
    requires xs != [] && Sorted(key, xs) && Less(key(xs[0]), key(x))
    requires Sorted(key, rest) && multiset(rest) == multiset(xs[1..]) + multiset{x}
    ensures Sorted(key, [xs[0]] + rest)
  {
    var r := [xs[0]] + rest;
    forall j | 1 <= j < |r|
      ensures AtMost(key(xs[0]), key(r[j]))
    {
      assert rest[j - 1] in multiset(rest);
      LessIsStrictOrder(key(xs[0]), key(x), key(xs[0]));
      if rest[j - 1] in xs[1..] {
        var k :| 0 <= k < |xs[1..]| && xs[1..][k] == rest[j - 1];
        assert xs[k + 1] == rest[j - 1];
      } else {
        assert rest[j - 1] == x;
      }
    }
  }

  /** A stable sort by key. */
  function SortBy<T>(key: T -> Code, xs: seq<T>): (r: seq<T>)
    ensures Sorted(key, r)
    ensures multiset(r) == multiset(xs)
  {
    if xs == [] then [] else
      assert xs == [xs[0]] + xs[1..];
      Insert(key, xs[0], SortBy(key, xs[1..]))
  }

  /** No two different elements share a key. */
  ghost predicate KeyDetermines<T(!new)>(key: T -> Code, xs: seq<T>) {
    forall x, y | x in xs && y in xs && key(x) == key(y) :: x == y
  }

  lemma HeadAtMost<T(!new)>(key: T -> Code, xs: seq<T>, x: T)
    requires Sorted(key, xs) && x in multiset(xs)
    ensures AtMost(key(xs[0]), key(x))
  {
    var i :| 0 <= i < |xs| && xs[i] == x;
    LessIsStrictOrder(key(x), key(x), key(x));
  }

  lemma HeadsAgree<T(!new)>(key: T -> Code, xs: seq<T>, ys: seq<T>)
    requires xs != [] && ys != [] && Sorted(key, xs) && Sorted(key, ys) && multiset(xs) == multiset(ys)
    requires KeyDetermines(key, xs)
    ensures xs[0] == ys[0]
  {
    var x, y := xs[0], ys[0];
    assert x in multiset(xs) && y in multiset(ys);
    HeadAtMost(key, xs, y);
    HeadAtMost(key, ys, x);
    LessIsStrictOrder(key(x), key(y), key(x));
    assert y in xs;
  }

  lemma TailsAgree<T>(xs: seq<T>, ys: seq<T>)
    requires xs != [] && ys != [] && xs[0] == ys[0] && multiset(xs) == multiset(ys)
    ensures multiset(xs[1..]) == multiset(ys[1..])
  {
    assert xs == [xs[0]] + xs[1..] && ys == [ys[0]] + ys[1..];
    assert multiset(xs[1..]) == multiset(xs) - multiset{xs[0]};
    assert multiset(ys[1..]) == multiset(ys) - multiset{ys[0]};
  }

  /** Where the key tells elements apart there is only one sorted arrangement. */
  lemma {:induction false} SortedUnique<T(!new)>(key: T -> Code, xs: seq<T>, ys: seq<T>)
    requires Sorted(key, xs) && Sorted(key, ys) && multiset(xs) == multiset(ys)
    requires KeyDetermines(key, xs)
    ensures xs == ys
  {
    assert |multiset(xs)| == |xs| && |multiset(ys)| == |ys|;
    if xs != [] {
      HeadsAgree(key, xs, ys);
      TailsAgree(xs, ys);
      forall x, y | x in xs[1..] && y in xs[1..] && key(x) == key(y)
        ensures x == y
      {
        assert x in xs && y in xs;
      }
      SortedUnique(key, xs[1..], ys[1..]);
      assert xs == [xs[0]] + xs[1..] && ys == [ys[0]] + ys[1..];
    }
  }

  /** Sorting forgets the order it was given. */
  lemma SortIgnoresOrder<T(!new)>(key: T -> Code, xs: seq<T>, ys: seq<T>)
    requires multiset(xs) == multiset(ys) && KeyDetermines(key, xs)
    ensures SortBy(key, xs) == SortBy(key, ys)
  {
    var a := SortBy(key, xs);
    forall x, y | x in a && y in a && key(x) == key(y)
      ensures x == y
    {
      assert x in multiset(a) && y in multiset(a);
      assert x in xs && y in xs;
    }
    SortedUnique(key, a, SortBy(key, ys));
  }

  function Codes(s: string): Code {
    seq(|s|, i requires 0 <= i < |s| => s[i] as int)
  }

  lemma CodesInjective(s: string, t: string)
    requires Codes(s) == Codes(t)
    ensures s == t
  {
    assert |s| == |Codes(s)| && |t| == |Codes(t)|;
    forall i | 0 <= i < |s|
      ensures s[i] == t[i]
    {
      assert Codes(s)[i] == Codes(t)[i];
    }
  }

  predicate IsLeast(k: string, ks: set<string>) {
    k in ks && forall j | j in ks :: AtMost(Codes(k), Codes(j))
  }

  lemma LeastUnique(ks: set<string>)
    ensures forall a, b | IsLeast(a, ks) && IsLeast(b, ks) :: a == b
  {
    forall a, b | IsLeast(a, ks) && IsLeast(b, ks)
      ensures a == b
    {
      LessIsStrictOrder(Codes(a), Codes(b), Codes(a));
      CodesInjective(a, b);
    }
  }

  lemma {:induction false} LeastExists(ks: set<string>)
    requires ks != {}
    ensures exists k :: IsLeast(k, ks)
  {
    var k :| k in ks;
    LessIsStrictOrder(Codes(k), Codes(k), Codes(k));
    if ks == {k} {
      assert IsLeast(k, ks);
    } else {
      LeastExists(ks - {k});
      var l :| IsLeast(l, ks - {k});
      if AtMost(Codes(k), Codes(l)) {
        forall j | j in ks
          ensures AtMost(Codes(k), Codes(j))
        {
          if j != k {
            LessIsStrictOrder(Codes(k), Codes(l), Codes(j));
          }
        }
        assert IsLeast(k, ks);
      } else {
        LessIsStrictOrder(Codes(l), Codes(k), Codes(l));
        assert IsLeast(l, ks);
      }
    }
  }

  /** The keys of a map in the order sort.Strings and json.Marshal put them. */
  function SortedKeys(ks: set<string>): (r: seq<string>)
    ensures forall k :: k in r <==> k in ks
    ensures StrictlySorted(Codes, r)
  {
    if ks == {} then [] else
      LeastExists(ks);
      LeastUnique(ks);
      var k :| IsLeast(k, ks);
      var rest := SortedKeys(ks - {k});
      LeastFirst(k, ks, rest);
      [k] + rest
  }

  lemma LeastFirst(k: string, ks: set<string>, rest: seq<string>)
    requires IsLeast(k, ks) && StrictlySorted(Codes, rest)
    requires forall j :: j in rest <==> j in ks - {k}
    ensures StrictlySorted(Codes, [k] + rest)
    ensures forall j :: j in [k] + rest <==> j in ks
  {
    forall j | 0 <= j < |rest|
      ensures Less(Codes(k), Codes(rest[j]))
    {
      assert rest[j] in rest;
      if !Less(Codes(k), Codes(rest[j])) {
        LessIsStrictOrder(Codes(k), Codes(rest[j]), Codes(k));
        CodesInjective(k, rest[j]);
      }
    }
  }

  /** A strictly sorted list is the sorted list of its own elements. */
  lemma {:induction false} SortedKeysUnique(ks: set<string>, r: seq<string>)
    requires StrictlySorted(Codes, r) && forall k :: k in r <==> k in ks
    ensures r == SortedKeys(ks)
  {
    if r == [] {
      assert forall k :: k in ks ==> k in r;
      assert ks == {};
    } else {
      var k := r[0];
      assert k in r;
      LessIsStrictOrder(Codes(k), Codes(k), Codes(k));
      forall j | j in ks
        ensures AtMost(Codes(k), Codes(j))
      {
        var i :| 0 <= i < |r| && r[i] == j;
        LessIsStrictOrder(Codes(k), Codes(j), Codes(k));
      }
      LeastUnique(ks);
      LeastExists(ks);
      assert IsLeast(k, ks);
      forall j
        ensures j in r[1..] <==> j in ks - {k}
      {
        if j in r[1..] {
          var i :| 0 <= i < |r[1..]| && r[1..][i] == j;
          assert Less(Codes(r[0]), Codes(r[i + 1]));
        }
        assert r == [k] + r[1..];
      }
      SortedKeysUnique(ks - {k}, r[1..]);
      assert r == [k] + r[1..];
    }
  }

  /** Sorting a list without repetitions gives the sorted list of its elements, so the order it
      was gathered in, a map's iteration order say, does not matter. */
  lemma SortedListIsCanonical(xs: seq<string>, ks: set<string>)
    requires forall i, j | 0 <= i < j < |xs| :: xs[i] != xs[j]
    requires forall k :: k in xs <==> k in ks
    ensures SortBy(Codes, xs) == SortedKeys(ks)
  {
    var r := SortBy(Codes, xs);
    DistinctMultiset(xs);
    forall i, j | 0 <= i < j < |r|
      ensures Less(Codes(r[i]), Codes(r[j]))
    {
      assert multiset(r)[r[i]] <= 1;
      if !Less(Codes(r[i]), Codes(r[j])) {
        LessIsStrictOrder(Codes(r[i]), Codes(r[j]), Codes(r[i]));
        CodesInjective(r[i], r[j]);
        TwiceInMultiset(r, i, j);
      }
    }
    forall k
      ensures k in r <==> k in ks
    {
      assert k in r <==> k in multiset(r);
      assert k in xs <==> k in multiset(xs);
    }
    SortedKeysUnique(ks, r);
  }

  lemma {:induction false} DistinctMultiset(xs: seq<string>)
    requires forall i, j | 0 <= i < j < |xs| :: xs[i] != xs[j]
    ensures forall x :: multiset(xs)[x] <= 1
  {
    if xs != [] {
      DistinctMultiset(xs[1..]);
      assert xs == [xs[0]] + xs[1..];
      assert xs[0] !in multiset(xs[1..]);
    }
  }

  lemma TwiceInMultiset(r: seq<string>, i: nat, j: nat)
    requires i < j < |r| && r[i] == r[j]
    ensures multiset(r)[r[i]] >= 2
  {
    assert r == r[..i] + [r[i]] + r[i + 1..j] + [r[j]] + r[j + 1..];
    assert multiset(r) == multiset(r[..i]) + multiset{r[i]} + multiset(r[i + 1..j]) + multiset{r[j]} + multiset(r[j + 1..]);
  }
}
