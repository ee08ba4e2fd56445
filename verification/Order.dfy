/** Byte-string order and library sorting.

    `std::sort` and `table.sort` leave elements that compare equal in any order, so sorting is a
    method whose contract promises only an ordered permutation: what is proved from it holds for
    every way of breaking ties. */
module Order {

  /** `std::string::operator<`: lexicographic, by byte. */
  predicate Less(a: string, b: string) {
    b != [] && (a == [] || a[0] < b[0] || (a[0] == b[0] && Less(a[1..], b[1..])))
  }

  /** The order in other words: up to some place the strings agree, and there the first one ends or has
      the smaller character. */
  ghost predicate FirstDifference(a: string, b: string, k: nat) {
    k <= |a| && k < |b| && a[..k] == b[..k] && (k == |a| || a[k] < b[k])
  }

  lemma SameStart<T>(a: seq<T>, b: seq<T>, k: nat)
    requires a != [] && b != [] && k <= |a| && k <= |b| && a[..k] == b[..k]
    ensures k > 0 ==> a[0] == b[0]
  {
    if k > 0 { assert a[..k][0] == a[0] && b[..k][0] == b[0]; }
  }

  lemma {:induction false} LessMeans(a: string, b: string)
    ensures Less(a, b) <==> exists k: nat :: FirstDifference(a, b, k)
  {
    if a == [] || b == [] {
      if Less(a, b) { assert FirstDifference(a, b, 0); }
    } else if a[0] != b[0] {
      if Less(a, b) { assert FirstDifference(a, b, 0); }
      forall k: nat | FirstDifference(a, b, k) ensures Less(a, b) {
        SameStart(a, b, k);
      }
    } else {
      LessMeans(a[1..], b[1..]);
      if k: nat :| FirstDifference(a[1..], b[1..], k) {
        assert a[..k + 1] == [a[0]] + a[1..][..k] && b[..k + 1] == [b[0]] + b[1..][..k];
        assert FirstDifference(a, b, k + 1);
      }
      forall k: nat | FirstDifference(a, b, k) ensures Less(a, b) {
        assert a[1..][..k - 1] == a[..k][1..] && b[1..][..k - 1] == b[..k][1..];
        assert FirstDifference(a[1..], b[1..], k - 1);
      }
    }
  }

  lemma {:induction false} LessAsymmetric(a: string, b: string)
    ensures Less(a, b) ==> !Less(b, a) && a != b
  {
    if a != [] && b != [] { LessAsymmetric(a[1..], b[1..]); }
  }

  lemma {:induction false} LessTotal(a: string, b: string)
    ensures Less(a, b) || a == b || Less(b, a)
  {
    if a != [] && b != [] {
      LessTotal(a[1..], b[1..]);
      assert a == [a[0]] + a[1..] && b == [b[0]] + b[1..];
    }
  }

  lemma {:induction false} LessTransitive(a: string, b: string, c: string)
    ensures Less(a, b) && Less(b, c) ==> Less(a, c)
    ensures !Less(b, a) && !Less(c, b) ==> !Less(c, a)
  {
    if a != [] && b != [] && c != [] { LessTransitive(a[1..], b[1..], c[1..]); }
  }

  /** `operator<` of lists of strings. */
  predicate LessList(a: seq<string>, b: seq<string>) {
    b != [] && (a == [] || Less(a[0], b[0]) || (a[0] == b[0] && LessList(a[1..], b[1..])))
  }

  ghost predicate FirstOther(a: seq<string>, b: seq<string>, k: nat) {
    k <= |a| && k < |b| && a[..k] == b[..k] && (k == |a| || Less(a[k], b[k]))
  }

  /** Lists are compared at the first place where they differ. */
  lemma {:induction false} LessListMeans(a: seq<string>, b: seq<string>)
    ensures LessList(a, b) <==> exists k: nat :: FirstOther(a, b, k)
  {
    if a == [] || b == [] {
      if LessList(a, b) { assert FirstOther(a, b, 0); }
    } else if a[0] != b[0] {
      if LessList(a, b) { assert FirstOther(a, b, 0); }
      forall k: nat | FirstOther(a, b, k) ensures LessList(a, b) {
        SameStart(a, b, k);
      }
    } else {
      LessAsymmetric(a[0], a[0]);
      LessListMeans(a[1..], b[1..]);
      if k: nat :| FirstOther(a[1..], b[1..], k) {
        assert a[..k + 1] == [a[0]] + a[1..][..k] && b[..k + 1] == [b[0]] + b[1..][..k];
        assert FirstOther(a, b, k + 1);
      }
      forall k: nat | FirstOther(a, b, k) ensures LessList(a, b) {
        assert k > 0;
        assert a[1..][..k - 1] == a[..k][1..] && b[1..][..k - 1] == b[..k][1..];
        assert FirstOther(a[1..], b[1..], k - 1);
      }
    }
  }

  lemma {:induction false} LessListAsymmetric(a: seq<string>, b: seq<string>)
    ensures LessList(a, b) ==> !LessList(b, a)
  {
    if a != [] && b != [] {
      LessAsymmetric(a[0], b[0]);
      LessAsymmetric(b[0], a[0]);
      LessListAsymmetric(a[1..], b[1..]);
    }
  }

  lemma {:induction false} LessListTransitive(a: seq<string>, b: seq<string>, c: seq<string>)
    ensures !LessList(b, a) && !LessList(c, b) ==> !LessList(c, a)
  {
    if a != [] && b != [] && c != [] {
      LessTotal(a[0], b[0]);
      LessTotal(b[0], c[0]);
      LessTransitive(a[0], b[0], c[0]);
      LessAsymmetric(a[0], c[0]);
      LessAsymmetric(c[0], a[0]);
      LessListTransitive(a[1..], b[1..], c[1..]);
    }
  }

  /** What a comparator has to be. */
  ghost predicate StrictWeak<T(!new)>(less: (T, T) -> bool) {
    && (forall a, b :: less(a, b) ==> !less(b, a))
    && (forall a, b, c :: !less(b, a) && !less(c, b) ==> !less(c, a))
  }

  ghost predicate InOrder<T>(s: seq<T>, less: (T, T) -> bool) {
    forall i, j :: 0 <= i < j < |s| ==> !less(s[j], s[i])
  }

  ghost predicate IsSorting<T>(r: seq<T>, s: seq<T>, less: (T, T) -> bool) {
    InOrder(r, less) && multiset(r) == multiset(s)
  }

  lemma InsertedAt<T(!new)>(s: seq<T>, x: T, k: nat, less: (T, T) -> bool, i: nat, j: nat)
    requires StrictWeak(less) && InOrder(s, less) && k <= |s|
    requires (forall m :: 0 <= m < k ==> !less(x, s[m])) && (k < |s| ==> less(x, s[k]))
    requires i < j <= |s|
    ensures var r := s[..k] + [x] + s[k..]; !less(r[j], r[i])
  {
    if i == k {
      assert !less(s[j - 1], s[k]);
    } else if j != k {
      assert !less(s[if j < k then j else j - 1], s[if i < k then i else i - 1]);
    }
  }

  method Insert<T(!new)>(s: seq<T>, x: T, less: (T, T) -> bool) returns (r: seq<T>)
    requires StrictWeak(less) && InOrder(s, less)
    ensures IsSorting(r, s + [x], less)
  {
    var k := 0;
    while k < |s| && !less(x, s[k])
      invariant k <= |s| && forall m :: 0 <= m < k ==> !less(x, s[m])
    {
      k := k + 1;
    }
    r := s[..k] + [x] + s[k..];
    forall i, j | 0 <= i < j < |r| ensures !less(r[j], r[i]) {
      InsertedAt(s, x, k, less, i, j);
    }
    assert s == s[..k] + s[k..];
  }

  method Sort<T(!new)>(s: seq<T>, less: (T, T) -> bool) returns (r: seq<T>)
    requires StrictWeak(less)
    ensures IsSorting(r, s, less)
  {
    r := [];
    for n := 0 to |s|
      invariant IsSorting(r, s[..n], less)
    {
      r := Insert(r, s[n], less);
      assert s[..n + 1] == s[..n] + [s[n]];
    }
    assert s[..|s|] == s;
  }

  // ----- Sorting by a string key -----

  function ByKey<T>(key: T -> string): (T, T) -> bool {
    (a, b) => Less(key(a), key(b))
  }

  lemma ByKeyMeans<T>(key: T -> string, a: T, b: T)
    ensures ByKey(key)(a, b) == Less(key(a), key(b))
  {
  }

  lemma ByKeyStrictWeak<T(!new)>(key: T -> string)
    ensures StrictWeak(ByKey(key))
  {
    forall a: T, b: T ensures ByKey(key)(a, b) ==> !ByKey(key)(b, a) {
      LessAsymmetric(key(a), key(b));
    }
    forall a: T, b: T, c: T ensures !ByKey(key)(b, a) && !ByKey(key)(c, b) ==> !ByKey(key)(c, a) {
      LessTransitive(key(a), key(b), key(c));
    }
  }

  lemma LessListStrictWeak()
    ensures StrictWeak(LessList)
  {
    forall a, b ensures LessList(a, b) ==> !LessList(b, a) {
      LessListAsymmetric(a, b);
    }
    forall a, b, c ensures !LessList(b, a) && !LessList(c, b) ==> !LessList(c, a) {
      LessListTransitive(a, b, c);
    }
  }

  // ----- Multisets of keys -----

  function Keys<T, K>(s: seq<T>, key: T -> K): (r: seq<K>)
    ensures |r| == |s|
  {
    seq(|s|, i requires 0 <= i < |s| => key(s[i]))
  }

  lemma KeyAt<T, K>(s: seq<T>, key: T -> K, i: nat)
    requires i < |s|
    ensures Keys(s, key)[i] == key(s[i])
  {
  }

  lemma KeyOfOne<T, K>(x: T, key: T -> K)
    ensures Keys([x], key) == [key(x)]
  {
  }

  lemma KeysConcat<T, K>(a: seq<T>, b: seq<T>, key: T -> K)
    ensures Keys(a + b, key) == Keys(a, key) + Keys(b, key)
  {
    forall i | 0 <= i < |a + b| ensures Keys(a + b, key)[i] == (Keys(a, key) + Keys(b, key))[i] {
    }
  }

  lemma WithoutOne<T>(s: seq<T>, x: T) returns (i: nat)
    requires x in multiset(s)
    ensures i < |s| && s[i] == x && multiset(s[..i] + s[i + 1..]) == multiset(s) - multiset{x}
  {
    i :| 0 <= i < |s| && s[i] == x;
    assert s == s[..i] + [x] + s[i + 1..];
  }

  /** Permuting a sequence permutes its keys. */
  lemma {:induction false} PermutedKeys<T, K>(s: seq<T>, t: seq<T>, key: T -> K)
    requires multiset(s) == multiset(t)
    ensures multiset(Keys(s, key)) == multiset(Keys(t, key))
    decreases |s|
  {
    if s == [] {
      assert |multiset(s)| == |multiset(t)|;
    } else {
      assert s == [s[0]] + s[1..];
      var i := WithoutOne(t, s[0]);
      PermutedKeys(s[1..], t[..i] + t[i + 1..], key);
      KeysOf(s, 0, key);
      KeysOf(t, i, key);
      assert s[..0] + s[1..] == s[1..];
    }
  }

  lemma KeysOf<T, K>(s: seq<T>, i: nat, key: T -> K)
    requires i < |s|
    ensures multiset(Keys(s, key)) == multiset(Keys(s[..i] + s[i + 1..], key)) + multiset{key(s[i])}
  {
    var keys := Keys(s, key);
    assert keys == keys[..i] + [keys[i]] + keys[i + 1..];
    assert Keys(s[..i] + s[i + 1..], key) == keys[..i] + keys[i + 1..];
  }

  lemma SameMembers<T(!new)>(a: seq<T>, b: seq<T>)
    requires multiset(a) == multiset(b)
    ensures |a| == |b| && forall x :: x in a <==> x in b
  {
    assert |multiset(a)| == |multiset(b)|;
    forall x ensures x in a <==> x in b {
      assert x in a <==> x in multiset(a);
      assert x in b <==> x in multiset(b);
    }
  }

  lemma Repeated<T>(s: seq<T>, i: nat, j: nat)
    requires i < j < |s| && s[i] == s[j]
    ensures multiset(s)[s[i]] >= 2
  {
    var rest := s[..i] + s[i + 1..];
    assert s == s[..i] + [s[i]] + s[i + 1..];
    assert rest[j - 1] == s[i];
    assert s[i] in multiset(rest);
  }

  lemma {:induction false} NotRepeated<T>(s: seq<T>, x: T)
    requires forall i, j :: 0 <= i < j < |s| ==> s[i] != s[j]
    ensures multiset(s)[x] <= 1
  {
    if s != [] {
      NotRepeated(s[1..], x);
      assert s == [s[0]] + s[1..];
      forall i | 0 <= i < |s| - 1 ensures s[1..][i] != s[0] {
      }
    }
  }
}
