/**
  Choosing some entries of a list, in an order that chance decides.
 */
module Selection {

  ghost predicate Distinct<T>(s: seq<T>) {
    forall i, j :: 0 <= i < j < |s| ==> s[i] != s[j]
  }

  /** Each of 0, ..., n - 1 once: what `rand.Perm(n)` may give. */
  ghost predicate IsPermutation(perm: seq<nat>, n: nat) {
    |perm| == n && Distinct(perm) && forall i :: 0 <= i < n ==> perm[i] < n
  }

  /** A source of chance that gives a permutation for every length. */
  ghost predicate Shuffles(rng: nat -> seq<nat>) {
    forall n :: IsPermutation(rng(n), n)
  }

  /** The list in the order of `perm`. */
  function Permuted<T>(s: seq<T>, perm: seq<nat>): (r: seq<T>)
    requires |perm| == |s| && forall i :: 0 <= i < |perm| ==> perm[i] < |s|
    ensures |r| == |s| && forall i :: 0 <= i < |s| ==> r[i] == s[perm[i]]
  {
    seq(|s|, i requires 0 <= i < |s| => s[perm[i]])
  }

  /** The entries with a property, in order. */
  function Select<T>(s: seq<T>, property: T -> bool): (r: seq<T>)
    ensures |r| <= |s|
  {
    if s == [] then []
    else (if property(s[0]) then [s[0]] else []) + Select(s[1..], property)
  }

  function Not<T>(property: T -> bool): T -> bool {
    (x: T) => !property(x)
  }

  function Min(a: int, b: int): (r: int)
    ensures r <= a && r <= b && (r == a || r == b)
  {
    if a < b then a else b
  }

  function Max(a: int, b: int): (r: int)
    ensures r >= a && r >= b && (r == a || r == b)
  {
    if a < b then b else a
  }

  lemma {:induction false} SelectSnoc<T>(s: seq<T>, x: T, property: T -> bool)
    ensures Select(s + [x], property) == Select(s, property) + if property(x) then [x] else []
  {
    if s == [] {
      assert s + [x] == [x];
    } else {
      assert (s + [x])[1..] == s[1..] + [x];
      SelectSnoc(s[1..], x, property);
      var first, last := if property(s[0]) then [s[0]] else [], if property(x) then [x] else [];
      assert first + (Select(s[1..], property) + last) == first + Select(s[1..], property) + last;
    }
  }

  lemma {:induction false} SelectConcat<T>(a: seq<T>, b: seq<T>, property: T -> bool)
    ensures Select(a + b, property) == Select(a, property) + Select(b, property)
  {
    if a == [] {
      assert a + b == b;
    } else {
      assert (a + b)[1..] == a[1..] + b;
      SelectConcat(a[1..], b, property);
      var first := if property(a[0]) then [a[0]] else [];
      assert first + (Select(a[1..], property) + Select(b, property)) == first + Select(a[1..], property) + Select(b, property);
    }
  }

  lemma {:induction false} SelectMembers<T>(s: seq<T>, property: T -> bool)
    ensures forall x :: x in Select(s, property) ==> x in s && property(x)
    ensures forall x :: x in s && property(x) ==> x in Select(s, property)
  {
    if s != [] {
      SelectMembers(s[1..], property);
    }
  }

  lemma {:induction false} SelectDistinct<T>(s: seq<T>, property: T -> bool)
    requires Distinct(s)
    ensures Distinct(Select(s, property))
  {
    if s != [] {
      SelectDistinct(s[1..], property);
      SelectMembers(s[1..], property);
      assert s[0] !in s[1..];
      assert s[0] !in Select(s[1..], property);
    }
  }

  lemma {:induction false} SelectAll<T>(s: seq<T>, property: T -> bool)
    requires forall x :: x in s ==> property(x)
    ensures Select(s, property) == s
  {
    if s != [] {
      SelectAll(s[1..], property);
    }
  }

  lemma {:induction false} SelectNone<T>(s: seq<T>, property: T -> bool)
    requires forall x :: x in s ==> !property(x)
    ensures Select(s, property) == []
  {
    if s != [] {
      SelectNone(s[1..], property);
    }
  }

  /** Every entry has the property or has not. */
  lemma {:induction false} SelectSplits<T>(s: seq<T>, property: T -> bool)
    ensures |Select(s, property)| + |Select(s, Not(property))| == |s|
  {
    if s != [] {
      SelectSplits(s[1..], property);
    }
  }

  lemma {:induction false} PermutedDistinct<T>(s: seq<T>, perm: seq<nat>)
    requires IsPermutation(perm, |s|) && Distinct(s)
    ensures Distinct(Permuted(s, perm))
  {
  }

  /** A permuted list has the same entries. */
  lemma {:induction false} PermutedMembers<T>(s: seq<T>, perm: seq<nat>)
    requires IsPermutation(perm, |s|)
    ensures forall x :: x in Permuted(s, perm) <==> x in s
  {
    var r := Permuted(s, perm);
    forall x | x in s ensures x in r {
      var i :| 0 <= i < |s| && s[i] == x;
      Surjective(perm, |s|, i);
      var k :| 0 <= k < |perm| && perm[k] == i;
      assert r[k] == x;
    }
  }

  lemma {:induction false} Surjective(perm: seq<nat>, n: nat, i: nat)
    requires IsPermutation(perm, n) && i < n
    ensures i in perm
  {
    AsManyAs(perm);
    assert Elements(perm) <= Below(n);
    SubsetFull(Elements(perm), Below(n));
    assert i in Elements(perm);
  }

  function Omit<T>(s: seq<T>, k: nat): (r: seq<T>)
    requires k < |s|
    ensures |r| == |s| - 1 && forall i :: 0 <= i < |r| ==> r[i] == s[if i < k then i else i + 1]
  {
    s[..k] + s[k + 1..]
  }

  lemma {:induction false} OmitMultiset<T>(s: seq<T>, k: nat)
    requires k < |s|
    ensures multiset(s) == multiset(Omit(s, k)) + multiset{s[k]}
  {
    assert s == s[..k] + [s[k]] + s[k + 1..];
  }

  lemma {:induction false} OmitWithin<T>(a: seq<T>, b: seq<T>, i: nat)
    requires a != [] && i < |b| && b[i] == a[0] && multiset(a) <= multiset(b)
    ensures multiset(Omit(a, 0)) <= multiset(Omit(b, i))
  {
    hide Omit;
    OmitMultiset(a, 0);
    OmitMultiset(b, i);
    forall x ensures multiset(Omit(a, 0))[x] <= multiset(Omit(b, i))[x] {
      assert multiset(a)[x] <= multiset(b)[x];
    }
  }

  /** Without the position of the largest, a permutation permutes one fewer. */
  lemma {:induction false} OmitPermutation(perm: seq<nat>, n: nat, k: nat)
    requires IsPermutation(perm, n + 1) && k <= n && perm[k] == n
    ensures IsPermutation(Omit(perm, k), n)
  {
    hide Omit;
  }

  lemma {:induction false} OmitPermuted<T>(s: seq<T>, perm: seq<nat>, n: nat, k: nat)
    requires |s| == n + 1 && IsPermutation(perm, n + 1) && k <= n && perm[k] == n
    requires IsPermutation(Omit(perm, k), n)
    ensures Omit(Permuted(s, perm), k) == Permuted(s[..n], Omit(perm, k))
  {
    hide Omit, Permuted, Distinct;
  }

  /** A permuted list has the same entries, as often. */
  lemma {:induction false} PermutedMultiset<T>(s: seq<T>, perm: seq<nat>)
    requires IsPermutation(perm, |s|)
    ensures multiset(Permuted(s, perm)) == multiset(s)
    decreases |s|
  {
    hide Omit, Distinct;
    if s != [] {
      var n := |s| - 1;
      Surjective(perm, |s|, n);
      var k :| 0 <= k < |perm| && perm[k] == n;
      OmitPermutation(perm, n, k);
      OmitPermuted(s, perm, n, k);
      PermutedMultiset(s[..n], Omit(perm, k));
      OmitMultiset(Permuted(s, perm), k);
      assert s == s[..n] + [s[n]];
    } else {
      assert Permuted(s, perm) == s;
    }
  }

  /** The first entries, or all if there are fewer. */
  function Trim<T>(s: seq<T>, n: nat): (r: seq<T>)
    ensures |r| == Min(n, |s|)
  {
    if |s| > n then s[..n] else s
  }

  /** Taking some entries, and then the first of them, repeats none more often. */
  lemma {:induction false} TrimWithin<T>(s: seq<T>, n: nat)
    ensures multiset(Trim(s, n)) <= multiset(s)
  {
    assert s == Trim(s, n) + s[|Trim(s, n)|..];
  }

  lemma {:induction false} SelectWithin<T>(s: seq<T>, property: T -> bool)
    ensures multiset(Select(s, property)) <= multiset(s)
  {
    if s != [] {
      SelectWithin(s[1..], property);
      assert s == [s[0]] + s[1..];
    }
  }

  function Elements<T(==)>(s: seq<T>): set<T> {
    set x | x in s
  }

  lemma {:induction false} AsManyAs<T>(s: seq<T>)
    requires Distinct(s)
    ensures |Elements(s)| == |s|
  {
    if s != [] {
      AsManyAs(s[1..]);
      assert Elements(s) == Elements(s[1..]) + {s[0]};
      assert s[0] !in s[1..];
    }
  }

  function Below(n: nat): (r: set<nat>)
    ensures |r| == n && forall x: nat :: x in r <==> x < n
  {
    if n == 0 then {} else Below(n - 1) + {n - 1}
  }

  lemma {:induction false} SubsetFull<T>(a: set<T>, b: set<T>)
    requires a <= b && |a| == |b|
    ensures a == b
  {
    assert b == a + (b - a);
  }

  /** Lists without repetition that have the same entries have the same number of any kind. */
  lemma {:induction false} SameCount<T>(a: seq<T>, b: seq<T>, property: T -> bool)
    requires Distinct(a) && Distinct(b) && forall x :: x in a <==> x in b
    ensures |Select(a, property)| == |Select(b, property)|
  {
    SelectDistinct(a, property);
    SelectDistinct(b, property);
    AsManyAs(Select(a, property));
    AsManyAs(Select(b, property));
    SelectMembers(a, property);
    SelectMembers(b, property);
    forall x ensures x in Elements(Select(a, property)) <==> x in Elements(Select(b, property)) {
      assert x in a <==> x in b;
    }
    assert Elements(Select(a, property)) == Elements(Select(b, property));
  }

  /** The first `n` entries of a kind, by chance: distinct, of that kind, and as many as there are up to `n`. */
  lemma {:induction false} ChanceSelection<T>(s: seq<T>, perm: seq<nat>, property: T -> bool, n: nat)
    requires IsPermutation(perm, |s|) && Distinct(s)
    ensures var all := Select(Permuted(s, perm), property);
            var r := all[..Min(n, |all|)];
            && |r| == Min(n, |Select(s, property)|)
            && Distinct(r) && forall x :: x in r ==> x in s && property(x)
  {
    var all := Select(Permuted(s, perm), property);
    PermutedDistinct(s, perm);
    PermutedMembers(s, perm);
    SameCount(Permuted(s, perm), s, property);
    SelectDistinct(Permuted(s, perm), property);
    SelectMembers(Permuted(s, perm), property);
    var r := all[..Min(n, |all|)];
    forall x | x in r ensures x in s && property(x) {
      var i :| 0 <= i < |r| && r[i] == x;
      assert all[i] == x;
      assert x in Permuted(s, perm);
    }
    assert Distinct(r);
    assert |r| == Min(n, |Select(s, property)|);
  }

  //// Nothing is out of reach of chance

  /** Every list of different indices is the start of a permutation. */
  lemma {:induction false} Extended(want: seq<nat>, n: nat) returns (perm: seq<nat>)
    requires Distinct(want) && forall i :: 0 <= i < |want| ==> want[i] < n
    ensures IsPermutation(perm, n) && want <= perm
    decreases n - |want|
  {
    AsManyAs(want);
    assert Elements(want) <= Below(n);
    SubsetSmaller(Elements(want), Below(n));
    if |want| == n {
      perm := want;
    } else {
      assert Elements(want) != Below(n);
      var x: nat :| x in Below(n) && x !in Elements(want);
      perm := Extended(want + [x], n);
    }
  }

  lemma {:induction false} SubsetSmaller<T>(a: set<T>, b: set<T>)
    requires a <= b
    ensures |a| <= |b|
  {
    assert b == a + (b - a);
  }

  function Identity(n: nat): (r: seq<nat>)
    ensures |r| == n && forall i :: 0 <= i < n ==> r[i] == i
  {
    if n == 0 then [] else Identity(n - 1) + [n - 1]
  }

  /** Every permutation is drawn from some source. */
  lemma {:induction false} Drawn(perm: seq<nat>, n: nat) returns (rng: nat -> seq<nat>)
    requires IsPermutation(perm, n)
    ensures Shuffles(rng) && rng(n) == perm
  {
    rng := (m: nat) => if m == n then perm else Identity(m);
  }

  /** Any different entries may come first, in any order. */
  lemma {:induction false} Reached<T>(s: seq<T>, c: seq<T>) returns (perm: seq<nat>)
    requires Distinct(s) && Distinct(c) && forall x :: x in c ==> x in s
    ensures IsPermutation(perm, |s|) && |c| <= |s| && Permuted(s, perm)[..|c|] == c
  {
    var want := Places(s, c);
    perm := Extended(want, |s|);
    assert forall i :: 0 <= i < |c| ==> perm[i] == want[i];
  }

  lemma {:induction false} Places<T>(s: seq<T>, c: seq<T>) returns (want: seq<nat>)
    requires Distinct(s) && Distinct(c) && forall x :: x in c ==> x in s
    ensures |want| == |c| && Distinct(want) && forall i :: 0 <= i < |c| ==> want[i] < |s| && s[want[i]] == c[i]
  {
    if c == [] {
      want := [];
    } else {
      var n := |c| - 1;
      assert forall x :: x in c[..n] ==> x in c;
      want := Places(s, c[..n]);
      assert c[n] in c;
      var k: nat :| k < |s| && s[k] == c[n];
      assert forall i :: 0 <= i < n ==> c[..n][i] == c[i];
      want := want + [k];
    }
  }

  /** Any different entries of a kind may be the first of that kind. */
  lemma {:induction false} ReachedOfKind<T>(s: seq<T>, c: seq<T>, property: T -> bool) returns (perm: seq<nat>)
    requires Distinct(s) && Distinct(c) && forall x :: x in c ==> x in s && property(x)
    ensures IsPermutation(perm, |s|)
    ensures var all := Select(Permuted(s, perm), property); |c| <= |all| && all[..|c|] == c
  {
    perm := Reached(s, c);
    var order := Permuted(s, perm);
    assert order == c + order[|c|..];
    SelectConcat(c, order[|c|..], property);
    SelectAll(c, property);
  }
}
