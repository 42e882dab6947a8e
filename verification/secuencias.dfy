/** Small facts about sequences shared by the graph model. */
module Secuencias {

  /** No element occurs twice. */
  predicate NoDup<T(==)>(s: seq<T>) {
    forall i, j | 0 <= i < j < |s| :: s[i] != s[j]
  }

  function Min(a: int, b: int): int {
    if a <= b then a else b
  }

  function Max(a: int, b: int): int {
    if a <= b then b else a
  }

  /** The sequence reversed. */
  function Invertir<T>(s: seq<T>): (r: seq<T>)
    ensures |r| == |s|
    ensures forall i | 0 <= i < |s| :: r[i] == s[|s| - 1 - i]
  {
    if s == [] then [] else Invertir(s[1..]) + [s[0]]
  }

  lemma InvertirMiembro<T>(s: seq<T>, x: T)
    ensures x in Invertir(s) <==> x in s
  {
    if x in s {
      var i :| 0 <= i < |s| && s[i] == x;
      assert Invertir(s)[|s| - 1 - i] == x;
    }
  }

  /** The first `n` elements, or the whole sequence when it is shorter. */
  function Tomar<T>(s: seq<T>, n: nat): (r: seq<T>)
    ensures |r| == Min(n, |s|)
    ensures r == s[..|r|]
  {
    if n <= |s| then s[..n] else s
  }

  /** The elements of a sequence, as a set. */
  function Conjunto<T>(s: seq<T>): set<T> {
    set x | x in s
  }

  lemma InvertirConcatenar<T>(a: seq<T>, b: seq<T>)
    ensures Invertir(a + b) == Invertir(b) + Invertir(a)
  {
    var l, r := Invertir(a + b), Invertir(b) + Invertir(a);
    assert |l| == |r|;
    forall i | 0 <= i < |l| ensures l[i] == r[i] {
      if i < |b| {
        assert r[i] == Invertir(b)[i];
      } else {
        assert r[i] == Invertir(a)[i - |b|];
      }
    }
  }

  lemma NoDupPrefijo<T>(s: seq<T>, n: nat)
    requires NoDup(s) && n <= |s|
    ensures NoDup(s[..n])
  {
  }

  lemma NoDupConcatenar<T>(a: seq<T>, b: seq<T>)
    requires NoDup(a) && NoDup(b)
    requires forall x | x in a :: x !in b
    ensures NoDup(a + b)
  {
    var s := a + b;
    forall i, j | 0 <= i < j < |s| ensures s[i] != s[j] {
      if j >= |a| && i < |a| {
        assert s[i] in a && s[j] == b[j - |a|];
      } else if i >= |a| {
        assert s[i] == b[i - |a|] && s[j] == b[j - |a|];
      }
    }
  }

  lemma NoDupPartes<T>(a: seq<T>, b: seq<T>)
    requires NoDup(a + b)
    ensures NoDup(a) && NoDup(b)
    ensures forall x | x in a :: x !in b
  {
    var s := a + b;
    forall i, j | 0 <= i < j < |a| ensures a[i] != a[j] {
      assert a[i] == s[i] && a[j] == s[j];
    }
    forall i, j | 0 <= i < j < |b| ensures b[i] != b[j] {
      assert b[i] == s[|a| + i] && b[j] == s[|a| + j];
    }
    forall i, j | 0 <= i < |a| && 0 <= j < |b| ensures a[i] != b[j] {
      assert a[i] == s[i] && b[j] == s[|a| + j];
    }
  }

  lemma InvertirNoDup<T>(s: seq<T>)
    requires NoDup(s)
    ensures NoDup(Invertir(s))
  {
    var r := Invertir(s);
    forall i, j | 0 <= i < j < |r| ensures r[i] != r[j] {
      assert r[i] == s[|s| - 1 - i] && r[j] == s[|s| - 1 - j];
    }
  }
}
