/** Sequence and set vocabulary shared by the rest of the model: an Option for
    Java's nullable references, duplicate-free sequences, first-occurrence
    de-duplication and the cardinality facts the ordering proofs rest on. */
module Common {

  /** Stands for a Java reference that may be null. */
  datatype Option<+T> = None | Some(value: T)

  /** The elements of a sequence, as a set. */
  ghost function Elems<T>(s: seq<T>): set<T> {
    set x | x in s
  }

  /** The node indices of an arena of size `n`. */
  ghost function Range(n: nat): (r: set<nat>)
    ensures forall i: nat :: i in r <==> i < n
  {
    if n == 0 then {} else Range(n - 1) + {n - 1}
  }

  /** No element occurs twice. */
  predicate NoDuplicates<T(==)>(s: seq<T>) {
    forall i, j :: 0 <= i < j < |s| ==> s[i] != s[j]
  }

  /** Keeps the first occurrence of every element and drops the later ones,
      as repeated `putIfAbsent` insertions into a map do. */
  function Distinct<T(==,!new)>(s: seq<T>): (r: seq<T>)
    ensures NoDuplicates(r)
    ensures forall x :: x in r <==> x in s
    ensures |r| <= |s|
  {
    if |s| == 0 then []
    else
      var d := Distinct(s[..|s| - 1]);
      assert s == s[..|s| - 1] + [s[|s| - 1]];
      if s[|s| - 1] in d then d else d + [s[|s| - 1]]
  }

  /** De-duplication leaves a duplicate-free sequence as it is. */
  lemma {:induction false} DistinctOfUnique<T(!new)>(s: seq<T>)
    requires NoDuplicates(s)
    ensures Distinct(s) == s
  {
    if |s| > 0 {
      var init := s[..|s| - 1];
      assert NoDuplicates(init);
      DistinctOfUnique(init);
      assert s[|s| - 1] !in init;
      assert s == init + [s[|s| - 1]];
    }
  }

  lemma PrefixStep<T>(s: seq<T>, k: nat)
    requires k < |s|
    ensures s[..k + 1] == s[..k] + [s[k]]
  {
  }

  /** A duplicate-free sequence has as many elements as its set. */
  lemma {:induction false} CardElems<T>(s: seq<T>)
    requires NoDuplicates(s)
    ensures |Elems(s)| == |s|
  {
    if |s| > 0 {
      var t := s[..|s| - 1];
      assert NoDuplicates(t);
      CardElems(t);
      assert Elems(s) == Elems(t) + {s[|s| - 1]};
    }
  }

  lemma {:induction false} CardRange(n: nat)
    ensures |Range(n)| == n
  {
    if n > 0 {
      CardRange(n - 1);
    }
  }

  /** A subset is no larger, and a proper subset is strictly smaller. */
  lemma CardSubset<T>(a: set<T>, b: set<T>)
    requires a <= b
    ensures |a| <= |b|
    ensures a < b ==> |a| < |b|
  {
    assert b == a + (b - a);
    if a < b {
      var x :| x in b && x !in a;
      assert x in b - a;
    }
  }

  /** The part of `a` inside `b` is as large as `a` only when it is all of `a`. */
  lemma CardIntersection<T>(a: set<T>, b: set<T>)
    ensures |a * b| <= |a|
    ensures |a * b| == |a| <==> a <= b
  {
    CardSubset(a * b, a);
    if a * b == a {
      assert a <= b;
    }
  }

  /** Appending a new element `x` to `s` adds one to the part of `a` inside
      `s` exactly when `x` belongs to `a`. */
  lemma CardIntersectionAppend<T>(a: set<T>, s: seq<T>, x: T)
    requires x !in s
    ensures |a * Elems(s + [x])| == |a * Elems(s)| + (if x in a then 1 else 0)
  {
    assert Elems(s + [x]) == Elems(s) + {x};
    if x in a {
      assert a * Elems(s + [x]) == a * Elems(s) + {x};
    } else {
      assert a * Elems(s + [x]) == a * Elems(s);
    }
  }

  /** A duplicate-free sequence of indices below `n` has at most `n`
      elements, exactly `n` when it holds every index. */
  lemma IndicesBound(s: seq<nat>, n: nat)
    requires NoDuplicates(s)
    requires forall k :: 0 <= k < |s| ==> s[k] < n
    ensures |s| <= n
    ensures |s| == n <==> Elems(s) == Range(n)
  {
    CardElems(s);
    CardRange(n);
    assert Elems(s) <= Range(n);
    CardSubset(Elems(s), Range(n));
  }
}
