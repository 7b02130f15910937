/** Reference vocabulary over finite sequences.

    These are the plain, eager meanings that the lazy combinators, the searches and the
    uniqueness analysis are compared with: filtering, mapping, flattening, pairing and
    reversal, each defined once together with the algebra the other modules rely on.
 */
module Seqs {

  /** The identity projection: the `...By` operations with it are the plain ones. */
  function Id<T>(x: T): T { x }

  /** The elements of `s` satisfying `f`, in their original order. */
  function Kept<T>(s: seq<T>, f: T -> bool): (r: seq<T>)
    ensures |r| <= |s|
    ensures forall i :: 0 <= i < |r| ==> r[i] in s && f(r[i])
    ensures forall i :: 0 <= i < |s| && f(s[i]) ==> s[i] in r
  {
    if |s| == 0 then []
    else (if f(s[0]) then [s[0]] else []) + Kept(s[1..], f)
  }

  /** `f` applied to every element of `s`, position by position. */
  function Mapped<T, R>(s: seq<T>, f: T -> R): (r: seq<R>)
    ensures |r| == |s|
    ensures forall i :: 0 <= i < |s| ==> r[i] == f(s[i])
  {
    if |s| == 0 then [] else [f(s[0])] + Mapped(s[1..], f)
  }

  /** The sequences of `ss` one after the other. */
  function Concat<T>(ss: seq<seq<T>>): seq<T>
  {
    if |ss| == 0 then [] else ss[0] + Concat(ss[1..])
  }

  /** `(ks[i], vs[i])` for every index of two sequences of equal length. */
  function Pairs<K, V>(ks: seq<K>, vs: seq<V>): (r: seq<(K, V)>)
    requires |ks| == |vs|
    ensures |r| == |ks|
    ensures forall i :: 0 <= i < |r| ==> r[i] == (ks[i], vs[i])
  {
    if |ks| == 0 then [] else [(ks[0], vs[0])] + Pairs(ks[1..], vs[1..])
  }

  /** `s` back to front. */
  function Reverse<T>(s: seq<T>): (r: seq<T>)
    ensures |r| == |s|
    ensures forall i :: 0 <= i < |s| ==> r[i] == s[|s| - 1 - i]
  {
    if |s| == 0 then [] else [s[|s| - 1]] + Reverse(s[..|s| - 1])
  }

  /** A non-empty prefix is the head followed by a prefix of the tail. */
  lemma PrefixCons<T>(s: seq<T>, n: nat)
    requires 0 < n <= |s|
    ensures s[..n] == [s[0]] + s[1..][..n - 1]
  {
  }

  /** A one-element sequence is kept or dropped whole. */
  lemma KeptSingleton<T>(x: T, f: T -> bool)
    ensures Kept([x], f) == if f(x) then [x] else []
  {
    assert [x][1..] == [];
  }

  /** Filtering distributes over concatenation. */
  lemma {:induction false} KeptAppend<T>(a: seq<T>, b: seq<T>, f: T -> bool)
    ensures Kept(a + b, f) == Kept(a, f) + Kept(b, f)
  {
    if |a| == 0 {
      assert a + b == b;
    } else {
      assert (a + b)[1..] == a[1..] + b;
      KeptAppend(a[1..], b, f);
    }
  }

  /** Filter keeps exactly the occurrences of the values that satisfy `f`. */
  lemma {:induction false} KeptCount<T>(s: seq<T>, f: T -> bool, x: T)
    ensures multiset(Kept(s, f))[x] == if f(x) then multiset(s)[x] else 0
  {
    if |s| > 0 {
      KeptCount(s[1..], f, x);
      assert s == [s[0]] + s[1..];
      assert multiset(s) == multiset([s[0]]) + multiset(s[1..]);
    }
  }

  /** A filter whose predicate holds throughout keeps everything. */
  lemma {:induction false} KeptAll<T>(s: seq<T>, f: T -> bool)
    requires forall i :: 0 <= i < |s| ==> f(s[i])
    ensures Kept(s, f) == s
  {
    if |s| > 0 {
      KeptAll(s[1..], f);
      assert s == [s[0]] + s[1..];
    }
  }

  /** A filter whose predicate fails throughout keeps nothing. */
  lemma {:induction false} KeptNone<T>(s: seq<T>, f: T -> bool)
    requires forall i :: 0 <= i < |s| ==> !f(s[i])
    ensures Kept(s, f) == []
  {
    if |s| > 0 {
      KeptNone(s[1..], f);
    }
  }

  /** Mapping distributes over concatenation. */
  lemma {:induction false} MappedAppend<T, R>(a: seq<T>, b: seq<T>, f: T -> R)
    ensures Mapped(a + b, f) == Mapped(a, f) + Mapped(b, f)
  {
    assert forall i :: 0 <= i < |a| + |b| ==> Mapped(a + b, f)[i] == (Mapped(a, f) + Mapped(b, f))[i];
  }
}
