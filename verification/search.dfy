/** The search primitives whose behaviour find_test.go pins down: IndexOf, LastIndexOf,
    Find, FindIndexOf, FindLastIndexOf, FindOrElse, FindKey and FindKeyBy.

    Go's zero value of the element type is the explicit parameter `zero`. Predicates are
    pure, so the only trace the tests observe of a scan is the order in which the
    predicate receives elements; `ForwardProbes` and `BackwardProbes` record it.
 */
module Search {
  import opened Seqs
  import opened Results

  /** `i` is the first index of `s` whose element satisfies `p`. */
  ghost predicate FirstMatch<T>(s: seq<T>, p: T -> bool, i: int) {
    0 <= i < |s| && p(s[i]) && forall j :: 0 <= j < i ==> !p(s[j])
  }

  /** `i` is the last index of `s` whose element satisfies `p`. */
  ghost predicate LastMatch<T>(s: seq<T>, p: T -> bool, i: int) {
    0 <= i < |s| && p(s[i]) && forall j :: i < j < |s| ==> !p(s[j])
  }

  ghost predicate NoMatch<T>(s: seq<T>, p: T -> bool) {
    forall j :: 0 <= j < |s| ==> !p(s[j])
  }

  /** The position of the first element equal to `v`, or -1 when `v` does not occur. */
  function IndexOf<T(==)>(s: seq<T>, v: T): (i: int)
    ensures -1 <= i < |s|
    ensures 0 <= i ==> s[i] == v && forall j :: 0 <= j < i ==> s[j] != v
    ensures i == -1 <==> v !in s
    decreases |s|
  {
    if |s| == 0 then -1
    else if s[0] == v then 0
    else
      var j := IndexOf(s[1..], v);
      assert s == [s[0]] + s[1..];
      if j == -1 then -1 else j + 1
  }

  /** The predicate "equals `v`". */
  function EqualTo<T(==)>(v: T): T -> bool {
    x => x == v
  }

  /** IndexOf is FindIndexOf with an equality predicate: the same index, or -1 alike. */
  lemma IndexOfIsFindIndexOf<T>(s: seq<T>, v: T, zero: T)
    ensures IndexOf(s, v) == FindIndexOf(s, EqualTo(v), zero).index
  {
    var i := IndexOf(s, v);
    var h := FindIndexOf(s, EqualTo(v), zero);
    if h.ok {
      assert s[h.index] == v;
    }
  }

  /** The position of the last element equal to `v`, or -1 when `v` does not occur. */
  function LastIndexOf<T(==)>(s: seq<T>, v: T): (i: int)
    ensures -1 <= i < |s|
    ensures 0 <= i ==> s[i] == v && forall j :: i < j < |s| ==> s[j] != v
    ensures i == -1 <==> v !in s
    decreases |s|
  {
    if |s| == 0 then -1
    else if s[|s| - 1] == v then |s| - 1
    else
      assert s == s[..|s| - 1] + [s[|s| - 1]];
      LastIndexOf(s[..|s| - 1], v)
  }

  /** Scans front to back and stops at the first element satisfying `p`, returning it
      with its index; on no match it returns the zero value, -1 and false. */
  function FindIndexOf<T>(s: seq<T>, p: T -> bool, zero: T): (r: Hit<T>)
    ensures r.ok ==> FirstMatch(s, p, r.index) && r.item == s[r.index]
    ensures !r.ok ==> r == Hit(zero, -1, false) && NoMatch(s, p)
    decreases |s|
  {
    if |s| == 0 then Hit(zero, -1, false)
    else if p(s[0]) then Hit(s[0], 0, true)
    else
      var h := FindIndexOf(s[1..], p, zero);
      if h.ok then Hit(h.item, h.index + 1, true) else h
  }

  /** The elements the predicate receives during FindIndexOf's scan, in order. */
  function ForwardProbes<T>(s: seq<T>, p: T -> bool): seq<T>
    decreases |s|
  {
    if |s| == 0 then []
    else [s[0]] + (if p(s[0]) then [] else ForwardProbes(s[1..], p))
  }

  /** The forward scan applies the predicate to the elements in order, up to and
      including the match, and to all of them when nothing matches. */
  lemma {:induction false} FindIndexOfProbes<T>(s: seq<T>, p: T -> bool, zero: T)
    ensures FindIndexOf(s, p, zero).ok ==>
              ForwardProbes(s, p) == s[..FindIndexOf(s, p, zero).index + 1]
    ensures !FindIndexOf(s, p, zero).ok ==> ForwardProbes(s, p) == s
    decreases |s|
  {
    if |s| > 0 && !p(s[0]) {
      FindIndexOfProbes(s[1..], p, zero);
      var h := FindIndexOf(s[1..], p, zero);
      assert ForwardProbes(s, p) == [s[0]] + ForwardProbes(s[1..], p);
      if h.ok {
        assert FindIndexOf(s, p, zero).index == h.index + 1;
        PrefixCons(s, h.index + 2);
      } else {
        assert FindIndexOf(s, p, zero) == h;
        assert s == [s[0]] + s[1..];
      }
    }
  }

  /** `(item, ok)` for the first element satisfying `p`; `(zero, false)` when none does. */
  function Find<T>(s: seq<T>, p: T -> bool, zero: T): (r: Lookup<T>)
    ensures r.ok ==> exists i :: FirstMatch(s, p, i) && r.value == s[i]
    ensures !r.ok ==> r.value == zero && NoMatch(s, p)
  {
    var h := FindIndexOf(s, p, zero);
    Lookup(h.item, h.ok)
  }

  /** The first element satisfying `p`, or the caller's `fallback` when none does. */
  function FindOrElse<T>(s: seq<T>, fallback: T, p: T -> bool): (r: T)
    ensures NoMatch(s, p) ==> r == fallback
    ensures !NoMatch(s, p) ==> exists i :: FirstMatch(s, p, i) && r == s[i]
  {
    FindIndexOf(s, p, fallback).item
  }

  /** Scans from the last element backwards and stops at the first element satisfying
      `p`, which is the match with the highest index. */
  function FindLastIndexOf<T>(s: seq<T>, p: T -> bool, zero: T): (r: Hit<T>)
    ensures r.ok ==> LastMatch(s, p, r.index) && r.item == s[r.index]
    ensures !r.ok ==> r == Hit(zero, -1, false) && NoMatch(s, p)
    decreases |s|
  {
    if |s| == 0 then Hit(zero, -1, false)
    else if p(s[|s| - 1]) then Hit(s[|s| - 1], |s| - 1, true)
    else FindLastIndexOf(s[..|s| - 1], p, zero)
  }

  /** LastIndexOf is FindLastIndexOf with an equality predicate. */
  lemma LastIndexOfIsFindLastIndexOf<T>(s: seq<T>, v: T, zero: T)
    ensures LastIndexOf(s, v) == FindLastIndexOf(s, EqualTo(v), zero).index
  {
    var i := LastIndexOf(s, v);
    var h := FindLastIndexOf(s, EqualTo(v), zero);
    if h.ok {
      assert s[h.index] == v;
    }
  }

  /** The elements the predicate receives during FindLastIndexOf's scan, in order. */
  function BackwardProbes<T>(s: seq<T>, p: T -> bool): seq<T>
    decreases |s|
  {
    if |s| == 0 then []
    else [s[|s| - 1]] + (if p(s[|s| - 1]) then [] else BackwardProbes(s[..|s| - 1], p))
  }

  /** The backward scan applies the predicate from the last element down to the match,
      and to every element in reverse order when nothing matches. */
  lemma {:induction false} FindLastIndexOfProbes<T>(s: seq<T>, p: T -> bool, zero: T)
    ensures FindLastIndexOf(s, p, zero).ok ==>
              BackwardProbes(s, p) == Reverse(s[FindLastIndexOf(s, p, zero).index..])
    ensures !FindLastIndexOf(s, p, zero).ok ==> BackwardProbes(s, p) == Reverse(s)
    decreases |s|
  {
    if |s| > 0 {
      var init := s[..|s| - 1];
      if p(s[|s| - 1]) {
        assert s[|s| - 1..] == [s[|s| - 1]];
        assert Reverse(s[|s| - 1..]) == [s[|s| - 1]];
      } else {
        assert BackwardProbes(s, p) == [s[|s| - 1]] + BackwardProbes(init, p);
        FindLastIndexOfProbes(init, p, zero);
        var h := FindLastIndexOf(init, p, zero);
        if h.ok {
          assert s[h.index..] == init[h.index..] + [s[|s| - 1]];
          assert Reverse(s[h.index..]) == [s[|s| - 1]] + Reverse(init[h.index..]);
        } else {
          assert Reverse(s) == [s[|s| - 1]] + Reverse(init);
        }
      }
    }
  }

  /** The keys of `m` from `order` on, in `order`'s sequence, scanned for one whose entry
      satisfies `p`. */
  function ScanKeys<K, V>(m: map<K, V>, order: seq<K>, p: (K, V) -> bool, zero: K): (r: Lookup<K>)
    requires forall i :: 0 <= i < |order| ==> order[i] in m
    ensures r.ok ==> r.value in m && p(r.value, m[r.value])
    ensures !r.ok ==> r.value == zero && forall i :: 0 <= i < |order| ==> !p(order[i], m[order[i]])
    decreases |order|
  {
    if |order| == 0 then Lookup(zero, false)
    else if p(order[0], m[order[0]]) then Lookup(order[0], true)
    else ScanKeys(m, order[1..], p, zero)
  }

  /** A key whose entry satisfies `p`, and true; the zero key and false when there is none.
      Go visits map entries in an unspecified order: `order` is that order, a listing of
      exactly the keys of `m`. */
  function FindKeyBy<K, V>(m: map<K, V>, order: seq<K>, p: (K, V) -> bool, zero: K): (r: Lookup<K>)
    requires forall i :: 0 <= i < |order| ==> order[i] in m
    requires forall k :: k in m ==> k in order
    ensures r.ok ==> r.value in m && p(r.value, m[r.value])
    ensures !r.ok ==> r.value == zero && forall k :: k in m ==> !p(k, m[k])
  {
    ScanKeys(m, order, p, zero)
  }

  /** A key mapped to `v`, and true; the zero key and false when `v` is not a value of `m`. */
  function FindKey<K, V(==)>(m: map<K, V>, order: seq<K>, v: V, zero: K): (r: Lookup<K>)
    requires forall i :: 0 <= i < |order| ==> order[i] in m
    requires forall k :: k in m ==> k in order
    ensures r.ok ==> r.value in m && m[r.value] == v
    ensures !r.ok ==> r.value == zero && v !in m.Values
  {
    FindKeyBy(m, order, (k, x) => x == v, zero)
  }
}
