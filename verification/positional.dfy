/** Positional accessors: First, Last and their `...OrEmpty` and `...Or` forms, Nth with
    negative indexing, and the random Sample and Samples.

    Go's zero value of the element type is the explicit parameter `zero`. The process-wide
    random source behind Sample and Samples is the parameter `roll`: the random numbers it
    would have produced, in order.
 */
module Positional {
  import opened Seqs
  import opened Results

  /** `(s[0], true)`, or `(zero, false)` when `s` is empty. */
  function First<T>(s: seq<T>, zero: T): (r: Lookup<T>)
    ensures r.ok <==> |s| > 0
    ensures r.ok ==> r.value == s[0]
    ensures !r.ok ==> r.value == zero
  {
    if |s| == 0 then Lookup(zero, false) else Lookup(s[0], true)
  }

  /** `s[|s|-1]` and true, or `(zero, false)` when `s` is empty. */
  function Last<T>(s: seq<T>, zero: T): (r: Lookup<T>)
    ensures r.ok <==> |s| > 0
    ensures r.ok ==> r.value == s[|s| - 1]
    ensures !r.ok ==> r.value == zero
  {
    if |s| == 0 then Lookup(zero, false) else Lookup(s[|s| - 1], true)
  }

  /** First's value, with the caller's `fallback` for an empty `s`. */
  function FirstOr<T>(s: seq<T>, fallback: T): (r: T)
    ensures r == First(s, fallback).value
  {
    if |s| == 0 then fallback else s[0]
  }

  /** First's value, with the zero value for an empty `s`. */
  function FirstOrEmpty<T>(s: seq<T>, zero: T): (r: T)
    ensures r == First(s, zero).value
  {
    FirstOr(s, zero)
  }

  /** Last's value, with the caller's `fallback` for an empty `s`. */
  function LastOr<T>(s: seq<T>, fallback: T): (r: T)
    ensures r == Last(s, fallback).value
  {
    if |s| == 0 then fallback else s[|s| - 1]
  }

  /** Last's value, with the zero value for an empty `s`. */
  function LastOrEmpty<T>(s: seq<T>, zero: T): (r: T)
    ensures r == Last(s, zero).value
  {
    LastOr(s, zero)
  }

  /** The last element is the first element of the reversed sequence. */
  lemma LastIsFirstOfReverse<T>(s: seq<T>, zero: T)
    ensures Last(s, zero) == First(Reverse(s), zero)
  {
  }

  /** `s[n]` for `0 <= n < |s|` and `s[|s| + n]` for `-|s| <= n < 0`; any other `n` gives
      the zero value with an out-of-bounds error carrying `n`. */
  function Nth<T>(s: seq<T>, n: int, zero: T): (r: Fetched<T>)
    ensures r.err == None <==> -|s| <= n < |s|
    ensures r.err == None && 0 <= n ==> r.value == s[n]
    ensures r.err == None && n < 0 ==> r.value == s[|s| + n]
    ensures r.err != None ==> r == Fetched(zero, Some(OutOfBounds(n)))
  {
    var l := |s|;
    if n >= l || -n > l then Fetched(zero, Some(OutOfBounds(n)))
    else if n >= 0 then Fetched(s[n], None)
    else Fetched(s[l + n], None)
  }

  /** A negative index names the same element as the non-negative index `|s|` above it. */
  lemma NthNegative<T>(s: seq<T>, i: nat, zero: T)
    requires i < |s|
    ensures Nth(s, i - |s|, zero) == Nth(s, i, zero)
  {
  }

  /** Nth agrees with First at index 0 and with Last at index -1, errors included. */
  lemma NthAgreesWithFirstAndLast<T>(s: seq<T>, zero: T)
    ensures Nth(s, 0, zero).value == First(s, zero).value
    ensures Nth(s, -1, zero).value == Last(s, zero).value
    ensures (Nth(s, 0, zero).err == None) == First(s, zero).ok
    ensures (Nth(s, -1, zero).err == None) == Last(s, zero).ok
  {
  }

  /** One element picked with the random number `roll`; the zero value when empty. */
  function Sample<T>(s: seq<T>, roll: nat, zero: T): (r: T)
    ensures |s| > 0 ==> r in s
    ensures |s| == 0 ==> r == zero
  {
    if |s| == 0 then zero else s[roll % |s|]
  }

  /** Draws `count` elements from `pool` without replacement: the `i`-th random number picks
      an index among the elements not drawn yet, and that element leaves the pool. */
  function Draw<T>(pool: seq<T>, count: nat, roll: nat -> nat, i: nat): (r: seq<T>)
    ensures |r| == if count < |pool| then count else |pool|
    ensures multiset(r) <= multiset(pool)
    ensures count >= |pool| ==> multiset(r) == multiset(pool)
    decreases count
  {
    if count == 0 || |pool| == 0 then []
    else
      var j := roll(i) % |pool|;
      var rest := pool[..j] + pool[j + 1..];
      assert pool == pool[..j] + [pool[j]] + pool[j + 1..];
      assert multiset(pool) == multiset(rest) + multiset{pool[j]};
      [pool[j]] + Draw(rest, count - 1, roll, i + 1)
  }

  /** `count` distinct positions of `s` in random order; all of `s`, permuted, when
      `count >= |s|`; nothing when `count <= 0`. */
  function Samples<T>(s: seq<T>, count: int, roll: nat -> nat): (r: seq<T>)
    ensures |r| == if count <= 0 then 0 else if count < |s| then count else |s|
    ensures multiset(r) <= multiset(s)
    ensures count >= |s| ==> multiset(r) == multiset(s)
  {
    Draw(s, if count < 0 then 0 else count, roll, 0)
  }
}
