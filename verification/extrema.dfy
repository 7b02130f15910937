/** Extrema selection: Min, Max, MinBy, MaxBy and the time-valued Earliest, Latest,
    EarliestBy and LatestBy.

    All of them keep the first element as the current best and let a later element replace
    it only when the comparison says it is strictly better, so ties keep the earlier one.
    An empty input yields Go's zero value. Go's `time.Time` is abstracted to an `int`
    instant, with the zero Time as 0.
 */
module Extrema {

  /** `better` is a strict weak order: irreflexive, transitive, and "not better than" is
      transitive too (equivalent elements form classes that are totally ordered). */
  ghost predicate StrictWeakOrder<T(!new)>(better: (T, T) -> bool) {
    && (forall a :: !better(a, a))
    && (forall a, b, c :: better(a, b) && better(b, c) ==> better(a, c))
    && (forall a, b, c :: !better(a, b) && !better(b, c) ==> !better(a, c))
  }

  /** The index of the element the selection loop keeps: it starts with index 0 and moves
      to a later index whenever `better(candidate, best)` holds. */
  function BestIndex<T>(s: seq<T>, better: (T, T) -> bool): (k: nat)
    requires |s| > 0
    ensures k < |s|
    decreases |s|
  {
    if |s| == 1 then 0
    else
      var b := BestIndex(s[..|s| - 1], better);
      if better(s[|s| - 1], s[b]) then |s| - 1 else b
  }

  /** Under a strict weak order the kept element is beaten by none and strictly beats
      every element before it; so it is the first of the best elements. */
  lemma {:induction false} BestIndexIsFirstBest<T(!new)>(s: seq<T>, better: (T, T) -> bool)
    requires |s| > 0 && StrictWeakOrder(better)
    ensures forall j :: 0 <= j < |s| ==> !better(s[j], s[BestIndex(s, better)])
    ensures forall j :: 0 <= j < BestIndex(s, better) ==> better(s[BestIndex(s, better)], s[j])
    decreases |s|
  {
    if |s| > 1 {
      var init := s[..|s| - 1];
      var b := BestIndex(init, better);
      BestIndexIsFirstBest(init, better);
      assert forall j :: 0 <= j < |init| ==> s[j] == init[j];
      var x := s[|s| - 1];
      if better(x, s[b]) {
        forall j | 0 <= j < |s| - 1
          ensures better(x, s[j]) && !better(s[j], x)
        {
          assert !better(s[j], s[b]);
        }
      }
    }
  }

  /** What the selection loop promises of its result, for MinBy and MaxBy alike: an element
      of `s` and, under a strict weak order, the first element no other beats. */
  ghost predicate FirstBest<T(!new)>(s: seq<T>, better: (T, T) -> bool, r: T) {
    exists k :: 0 <= k < |s| && r == s[k]
      && (StrictWeakOrder(better) ==>
            && (forall j :: 0 <= j < |s| ==> !better(s[j], r))
            && (forall j :: 0 <= j < k ==> better(r, s[j])))
  }

  lemma {:induction false} SelectsFirstBest<T(!new)>(s: seq<T>, better: (T, T) -> bool)
    requires |s| > 0
    ensures FirstBest(s, better, s[BestIndex(s, better)])
  {
    if StrictWeakOrder(better) {
      BestIndexIsFirstBest(s, better);
    }
  }

  /** `MinBy(s, less)`: `less(item, min)` decides whether `item` replaces the current
      minimum. Under a strict weak order the result is the first minimal element. */
  function MinBy<T(!new)>(s: seq<T>, less: (T, T) -> bool, zero: T): (r: T)
    ensures |s| == 0 ==> r == zero
    ensures |s| > 0 ==> FirstBest(s, less, r)
  {
    if |s| == 0 then zero
    else
      SelectsFirstBest(s, less);
      s[BestIndex(s, less)]
  }

  /** `MaxBy(s, greater)`: `greater(item, max)` decides whether `item` replaces the current
      maximum. Under a strict weak order the result is the first maximal element. */
  function MaxBy<T(!new)>(s: seq<T>, greater: (T, T) -> bool, zero: T): (r: T)
    ensures |s| == 0 ==> r == zero
    ensures |s| > 0 ==> FirstBest(s, greater, r)
  {
    if |s| == 0 then zero
    else
      SelectsFirstBest(s, greater);
      s[BestIndex(s, greater)]
  }

  function Below(a: int, b: int): bool { a < b }
  function Above(a: int, b: int): bool { a > b }

  lemma IntOrders()
    ensures StrictWeakOrder(Below) && StrictWeakOrder(Above)
  {
  }

  /** The smallest element of `s` under the natural order; 0, the zero value, when empty. */
  function Min(s: seq<int>): (r: int)
    ensures |s| == 0 ==> r == 0
    ensures |s| > 0 ==> r in s && forall j :: 0 <= j < |s| ==> r <= s[j]
  {
    IntOrders();
    MinBy(s, Below, 0)
  }

  /** The largest element of `s` under the natural order; 0, the zero value, when empty. */
  function Max(s: seq<int>): (r: int)
    ensures |s| == 0 ==> r == 0
    ensures |s| > 0 ==> r in s && forall j :: 0 <= j < |s| ==> s[j] <= r
  {
    IntOrders();
    MaxBy(s, Above, 0)
  }

  /** The earliest of the instants; the zero Time when there are none. */
  function Earliest(times: seq<int>): (r: int)
    ensures |times| == 0 ==> r == 0
    ensures |times| > 0 ==> r in times && forall j :: 0 <= j < |times| ==> r <= times[j]
  {
    Min(times)
  }

  /** The latest of the instants; the zero Time when there are none. */
  function Latest(times: seq<int>): (r: int)
    ensures |times| == 0 ==> r == 0
    ensures |times| > 0 ==> r in times && forall j :: 0 <= j < |times| ==> times[j] <= r
  {
    Max(times)
  }

  /** The order "earlier instant" induces on elements through the projection `at`. */
  function Earlier<T>(at: T -> int): (T, T) -> bool {
    (a, b) => at(a) < at(b)
  }

  function Later<T>(at: T -> int): (T, T) -> bool {
    (a, b) => at(a) > at(b)
  }

  lemma ProjectedOrders<T(!new)>(at: T -> int)
    ensures StrictWeakOrder(Earlier(at)) && StrictWeakOrder(Later(at))
  {
  }

  /** The first element with the earliest projected instant; the zero element when empty. */
  function EarliestBy<T(!new)>(s: seq<T>, at: T -> int, zero: T): (r: T)
    ensures |s| == 0 ==> r == zero
    ensures |s| > 0 ==> exists k :: 0 <= k < |s| && r == s[k]
                          && (forall j :: 0 <= j < |s| ==> at(r) <= at(s[j]))
                          && (forall j :: 0 <= j < k ==> at(r) < at(s[j]))
  {
    ProjectedOrders(at);
    MinBy(s, Earlier(at), zero)
  }

  /** The first element with the latest projected instant; the zero element when empty. */
  function LatestBy<T(!new)>(s: seq<T>, at: T -> int, zero: T): (r: T)
    ensures |s| == 0 ==> r == zero
    ensures |s| > 0 ==> exists k :: 0 <= k < |s| && r == s[k]
                          && (forall j :: 0 <= j < |s| ==> at(s[j]) <= at(r))
                          && (forall j :: 0 <= j < k ==> at(s[j]) < at(r))
  {
    ProjectedOrders(at);
    MaxBy(s, Later(at), zero)
  }
}
