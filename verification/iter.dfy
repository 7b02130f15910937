/** The push-iterator combinators of basics.go: IFilter, IReduce, Chain, IMap and Zip.

    A Go `iter.Seq[V]` over a finite source is modelled by the source itself, a `seq<V>`.
    Ranging over a producer hands each value to the consumer's `yield`; the only thing
    about `yield` that the combinators observe is whether it answers false, which makes
    them return at once. A `Consumer` therefore records when that answer comes, and each
    combinator is a pure function from its source and consumer to a `Run`: what was
    delivered, how far into the source the producer got, and whether it was stopped.
 */
module Iter {
  import opened Seqs

  type Pos = n: nat | 1 <= n witness 1

  /** The consumer's `yield`. `Drain` answers true to every delivery (a `range` loop that
      runs to the end); `StopAt(k)` answers true to deliveries 1 .. k-1 and false to the
      k-th (a loop that breaks once it has received k values). */
  datatype Consumer = Drain | StopAt(k: Pos) {

    /** The answer `yield` gives to the next delivery. */
    predicate Accepts() {
      Drain? || k > 1
    }

    /** The consumer after it has accepted one delivery. */
    function Next(): Consumer
      requires Accepts()
    {
      if Drain? then Drain else StopAt(k - 1)
    }

    /** True when offering `n` values makes `yield` answer false to one of them. */
    predicate StopsWithin(n: nat) {
      StopAt? && k <= n
    }

    /** How many of `n` offered values this consumer receives. */
    function Received(n: nat): (r: nat)
      ensures r <= n
    {
      if StopAt? && k < n then k else n
    }

    /** The consumer after it has accepted `n` deliveries in a row. */
    function Skip(n: nat): Consumer
      requires !StopsWithin(n)
    {
      if Drain? then Drain else StopAt(k - n)
    }
  }

  /** The observable outcome of driving a producer: the values handed to `yield` (the last
      one included when `yield` answered false to it), how many source elements were
      pulled, and whether the producer returned because `yield` answered false. */
  datatype Run<R> = Run(delivered: seq<R>, pulled: nat, stopped: bool)

  /** The outcome of driving a chain: as a `Run`, except that what is counted is the
      sub-iterators started rather than elements pulled. */
  datatype ChainRun<R> = ChainRun(delivered: seq<R>, started: nat, stopped: bool)

  /** `IFilter(s, f)` driven by `c`: each source element is tested with `f` and, only when
      it passes, handed to `yield`; a false answer ends the loop. */
  function IFilter<V>(s: seq<V>, f: V -> bool, c: Consumer): (r: Run<V>)
    ensures r.pulled <= |s|
    ensures r.delivered == Kept(s[..r.pulled], f)
    ensures r.stopped <==> c.StopsWithin(|Kept(s, f)|)
    decreases |s|
  {
    if |s| == 0 then Run([], 0, false)
    else if !f(s[0]) then
      var rest := IFilter(s[1..], f, c);
      PrefixCons(s, rest.pulled + 1);
      Run(rest.delivered, rest.pulled + 1, rest.stopped)
    else if !c.Accepts() then
      PrefixCons(s, 1);
      Run([s[0]], 1, true)
    else
      var rest := IFilter(s[1..], f, c.Next());
      PrefixCons(s, rest.pulled + 1);
      Run([s[0]] + rest.delivered, rest.pulled + 1, rest.stopped)
  }

  /** IFilter delivers the kept elements of the source up to the consumer's stop point. */
  lemma {:induction false} IFilterDelivers<V>(s: seq<V>, f: V -> bool, c: Consumer)
    ensures IFilter(s, f, c).delivered == Kept(s, f)[..c.Received(|Kept(s, f)|)]
    decreases |s|
  {
    if |s| > 0 {
      var kept := Kept(s, f);
      var tail := Kept(s[1..], f);
      if !f(s[0]) {
        assert kept == tail;
        assert IFilter(s, f, c).delivered == IFilter(s[1..], f, c).delivered;
        IFilterDelivers(s[1..], f, c);
      } else if c.Accepts() {
        assert kept == [s[0]] + tail;
        var rest := IFilter(s[1..], f, c.Next());
        assert IFilter(s, f, c).delivered == [s[0]] + rest.delivered;
        IFilterDelivers(s[1..], f, c.Next());
        assert c.Received(|kept|) == c.Next().Received(|tail|) + 1;
        assert kept[..c.Received(|kept|)] == [s[0]] + tail[..c.Next().Received(|tail|)];
      } else {
        assert kept == [s[0]] + tail;
        assert c.Received(|kept|) == 1;
      }
    }
  }

  /** When IFilter runs to the end it has pulled the whole source; when it is stopped it
      has pulled exactly up to and including the k-th element that passed `f`. */
  lemma {:induction false} IFilterPullsOnlyWhatIsNeeded<V>(s: seq<V>, f: V -> bool, c: Consumer)
    ensures !IFilter(s, f, c).stopped ==> IFilter(s, f, c).pulled == |s|
    ensures IFilter(s, f, c).stopped ==>
              0 < IFilter(s, f, c).pulled && f(s[IFilter(s, f, c).pulled - 1])
              && |IFilter(s, f, c).delivered| == c.k
    decreases |s|
  {
    if |s| > 0 {
      var r := IFilter(s, f, c);
      if !f(s[0]) {
        var rest := IFilter(s[1..], f, c);
        IFilterPullsOnlyWhatIsNeeded(s[1..], f, c);
        assert r == Run(rest.delivered, rest.pulled + 1, rest.stopped);
        if rest.stopped {
          assert s[1..][rest.pulled - 1] == s[rest.pulled];
        }
      } else if c.Accepts() {
        var rest := IFilter(s[1..], f, c.Next());
        IFilterPullsOnlyWhatIsNeeded(s[1..], f, c.Next());
        assert r == Run([s[0]] + rest.delivered, rest.pulled + 1, rest.stopped);
        if rest.stopped {
          assert s[1..][rest.pulled - 1] == s[rest.pulled];
        }
      }
    }
  }

  /** A consumer that never stops receives exactly the filtered source. */
  lemma {:induction false} IFilterDrained<V>(s: seq<V>, f: V -> bool)
    ensures IFilter(s, f, Drain) == Run(Kept(s, f), |s|, false)
  {
    var r := IFilter(s, f, Drain);
    var kept := Kept(s, f);
    IFilterDelivers(s, f, Drain);
    assert Drain.Received(|kept|) == |kept|;
    assert kept[..|kept|] == kept;
    assert !r.stopped;
    IFilterPullsOnlyWhatIsNeeded(s, f, Drain);
  }

  /** `IReduce(s, f, init)`: the left fold `f(... f(f(init, s[0]), s[1]) ..., s[|s|-1])`.
      The loop's accumulator starts at `init`, and its last step combines the fold of all
      earlier elements with the last one. */
  function IReduce<V, R>(s: seq<V>, f: (R, V) -> R, init: R): (r: R)
    ensures |s| == 0 ==> r == init
    ensures |s| > 0 ==> r == f(IReduce(s[..|s| - 1], f, init), s[|s| - 1])
    decreases |s|
  {
    if |s| == 0 then init
    else
      var r := IReduce(s[1..], f, f(init, s[0]));
      assert |s| > 1 ==> s[1..][..|s| - 2] == s[..|s| - 1][1..];
      r
  }

  /** Reducing a concatenation reduces the second part from the first part's result. */
  lemma {:induction false} IReduceAppend<V, R>(a: seq<V>, b: seq<V>, f: (R, V) -> R, init: R)
    ensures IReduce(a + b, f, init) == IReduce(b, f, IReduce(a, f, init))
    decreases |a|
  {
    if |a| == 0 {
      assert a + b == b;
    } else {
      assert (a + b)[1..] == a[1..] + b;
      IReduceAppend(a[1..], b, f, f(init, a[0]));
    }
  }

  /** The accumulator after one more element is `f` of the previous accumulator and it. */
  lemma {:induction false} IReduceStep<V, R>(s: seq<V>, x: V, f: (R, V) -> R, init: R)
    ensures IReduce(s + [x], f, init) == f(IReduce(s, f, init), x)
  {
    IReduceAppend(s, [x], f, init);
  }

  /** The loop body `for e := range it { if !yield(e) { return } }`, which Chain runs for
      every sub-iterator: each element is handed on until `yield` answers false. */
  function Forward<V>(s: seq<V>, c: Consumer): (r: Run<V>)
    ensures r.pulled == c.Received(|s|)
    ensures r.delivered == s[..r.pulled]
    ensures r.stopped <==> c.StopsWithin(|s|)
    decreases |s|
  {
    if |s| == 0 then Run([], 0, false)
    else if !c.Accepts() then Run([s[0]], 1, true)
    else
      var rest := Forward(s[1..], c.Next());
      PrefixCons(s, rest.pulled + 1);
      Run([s[0]] + rest.delivered, rest.pulled + 1, rest.stopped)
  }

  /** `Chain(iters...)` driven by `c`: the sub-iterators are ranged over in order and a
      false answer from `yield` inside any of them returns from the whole chain. */
  function Chain<V>(iters: seq<seq<V>>, c: Consumer): (r: ChainRun<V>)
    ensures r.started <= |iters|
    ensures r.delivered == Concat(iters)[..c.Received(|Concat(iters)|)]
    ensures r.stopped <==> c.StopsWithin(|Concat(iters)|)
    decreases |iters|
  {
    if |iters| == 0 then ChainRun([], 0, false)
    else
      var head := Forward(iters[0], c);
      if head.stopped then ChainRun(head.delivered, 1, true)
      else
        var rest := Chain(iters[1..], c.Skip(|iters[0]|));
        assert Concat(iters) == iters[0] + Concat(iters[1..]);
        ChainRun(head.delivered + rest.delivered, rest.started + 1, rest.stopped)
  }

  /** A stopped chain has started exactly the sub-iterators up to the one holding the
      consumer's k-th value; a chain that is not stopped has started all of them. */
  lemma {:induction false} ChainStartsOnlyWhatIsNeeded<V>(iters: seq<seq<V>>, c: Consumer)
    ensures !Chain(iters, c).stopped ==> Chain(iters, c).started == |iters|
    ensures Chain(iters, c).stopped ==>
              var n := Chain(iters, c).started;
              0 < n && |Concat(iters[..n - 1])| < c.k <= |Concat(iters[..n])|
    decreases |iters|
  {
    if |iters| > 0 {
      var r := Chain(iters, c);
      var head := Forward(iters[0], c);
      if head.stopped {
        assert r.started == 1;
        assert iters[..0] == [];
        assert iters[..1] == [iters[0]];
        assert Concat([iters[0]]) == iters[0] + Concat([]);
      } else {
        var c' := c.Skip(|iters[0]|);
        var rest := Chain(iters[1..], c');
        ChainStartsOnlyWhatIsNeeded(iters[1..], c');
        assert r == ChainRun(head.delivered + rest.delivered, rest.started + 1, rest.stopped);
        if r.stopped {
          var m := rest.started;
          assert 0 < m;
          assert c'.k == c.k - |iters[0]|;
          assert iters[..m] == [iters[0]] + iters[1..][..m - 1];
          assert iters[..m + 1] == [iters[0]] + iters[1..][..m];
          assert Concat(iters[..m]) == iters[0] + Concat(iters[1..][..m - 1]);
          assert Concat(iters[..m + 1]) == iters[0] + Concat(iters[1..][..m]);
        }
      }
    }
  }

  /** `IMap(s, f)` driven by `c`: `f` of each source element is handed to `yield`. */
  function IMap<V, R>(s: seq<V>, f: V -> R, c: Consumer): (r: Run<R>)
    ensures r.pulled == c.Received(|s|)
    ensures r.delivered == Mapped(s[..r.pulled], f)
    ensures r.stopped <==> c.StopsWithin(|s|)
    decreases |s|
  {
    if |s| == 0 then Run([], 0, false)
    else if !c.Accepts() then
      assert s[..1] == [s[0]];
      Run([f(s[0])], 1, true)
    else
      var rest := IMap(s[1..], f, c.Next());
      PrefixCons(s, rest.pulled + 1);
      Run([f(s[0])] + rest.delivered, rest.pulled + 1, rest.stopped)
  }

  /** Mapping lazily and stopping agrees with mapping eagerly and truncating. */
  lemma {:induction false} IMapDelivers<V, R>(s: seq<V>, f: V -> R, c: Consumer)
    ensures IMap(s, f, c).delivered == Mapped(s, f)[..c.Received(|s|)]
  {
    var n := c.Received(|s|);
    MappedAppend(s[..n], s[n..], f);
    assert s == s[..n] + s[n..];
  }

  /** `Zip(ki, vi)` driven by `c`. The source panics when the lengths differ; that is
      this function's precondition. */
  function Zip<K, V>(ki: seq<K>, vi: seq<V>, c: Consumer): (r: Run<(K, V)>)
    requires |ki| == |vi|
    ensures r.pulled == c.Received(|ki|)
    ensures r.delivered == Pairs(ki, vi)[..r.pulled]
    ensures r.stopped <==> c.StopsWithin(|ki|)
  {
    ZipFrom(ki, vi, 0, c)
  }

  /** The loop of Zip from index `i` on: `(ki[i], vi[i])` is handed to `yield` and a false
      answer returns. `pulled` counts the indices visited from `i`. */
  function ZipFrom<K, V>(ki: seq<K>, vi: seq<V>, i: nat, c: Consumer): (r: Run<(K, V)>)
    requires |ki| == |vi| && i <= |ki|
    ensures r.pulled == c.Received(|ki| - i)
    ensures |r.delivered| == r.pulled
    ensures forall j :: 0 <= j < r.pulled ==> r.delivered[j] == (ki[i + j], vi[i + j])
    ensures r.stopped <==> c.StopsWithin(|ki| - i)
    decreases |ki| - i
  {
    if i == |ki| then Run([], 0, false)
    else if !c.Accepts() then Run([(ki[i], vi[i])], 1, true)
    else
      var rest := ZipFrom(ki, vi, i + 1, c.Next());
      Run([(ki[i], vi[i])] + rest.delivered, rest.pulled + 1, rest.stopped)
  }
}
