/** The concrete cases of find_test.go restated over the model, followed by worked examples
    of the basics.go combinators. */
module TestCases {
  import opened Seqs
  import opened Results
  import opened Iter
  import opened Search
  import opened Uniqueness
  import opened Extrema
  import opened Positional

  function IsB(x: string): bool { x == "b" }
  // Go's `len` counts bytes and `|a|` counts characters; they agree on the ASCII test strings.
  function ShorterThan(a: string, b: string): bool { |a| < |b| }
  function LongerThan(a: string, b: string): bool { |a| > |b| }
  // Go's `%` truncates and Dafny's is Euclidean; they agree on the non-negative test inputs.
  function Mod3(i: int): int { i % 3 }
  function Mod5(i: int): int { i % 5 }
  function Even(i: int): bool { i % 2 == 0 }

  lemma IndexOfCases()
    ensures IndexOf([0, 1, 2, 1, 2, 3], 2) == 2
    ensures IndexOf([0, 1, 2, 1, 2, 3], 6) == -1
    ensures LastIndexOf([0, 1, 2, 1, 2, 3], 2) == 4
    ensures LastIndexOf([0, 1, 2, 1, 2, 3], 6) == -1
  {
  }

  lemma FindCases()
    ensures Find(["a", "b", "c", "d"], IsB, "") == Lookup("b", true)
    ensures ForwardProbes(["a", "b", "c", "d"], IsB) == ["a", "b"]
    ensures ForwardProbes(["a", "b", "c", "d", "b"], IsB) == ["a", "b"]
    ensures ForwardProbes(["foobar"], IsB) == ["foobar"]
    ensures BackwardProbes(["foobar"], IsB) == ["foobar"]
    ensures Find(["foobar"], IsB, "") == Lookup("", false)
    ensures FindIndexOf(["a", "b", "c", "d", "b"], IsB, "") == Hit("b", 1, true)
    ensures FindIndexOf(["foobar"], IsB, "") == Hit("", -1, false)
    ensures FindLastIndexOf(["a", "b", "c", "d", "b"], IsB, "") == Hit("b", 4, true)
    ensures BackwardProbes(["a", "b", "c", "d", "b"], IsB) == ["b"]
    ensures FindLastIndexOf(["foobar"], IsB, "") == Hit("", -1, false)
    ensures FindOrElse(["a", "b", "c", "d"], "x", IsB) == "b"
    ensures FindOrElse(["foobar"], "x", IsB) == "x"
  {
    assert ["a", "b", "c", "d"][1..] == ["b", "c", "d"];
    assert ["a", "b", "c", "d", "b"][1..] == ["b", "c", "d", "b"];
  }

  function Numbers(): map<string, int> { map["foo" := 1, "bar" := 2, "baz" := 3] }
  function IsFoo(k: string, v: int): bool { k == "foo" }
  function Never(k: string, v: int): bool { false }

  /** The struct type of the struct-valued FindKey cases. */
  datatype Test = Test(foobar: string)

  function Tests(): map<string, Test> {
    map["foo" := Test("foo"), "bar" := Test("bar"), "baz" := Test("baz")]
  }

  /** The FindKey and FindKeyBy cases hold whatever order the map is visited in. Both maps
      have the keys "foo", "bar" and "baz". */
  lemma FindKeyCases(order: seq<string>)
    requires forall i :: 0 <= i < |order| ==> order[i] in Numbers()
    requires forall k :: k in Numbers() ==> k in order
    ensures FindKey(Numbers(), order, 2, "") == Lookup("bar", true)
    ensures FindKey(Numbers(), order, 42, "") == Lookup("", false)
    ensures FindKey(Tests(), order, Test("foo"), "") == Lookup("foo", true)
    ensures FindKey(Tests(), order, Test("hello world"), "") == Lookup("", false)
    ensures FindKeyBy(Numbers(), order, IsFoo, "") == Lookup("foo", true)
    ensures FindKeyBy(Numbers(), order, Never, "") == Lookup("", false)
  {
    var m := Numbers();
    assert m["bar"] == 2 && 2 in m.Values;
    assert 42 !in m.Values;
    assert "foo" in m && IsFoo("foo", m["foo"]);
    var n := Tests();
    assert n.Keys == m.Keys;
    assert n["foo"] == Test("foo") && Test("foo") in n.Values;
    assert Test("hello world") !in n.Values;
  }

  lemma MinMaxCases()
    ensures Min([1, 2, 3]) == 1 && Min([3, 2, 1]) == 1 && Min([]) == 0
    ensures Max([1, 2, 3]) == 3 && Max([3, 2, 1]) == 3 && Max([]) == 0
    ensures MinBy(["s1", "string2", "s3"], ShorterThan, "") == "s1"
    ensures MinBy(["string1", "string2", "s3"], ShorterThan, "") == "s3"
    ensures MinBy([], ShorterThan, "") == ""
    ensures MaxBy(["s1", "string2", "s3"], LongerThan, "") == "string2"
    ensures MaxBy(["string1", "string2", "s3"], LongerThan, "") == "string1"
    ensures MaxBy([], LongerThan, "") == ""
  {
    assert [1, 2, 3][..2] == [1, 2] && [1, 2][..1] == [1];
    assert [3, 2, 1][..2] == [3, 2] && [3, 2][..1] == [3];
    assert ["s1", "string2", "s3"][..2] == ["s1", "string2"];
    assert ["s1", "string2"][..1] == ["s1"];
    assert ["string1", "string2", "s3"][..2] == ["string1", "string2"];
    assert ["string1", "string2"][..1] == ["string1"];
  }

  /** Instants at whole-second resolution; an element of the `...By` cases is its instant. */
  const Hour := 3600
  function At(x: int): int { x }

  /** The time cases hold for every starting instant `a`. */
  lemma TimeCases(a: int)
    ensures Earliest([a, a + Hour]) == a && Earliest([]) == 0
    ensures Latest([a, a + Hour]) == a + Hour && Latest([]) == 0
    ensures EarliestBy([a, a + Hour, a - Hour], At, 0) == a - Hour
    ensures EarliestBy([a], At, 0) == a && EarliestBy([], At, 0) == 0
    ensures LatestBy([a, a + Hour, a - Hour], At, 0) == a + Hour
    ensures LatestBy([a], At, 0) == a && LatestBy([], At, 0) == 0
    ensures Min([1, 60, Hour]) == 1 && Max([1, 60, Hour]) == Hour
  {
    var s := [a, a + Hour, a - Hour];
    var e, l := EarliestBy(s, At, 0), LatestBy(s, At, 0);
    assert At(e) <= At(s[2]) && At(s[1]) <= At(l);
    var d := [1, 60, Hour];
    assert Min(d) <= d[0] && d[2] <= Max(d);
  }

  /** Sample draws from its input; Samples of everything is a permutation of it. */
  lemma SampleCases(roll: nat, rolls: nat -> nat)
    ensures Sample(["a", "b", "c"], roll, "") in ["a", "b", "c"]
    ensures Sample([], roll, "") == ""
    ensures multiset(Samples(["a", "b", "c"], 3, rolls)) == multiset(["a", "b", "c"])
    ensures Samples<string>([], 3, rolls) == []
  {
  }

  lemma PositionalCases()
    ensures First([1, 2, 3], 0) == Lookup(1, true) && First([], 0) == Lookup(0, false)
    ensures FirstOrEmpty([1, 2, 3], 0) == 1 && FirstOrEmpty([], "") == ""
    ensures FirstOr([1, 2, 3], 63) == 1 && FirstOr([], 23) == 23 && FirstOr([], "test") == "test"
    ensures Last([1, 2, 3], 0) == Lookup(3, true) && Last([], 0) == Lookup(0, false)
    ensures LastOrEmpty([1, 2, 3], 0) == 3 && LastOrEmpty([], "") == ""
    ensures LastOr([1, 2, 3], 63) == 3 && LastOr([], 23) == 23 && LastOr([], "test") == "test"
    ensures Nth([0, 1, 2, 3], 2, 0) == Fetched(2, None)
    ensures Nth([0, 1, 2, 3], -2, 0) == Fetched(2, None)
    ensures Nth([0, 1, 2, 3], 42, 0) == Fetched(0, Some(OutOfBounds(42)))
    ensures Nth([], 0, 0) == Fetched(0, Some(OutOfBounds(0)))
    ensures Nth([42], 0, 0) == Fetched(42, None)
    ensures Nth([42], -1, 0) == Fetched(42, None)
  {
  }

  /** Six elements shaped `a, b, b, c, a, b` for distinct `a`, `b`, `c`. */
  ghost predicate ShapeABBCAB<T>(s: seq<T>) {
    && |s| == 6 && s[4] == s[0] && s[2] == s[1] && s[5] == s[1]
    && s[0] != s[1] && s[1] != s[3] && s[0] != s[3]
  }

  lemma CountsABBCAB<T>(s: seq<T>)
    requires ShapeABBCAB(s)
    ensures multiset(s)[s[0]] == 2 && multiset(s)[s[1]] == 3 && multiset(s)[s[3]] == 1
  {
    assert s == [s[0]] + [s[1]] + [s[2]] + [s[3]] + [s[4]] + [s[5]];
  }

  /** Filtering `a, b, b, c, a, b` with a test that only `c` passes leaves `c`. */
  lemma KeepsOnlyC<T>(s: seq<T>, f: T -> bool)
    requires ShapeABBCAB(s) && !f(s[0]) && !f(s[1]) && f(s[3])
    ensures Kept(s, f) == [s[3]]
  {
    var s1 := s[1..];
    var s2 := s1[1..];
    var s3 := s2[1..];
    var s4 := s3[1..];
    var s5 := s4[1..];
    assert s5 == [s[5]] && s5[1..] == [];
    assert Kept(s5, f) == [];
    assert Kept(s4, f) == [];
    assert Kept(s3, f) == [s[3]];
    assert Kept(s2, f) == [s[3]];
    assert Kept(s1, f) == [s[3]];
  }

  lemma UniquesShape<T>(s: seq<T>)
    requires ShapeABBCAB(s)
    ensures Uniques(s, Id) == [s[3]]
  {
    IdKeyCount(s);
    CountsABBCAB(s);
    KeepsOnlyC(s, Single(s, Id));
  }

  /** Three elements with pairwise distinct keys. */
  lemma Distinct3<T, K>(s: seq<T>, key: T -> K)
    requires |s| == 3
    requires key(s[0]) != key(s[1]) && key(s[0]) != key(s[2]) && key(s[1]) != key(s[2])
    ensures DistinctKeys(s, key)
  {
  }

  /** Five elements with pairwise distinct keys. */
  lemma Distinct5<T, K>(s: seq<T>, key: T -> K)
    requires |s| == 5
    requires key(s[0]) != key(s[1]) && key(s[0]) != key(s[2]) && key(s[0]) != key(s[3])
    requires key(s[0]) != key(s[4]) && key(s[1]) != key(s[2]) && key(s[1]) != key(s[3])
    requires key(s[1]) != key(s[4]) && key(s[2]) != key(s[3]) && key(s[2]) != key(s[4])
    requires key(s[3]) != key(s[4])
    ensures DistinctKeys(s, key)
  {
  }

  /** Four elements whose keys run `a, b, b, a`: every key occurs at least twice. */
  lemma CountsABBA<T, K>(s: seq<T>, key: T -> K)
    requires |s| == 4 && key(s[3]) == key(s[0]) && key(s[2]) == key(s[1])
    ensures forall i :: 0 <= i < |s| ==> KeyCount(s, key, key(s[i])) >= 2
  {
    var m := Mapped(s, key);
    assert m == [m[0]] + [m[1]] + [m[2]] + [m[3]];
  }

  /** Six elements whose keys run `a, b, c, a, b, c`: every key occurs at least twice. */
  lemma CountsABCABC<T, K>(s: seq<T>, key: T -> K)
    requires |s| == 6 && key(s[3]) == key(s[0]) && key(s[4]) == key(s[1]) && key(s[5]) == key(s[2])
    ensures forall i :: 0 <= i < |s| ==> KeyCount(s, key, key(s[i])) >= 2
  {
    var m := Mapped(s, key);
    assert m == [m[0]] + [m[1]] + [m[2]] + [m[3]] + [m[4]] + [m[5]];
  }

  lemma UniquesCase1()
    ensures Uniques([1, 2, 3], Id) == [1, 2, 3]
  {
    Distinct3([1, 2, 3], Id);
    DistinctKeysUniques([1, 2, 3], Id);
  }

  lemma UniquesCase2()
    ensures Uniques([1, 2, 2, 3, 1, 2], Id) == [3]
  {
    UniquesShape([1, 2, 2, 3, 1, 2]);
  }

  lemma UniquesCase3()
    ensures Uniques([1, 2, 2, 1], Id) == []
  {
    CountsABBA([1, 2, 2, 1], Id);
    RepeatedKeysNoUniques([1, 2, 2, 1], Id);
  }

  lemma UniquesCases()
    ensures Uniques([1, 2, 3], Id) == [1, 2, 3]
    ensures Uniques([1, 2, 2, 3, 1, 2], Id) == [3]
    ensures Uniques([1, 2, 2, 1], Id) == []
    ensures Uniques<int, int>([], Id) == []
  {
    UniquesCase1();
    UniquesCase2();
    UniquesCase3();
  }

  /** With the identity key, an element joins the first-occurrence list iff it is new. */
  lemma FirstByIdSnoc(t: seq<int>, x: int)
    ensures FirstByKey(t + [x], Id) == FirstByKey(t, Id) + (if x in t then [] else [x])
  {
    assert (t + [x])[..|t|] == t;
    IdKeyCount(t);
  }

  /** An element already seen leaves the first-occurrence list as it is. */
  lemma FirstByIdSeen(t: seq<int>, x: int, r: seq<int>)
    requires FirstByKey(t, Id) == r && x in t
    ensures FirstByKey(t + [x], Id) == r
  {
    FirstByIdSnoc(t, x);
  }

  /** A new element is appended to the first-occurrence list. */
  lemma FirstByIdNew(t: seq<int>, x: int, r: seq<int>)
    requires FirstByKey(t, Id) == r && x !in t
    ensures FirstByKey(t + [x], Id) == r + [x]
  {
    FirstByIdSnoc(t, x);
  }

  lemma FirstByIdHead(a: int, b: int)
    requires a != b
    ensures FirstByKey([a, b, b], Id) == [a, b]
  {
    var t1, t2, t3 := [a], [a, b], [a, b, b];
    assert t1 == [] + [a] && t2 == t1 + [b] && t3 == t2 + [b];
    FirstByIdNew([], a, []);
    FirstByIdNew(t1, b, [a]);
    FirstByIdSeen(t2, b, [a, b]);
  }

  lemma FirstByIdShape(a: int, b: int, c: int)
    requires a != b && b != c && a != c
    ensures FirstByKey([a, b, b, a, b, c], Id) == [a, b, c]
  {
    var t3, t4, t5, t6 := [a, b, b], [a, b, b, a], [a, b, b, a, b], [a, b, b, a, b, c];
    assert t4 == t3 + [a] && t5 == t4 + [b] && t6 == t5 + [c];
    assert a in t3 && b in t4 && c !in t5;
    FirstByIdHead(a, b);
    FirstByIdSeen(t3, a, [a, b]);
    FirstByIdSeen(t4, b, [a, b]);
    FirstByIdNew(t5, c, [a, b]);
  }

  lemma CountsABBABC(a: int, b: int, c: int)
    requires a != b && b != c && a != c
    ensures multiset([a, b, b, a, b, c])[a] == 2
    ensures multiset([a, b, b, a, b, c])[b] == 3
    ensures multiset([a, b, b, a, b, c])[c] == 1
  {
    var m := multiset([a, b, b, a, b, c]);
    assert m == multiset{a, a} + multiset{b, b, b} + multiset{c};
  }

  lemma KeepsAB(a: int, b: int, c: int, f: int -> bool)
    requires f(a) && f(b) && !f(c)
    ensures Kept([a, b, c], f) == [a, b]
  {
    assert Kept([c], f) == [] by { assert [c][1..] == []; }
    assert Kept([b, c], f) == [b] by { assert [b, c][1..] == [c]; }
    assert [a, b, c][1..] == [b, c];
  }

  lemma DuplicatesCases()
    ensures Duplicates([1, 2, 2, 1, 2, 3], Id) == [1, 2]
    ensures Duplicates([1, 2, 3], Id) == []
    ensures Duplicates<int, int>([], Id) == []
  {
    Distinct3([1, 2, 3], Id);
    DistinctKeysUniques([1, 2, 3], Id);
    FirstByIdShape(1, 2, 3);
    IdKeyCount([1, 2, 2, 1, 2, 3]);
    CountsABBABC(1, 2, 3);
    KeepsAB(1, 2, 3, Repeated([1, 2, 2, 1, 2, 3], Id));
  }

  /** Five elements whose keys run `a, b, c, a, b` for distinct `a`, `b`, `c`. */
  ghost predicate KeysABCAB<T, K>(s: seq<T>, key: T -> K) {
    && |s| == 5
    && key(s[0]) != key(s[1]) && key(s[1]) != key(s[2]) && key(s[0]) != key(s[2])
    && key(s[3]) == key(s[0]) && key(s[4]) == key(s[1])
  }

  lemma FirstByKeyHead<T, K>(s: seq<T>, key: T -> K)
    requires KeysABCAB(s, key)
    ensures FirstByKey(s[..3], key) == s[..3]
  {
    FirstByKeySnoc([], s[0], key);
    assert s[..1] == [] + [s[0]];
    FirstByKeySnoc(s[..1], s[1], key);
    assert s[..2] == s[..1] + [s[1]];
    assert Mapped(s[..1], key) == [key(s[0])];
    assert key(s[1]) !in Mapped(s[..1], key);
    FirstByKeySnoc(s[..2], s[2], key);
    assert s[..3] == s[..2] + [s[2]];
    assert Mapped(s[..2], key) == [key(s[0]), key(s[1])];
  }

  lemma FirstByKeyShape<T, K>(s: seq<T>, key: T -> K)
    requires KeysABCAB(s, key)
    ensures FirstByKey(s, key) == s[..3]
  {
    FirstByKeyHead(s, key);
    FirstByKeySnoc(s[..3], s[3], key);
    assert s[..4] == s[..3] + [s[3]];
    assert Mapped(s[..3], key)[0] == key(s[3]);
    FirstByKeySnoc(s[..4], s[4], key);
    assert s == s[..4] + [s[4]];
    assert Mapped(s[..4], key)[1] == key(s[4]);
  }

  lemma CountsABCAB<T, K>(s: seq<T>, key: T -> K)
    requires KeysABCAB(s, key)
    ensures KeyCount(s, key, key(s[0])) == 2
    ensures KeyCount(s, key, key(s[1])) == 2
    ensures KeyCount(s, key, key(s[2])) == 1
  {
    var m := Mapped(s, key);
    assert m == [m[0]] + [m[1]] + [m[2]] + [m[3]] + [m[4]];
  }

  lemma DuplicatesShape<T, K>(s: seq<T>, key: T -> K)
    requires KeysABCAB(s, key)
    ensures Duplicates(s, key) == [s[0], s[1]]
  {
    FirstByKeyShape(s, key);
    CountsABCAB(s, key);
    var f := Repeated(s, key);
    var t := s[..3];
    assert Kept(t[2..], f) == [] by { assert t[2..][1..] == []; }
    assert Kept(t[1..], f) == [s[1]] by { assert t[1..][1..] == t[2..]; }
  }

  /** Filtering five elements with a test that only the third passes leaves the third. */
  lemma KeepsOnlyThird<T>(s: seq<T>, f: T -> bool)
    requires |s| == 5 && !f(s[0]) && !f(s[1]) && f(s[2]) && !f(s[3]) && !f(s[4])
    ensures Kept(s, f) == [s[2]]
  {
    var s1 := s[1..];
    var s2 := s1[1..];
    var s3 := s2[1..];
    var s4 := s3[1..];
    assert s4 == [s[4]] && s4[1..] == [];
    assert Kept(s4, f) == [];
    assert Kept(s3, f) == [];
    assert Kept(s2, f) == [s[2]];
    assert Kept(s1, f) == [s[2]];
  }

  /** Keys running `a, b, c, a, b` leave the element with key `c` as the only unique one. */
  lemma UniquesABCAB<T, K>(s: seq<T>, key: T -> K)
    requires KeysABCAB(s, key)
    ensures Uniques(s, key) == [s[2]]
  {
    CountsABCAB(s, key);
    KeepsOnlyThird(s, Single(s, key));
  }

  lemma UniquesByCase1()
    ensures Uniques([0, 1, 2], Mod3) == [0, 1, 2]
  {
    Distinct3([0, 1, 2], Mod3);
    DistinctKeysUniques([0, 1, 2], Mod3);
  }

  lemma UniquesByCase2()
    ensures Uniques([0, 1, 2, 3, 4], Mod3) == [2]
  {
    UniquesABCAB([0, 1, 2, 3, 4], Mod3);
  }

  /** Keys running `a, b, c, a, b, c` leave no unique element. */
  lemma UniquesABCABC<T, K>(s: seq<T>, key: T -> K)
    requires |s| == 6 && key(s[3]) == key(s[0]) && key(s[4]) == key(s[1]) && key(s[5]) == key(s[2])
    ensures Uniques(s, key) == []
  {
    CountsABCABC(s, key);
    RepeatedKeysNoUniques(s, key);
  }

  lemma UniquesByCase3()
    ensures Uniques([0, 1, 2, 3, 4, 5], Mod3) == []
  {
    UniquesABCABC([0, 1, 2, 3, 4, 5], Mod3);
  }

  lemma UniquesByCases()
    ensures Uniques([0, 1, 2], Mod3) == [0, 1, 2]
    ensures Uniques([0, 1, 2, 3, 4], Mod3) == [2]
    ensures Uniques([0, 1, 2, 3, 4, 5], Mod3) == []
    ensures Uniques([], Mod3) == []
  {
    UniquesByCase1();
    UniquesByCase2();
    UniquesByCase3();
  }

  lemma DuplicatesByCases()
    ensures Duplicates([3, 4, 5, 6, 7], Mod3) == [3, 4]
    ensures Duplicates([0, 1, 2, 3, 4], Mod5) == []
    ensures Duplicates([], Mod3) == []
  {
    DuplicatesShape([3, 4, 5, 6, 7], Mod3);
    Distinct5([0, 1, 2, 3, 4], Mod5);
    DistinctKeysUniques([0, 1, 2, 3, 4], Mod5);
  }

  /** Four elements of which the second and the fourth pass the filter. */
  lemma FilterShape<V>(s: seq<V>, f: V -> bool)
    requires |s| == 4 && !f(s[0]) && f(s[1]) && !f(s[2]) && f(s[3])
    ensures IFilter(s, f, Drain) == Run([s[1], s[3]], 4, false)
    ensures IFilter(s, f, StopAt(1)) == Run([s[1]], 2, true)
  {
    assert Kept(s, f) == [s[1], s[3]] by {
      var t := s[1..];
      var u := t[1..];
      var v := u[1..];
      assert v == [s[3]] && v[1..] == [];
      assert Kept(v, f) == [s[3]];
      assert Kept(u, f) == [s[3]];
      assert Kept(t, f) == [s[1], s[3]];
    }
    IFilterDrained(s, f);
    assert IFilter(s, f, StopAt(1)) == Run([s[1]], 2, true) by {
      assert s[1..][0] == s[1];
      assert IFilter(s[1..], f, StopAt(1)) == Run([s[1]], 1, true);
    }
  }

  lemma FilterCase()
    ensures IFilter([1, 2, 3, 4], Even, Drain) == Run([2, 4], 4, false)
    ensures IFilter([1, 2, 3, 4], Even, StopAt(1)) == Run([2], 2, true)
  {
    FilterShape([1, 2, 3, 4], Even);
  }

  lemma MapCase()
    ensures IMap([1, 2, 3], Mod3, StopAt(2)) == Run([1, 2], 2, true)
  {
  }

  lemma ChainCase()
    ensures Chain([[1], [2, 3], [4]], StopAt(2)) == ChainRun([1, 2], 2, true)
    ensures Chain<int>([], Drain) == ChainRun([], 0, false)
  {
  }

  lemma ReduceZipCase()
    ensures IReduce([1, 2, 3], (acc: int, x: int) => acc + x, 0) == 6
    ensures Zip([1, 2], ["a", "b"], Drain).delivered == [(1, "a"), (2, "b")]
  {
  }
}
