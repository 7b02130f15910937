/** Uniqueness analysis: FindUniques, FindUniquesBy, FindDuplicates and FindDuplicatesBy.

    Each is the two-pass algorithm: a first pass records, per key, whether it has been seen
    more than once; a second pass walks the input in order and keeps what qualifies. The
    results are compared with reference definitions stated through multiset counts.
 */
module Uniqueness {
  import opened Seqs

  /** How many elements of `s` have key `k`. */
  ghost function KeyCount<T, K>(s: seq<T>, key: T -> K, k: K): nat {
    multiset(Mapped(s, key))[k]
  }

  /** Holds of elements whose key occurs exactly once in `s`. */
  ghost function Single<T, K>(s: seq<T>, key: T -> K): T -> bool {
    x => KeyCount(s, key, key(x)) == 1
  }

  /** Holds of elements whose key occurs at least twice in `s`. */
  ghost function Repeated<T, K>(s: seq<T>, key: T -> K): T -> bool {
    x => KeyCount(s, key, key(x)) >= 2
  }

  /** Holds of keys occurring exactly once in `s`. */
  ghost function SingleKey<T, K>(s: seq<T>, key: T -> K): K -> bool {
    k => KeyCount(s, key, k) == 1
  }

  /** Holds of keys occurring at least twice in `s`. */
  ghost function RepeatedKey<T, K>(s: seq<T>, key: T -> K): K -> bool {
    k => KeyCount(s, key, k) >= 2
  }

  /** Reference result of FindUniquesBy: the elements whose key is theirs alone, in order. */
  ghost function Uniques<T, K>(s: seq<T>, key: T -> K): seq<T> {
    Kept(s, Single(s, key))
  }

  /** Reference result of FindDuplicatesBy: the first element of every repeated key. */
  ghost function Duplicates<T, K>(s: seq<T>, key: T -> K): seq<T> {
    Kept(FirstByKey(s, key), Repeated(s, key))
  }

  /** The first element of `s` for each key, in first-occurrence order. */
  ghost function FirstByKey<T, K>(s: seq<T>, key: T -> K): seq<T>
    decreases |s|
  {
    if |s| == 0 then []
    else
      var init := s[..|s| - 1];
      FirstByKey(init, key) + (if KeyCount(init, key, key(s[|s| - 1])) > 0 then [] else [s[|s| - 1]])
  }

  /** An element joins the first-occurrence list iff no earlier element shares its key. */
  lemma {:induction false} FirstByKeySnoc<T, K>(t: seq<T>, x: T, key: T -> K)
    ensures FirstByKey(t + [x], key)
         == FirstByKey(t, key) + (if KeyCount(t, key, key(x)) > 0 then [] else [x])
  {
    assert (t + [x])[..|t|] == t;
  }

  /** The state of the first pass after the prefix `t` of the input: every key seen is
      present, mapped to whether it has been seen more than once. */
  ghost predicate Marks<T, K>(t: seq<T>, key: T -> K, isDupl: map<K, bool>) {
    && (forall k :: k in isDupl ==> KeyCount(t, key, k) >= 1)
    && (forall i :: 0 <= i < |t| ==> key(t[i]) in isDupl)
    && (forall k :: k in isDupl ==> (isDupl[k] <==> KeyCount(t, key, k) >= 2))
  }

  /** One more element raises its own key's count by one and no other. */
  lemma {:induction false} KeyCountSnoc<T, K>(t: seq<T>, x: T, key: T -> K, k: K)
    ensures KeyCount(t + [x], key, k) == KeyCount(t, key, k) + (if key(x) == k then 1 else 0)
  {
    MappedAppend(t, [x], key);
    assert Mapped([x], key) == [key(x)];
  }

  /** The first pass's treatment of the key `k`: a new key is marked false, a key marked
      false becomes true, and a key marked true stays so. Whatever the branch, afterwards
      `k` is marked exactly when it had been seen before. */
  function Mark<K>(isDupl: map<K, bool>, k: K): (m: map<K, bool>)
    ensures m == isDupl[k := k in isDupl]
  {
    if k !in isDupl then isDupl[k := false]
    else if !isDupl[k] then isDupl[k := true]
    else isDupl
  }

  /** Marking the key of one more element keeps the first pass's state accurate. */
  lemma {:induction false} MarksStep<T, K>(t: seq<T>, x: T, key: T -> K, isDupl: map<K, bool>)
    requires Marks(t, key, isDupl)
    ensures Marks(t + [x], key, Mark(isDupl, key(x)))
  {
    var t' := t + [x];
    var m := Mark(isDupl, key(x));
    forall k | k in m
      ensures KeyCount(t', key, k) >= 1
      ensures m[k] <==> KeyCount(t', key, k) >= 2
    {
      KeyCountSnoc(t, x, key, k);
    }
    forall i | 0 <= i < |t'|
      ensures key(t'[i]) in m
    {
      if i < |t| {
        assert t'[i] == t[i];
      }
    }
  }

  /** The first pass shared by all four operations: for each key, false once it has been
      seen and true once it has been seen again. */
  method MarkDuplicates<T, K(==)>(s: seq<T>, key: T -> K) returns (isDupl: map<K, bool>)
    ensures Marks(s, key, isDupl)
  {
    isDupl := map[];
    for i := 0 to |s|
      invariant Marks(s[..i], key, isDupl)
    {
      MarksNext(s, i, key, isDupl);
      isDupl := Mark(isDupl, key(s[i]));
    }
    assert s[..|s|] == s;
  }

  /** The first pass's step at index `i`, stated over prefixes of `s`. */
  lemma {:induction false} MarksNext<T, K>(s: seq<T>, i: nat, key: T -> K, isDupl: map<K, bool>)
    requires i < |s| && Marks(s[..i], key, isDupl)
    ensures Marks(s[..i + 1], key, Mark(isDupl, key(s[i])))
  {
    MarksStep(s[..i], s[i], key, isDupl);
    assert s[..i + 1] == s[..i] + [s[i]];
  }

  /** The elements of `s` whose key no other element shares, in their original order. */
  method FindUniquesBy<T, K(==)>(s: seq<T>, key: T -> K) returns (r: seq<T>)
    ensures r == Uniques(s, key)
  {
    var isDupl := MarkDuplicates(s, key);
    r := [];
    assert s[..0] == [];
    for i := 0 to |s|
      invariant r == Kept(s[..i], Single(s, key))
    {
      assert s[..i + 1] == s[..i] + [s[i]];
      KeptAppend(s[..i], [s[i]], Single(s, key));
      KeptSingleton(s[i], Single(s, key));
      assert key(s[i]) in isDupl;
      assert KeyCount(s, key, key(s[i])) >= 1;
      assert !isDupl[key(s[i])] <==> Single(s, key)(s[i]);
      if !isDupl[key(s[i])] {
        r := r + [s[i]];
      }
    }
    assert s[..|s|] == s;
  }

  /** The elements of `s` that occur exactly once, in their original order. */
  method FindUniques<T(==)>(s: seq<T>) returns (r: seq<T>)
    ensures forall i :: 0 <= i < |r| ==> multiset(s)[r[i]] == 1
    ensures forall i :: 0 <= i < |s| && multiset(s)[s[i]] == 1 ==> s[i] in r
    ensures r == Uniques(s, Id)
  {
    r := FindUniquesBy(s, Id);
    IdKeyCount(s);
  }

  /** With the identity projection a key's count is the element's multiplicity. */
  lemma {:induction false} IdKeyCount<T>(s: seq<T>)
    ensures forall x :: KeyCount(s, Id, x) == multiset(s)[x]
  {
    assert Mapped(s, Id) == s;
  }

  /** The state of the second pass before index `i`: a key is still marked true exactly
      when it is repeated in `s` and has not yet occurred. */
  ghost predicate Pending<T, K>(s: seq<T>, i: nat, key: T -> K, isDupl: map<K, bool>)
    requires i <= |s|
  {
    && (forall j :: 0 <= j < |s| ==> key(s[j]) in isDupl)
    && (forall k :: k in isDupl ==>
          (isDupl[k] <==> KeyCount(s, key, k) >= 2 && KeyCount(s[..i], key, k) == 0))
  }

  /** Clearing the mark of the key at `i` moves the second pass's state past `i`; when the
      mark is already false, the state moves past `i` unchanged. */
  lemma {:induction false} PendingStep<T, K>(s: seq<T>, i: nat, key: T -> K, isDupl: map<K, bool>)
    requires i < |s| && Pending(s, i, key, isDupl)
    ensures key(s[i]) in isDupl
    ensures isDupl[key(s[i])] <==> KeyCount(s, key, key(s[i])) >= 2 && KeyCount(s[..i], key, key(s[i])) == 0
    ensures Pending(s, i + 1, key, isDupl[key(s[i]) := false])
    ensures !isDupl[key(s[i])] ==> Pending(s, i + 1, key, isDupl)
  {
    var m := isDupl[key(s[i]) := false];
    forall k | k in m
      ensures m[k] <==> KeyCount(s, key, k) >= 2 && KeyCount(s[..i + 1], key, k) == 0
    {
      PrefixKeyCount(s, i, key, k);
    }
    if !isDupl[key(s[i])] {
      assert m == isDupl;
    }
  }

  /** For each key shared by two or more elements of `s`, the first element with that key,
      in first-occurrence order. */
  method FindDuplicatesBy<T, K(==)>(s: seq<T>, key: T -> K) returns (r: seq<T>)
    ensures r == Duplicates(s, key)
  {
    var isDupl := MarkDuplicates(s, key);
    assert s[..0] == [];
    r := [];
    for i := 0 to |s|
      invariant Pending(s, i, key, isDupl)
      invariant r == Kept(FirstByKey(s[..i], key), Repeated(s, key))
    {
      var k := key(s[i]);
      SecondPassStep(s, i, key);
      PendingStep(s, i, key, isDupl);
      if isDupl[k] {
        r := r + [s[i]];
        isDupl := isDupl[k := false];
      }
    }
    assert s[..|s|] == s;
  }

  /** Extending a prefix by one element raises that element's key count by one. */
  lemma {:induction false} PrefixKeyCount<T, K>(s: seq<T>, i: nat, key: T -> K, k: K)
    requires i < |s|
    ensures KeyCount(s[..i + 1], key, k) == KeyCount(s[..i], key, k) + (if key(s[i]) == k then 1 else 0)
  {
    assert s[..i + 1] == s[..i] + [s[i]];
    KeyCountSnoc(s[..i], s[i], key, k);
  }

  /** One step of the second pass: the element at `i` is reported exactly when its key is
      repeated in `s` and has not occurred before `i`. */
  lemma {:induction false} SecondPassStep<T, K>(s: seq<T>, i: nat, key: T -> K)
    requires i < |s|
    ensures Kept(FirstByKey(s[..i + 1], key), Repeated(s, key))
         == Kept(FirstByKey(s[..i], key), Repeated(s, key))
            + (if KeyCount(s, key, key(s[i])) >= 2 && KeyCount(s[..i], key, key(s[i])) == 0
               then [s[i]] else [])
  {
    assert s[..i + 1] == s[..i] + [s[i]];
    FirstByKeySnoc(s[..i], s[i], key);
    var step := if KeyCount(s[..i], key, key(s[i])) > 0 then [] else [s[i]];
    KeptAppend(FirstByKey(s[..i], key), step, Repeated(s, key));
    KeptSingleton(s[i], Repeated(s, key));
  }

  /** Each value occurring at least twice in `s`, once, in first-occurrence order. */
  method FindDuplicates<T(==)>(s: seq<T>) returns (r: seq<T>)
    ensures forall i :: 0 <= i < |r| ==> multiset(s)[r[i]] >= 2 && multiset(r)[r[i]] == 1
    ensures forall i :: 0 <= i < |s| && multiset(s)[s[i]] >= 2 ==> s[i] in r
    ensures r == Duplicates(s, Id)
  {
    r := FindDuplicatesBy(s, Id);
    var fb := FirstByKey(s, Id);
    IdKeyCount(s);
    IdKeyCount(fb);
    FirstByKeyKeys(s, Id);
    forall x
      ensures multiset(r)[x] == if multiset(s)[x] >= 2 then multiset(fb)[x] else 0
    {
      KeptCount(fb, Repeated(s, Id), x);
    }
  }

  /** FirstByKey holds exactly one element for each key of `s`. */
  lemma {:induction false} FirstByKeyKeys<T, K>(s: seq<T>, key: T -> K)
    ensures forall k :: KeyCount(FirstByKey(s, key), key, k) == if KeyCount(s, key, k) > 0 then 1 else 0
    decreases |s|
  {
    if |s| > 0 {
      var init := s[..|s| - 1];
      FirstByKeyKeys(init, key);
      assert s == init + [s[|s| - 1]];
      forall k
        ensures KeyCount(FirstByKey(s, key), key, k) == if KeyCount(s, key, k) > 0 then 1 else 0
      {
        FirstByKeyKeysStep(init, s[|s| - 1], key, k);
      }
    }
  }

  /** One step of FirstByKeyKeys: the count of `k` stays 0 or 1 as `x` is appended. */
  lemma {:induction false} FirstByKeyKeysStep<T, K>(init: seq<T>, x: T, key: T -> K, k: K)
    requires KeyCount(FirstByKey(init, key), key, k) == if KeyCount(init, key, k) > 0 then 1 else 0
    ensures KeyCount(FirstByKey(init + [x], key), key, k)
         == if KeyCount(init + [x], key, k) > 0 then 1 else 0
  {
    var fb := FirstByKey(init, key);
    FirstByKeySnoc(init, x, key);
    KeyCountSnoc(init, x, key, k);
    if KeyCount(init, key, key(x)) == 0 {
      KeyCountSnoc(fb, x, key, k);
    } else {
      assert fb + [] == fb;
    }
  }

  /** Filtering by a property of the key commutes with projecting to keys. */
  lemma {:induction false} KeptByKey<T, K>(t: seq<T>, f: T -> bool, key: T -> K, g: K -> bool)
    requires forall i :: 0 <= i < |t| ==> f(t[i]) == g(key(t[i]))
    ensures Mapped(Kept(t, f), key) == Kept(Mapped(t, key), g)
    decreases |t|
  {
    if |t| > 0 {
      KeptByKey(t[1..], f, key, g);
      var head := if f(t[0]) then [t[0]] else [];
      MappedAppend(head, Kept(t[1..], f), key);
      assert Mapped(t, key)[1..] == Mapped(t[1..], key);
      assert Mapped(head, key) == if g(key(t[0])) then [key(t[0])] else [];
    }
  }

  /** FindUniquesBy keeps one element for every key occurring once in `s`, and nothing
      for any other key. */
  lemma {:induction false} UniquesByKeys<T, K>(s: seq<T>, key: T -> K)
    ensures forall k :: KeyCount(Uniques(s, key), key, k) == if KeyCount(s, key, k) == 1 then 1 else 0
  {
    KeptByKey(s, Single(s, key), key, SingleKey(s, key));
    forall k
      ensures KeyCount(Uniques(s, key), key, k) == if KeyCount(s, key, k) == 1 then 1 else 0
    {
      KeptCount(Mapped(s, key), SingleKey(s, key), k);
    }
  }

  /** FindDuplicatesBy keeps exactly one element for every key occurring at least twice in
      `s`, and nothing for any other key. */
  lemma {:induction false} DuplicatesByKeys<T, K>(s: seq<T>, key: T -> K)
    ensures forall k :: KeyCount(Duplicates(s, key), key, k) == if KeyCount(s, key, k) >= 2 then 1 else 0
  {
    var fb := FirstByKey(s, key);
    FirstByKeyKeys(s, key);
    KeptByKey(fb, Repeated(s, key), key, RepeatedKey(s, key));
    forall k
      ensures KeyCount(Duplicates(s, key), key, k) == if KeyCount(s, key, k) >= 2 then 1 else 0
    {
      KeptCount(Mapped(fb, key), RepeatedKey(s, key), k);
    }
  }

  /** Every key of `s` is represented exactly once across the two results, and no other key
      appears in either: uniques and duplicates partition the keys of `s`. */
  lemma {:induction false} UniquesDuplicatesPartition<T, K>(s: seq<T>, key: T -> K)
    ensures forall k :: KeyCount(Uniques(s, key), key, k) + KeyCount(Duplicates(s, key), key, k)
                        == if KeyCount(s, key, k) > 0 then 1 else 0
  {
    UniquesByKeys(s, key);
    DuplicatesByKeys(s, key);
  }

  /** Applying FindUniquesBy to its own result changes nothing. */
  lemma {:induction false} UniquesIdempotent<T, K>(s: seq<T>, key: T -> K)
    ensures Uniques(Uniques(s, key), key) == Uniques(s, key)
  {
    var u := Uniques(s, key);
    UniquesByKeys(s, key);
    forall i | 0 <= i < |u|
      ensures Single(u, key)(u[i])
    {
      var k := key(u[i]);
      assert Single(s, key)(u[i]);
      assert KeyCount(s, key, k) == 1;
      assert KeyCount(u, key, k) == 1;
    }
    KeptAll(u, Single(u, key));
  }

  /** No two elements of `s` share a key. */
  ghost predicate DistinctKeys<T, K>(s: seq<T>, key: T -> K) {
    forall i, j :: 0 <= i < j < |s| ==> key(s[i]) != key(s[j])
  }

  /** With pairwise distinct keys, no key is counted more than once. */
  lemma {:induction false} DistinctKeyCount<T, K>(s: seq<T>, key: T -> K, k: K)
    requires DistinctKeys(s, key)
    ensures KeyCount(s, key, k) <= 1
    decreases |s|
  {
    if |s| > 0 {
      var init, x := s[..|s| - 1], s[|s| - 1];
      assert s == init + [x];
      assert DistinctKeys(init, key) by {
        assert forall i :: 0 <= i < |init| ==> init[i] == s[i];
      }
      DistinctKeyCount(init, key, k);
      KeyCountSnoc(init, x, key, k);
      if key(x) == k {
        assert forall i :: 0 <= i < |init| ==> Mapped(init, key)[i] == key(s[i]) != k;
        assert k !in Mapped(init, key);
      }
    }
  }

  /** When no key repeats, FindUniquesBy returns its whole input and FindDuplicatesBy
      returns nothing. */
  lemma {:induction false} DistinctKeysUniques<T, K>(s: seq<T>, key: T -> K)
    requires DistinctKeys(s, key)
    ensures Uniques(s, key) == s
    ensures Duplicates(s, key) == []
  {
    forall i | 0 <= i < |s|
      ensures Single(s, key)(s[i])
    {
      DistinctKeyCount(s, key, key(s[i]));
      assert Mapped(s, key)[i] == key(s[i]);
    }
    KeptAll(s, Single(s, key));
    var fb := FirstByKey(s, key);
    forall i | 0 <= i < |fb|
      ensures !Repeated(s, key)(fb[i])
    {
      DistinctKeyCount(s, key, key(fb[i]));
    }
    KeptNone(fb, Repeated(s, key));
  }

  /** When every key of `s` repeats, FindUniquesBy returns nothing. */
  lemma {:induction false} RepeatedKeysNoUniques<T, K>(s: seq<T>, key: T -> K)
    requires forall i :: 0 <= i < |s| ==> KeyCount(s, key, key(s[i])) >= 2
    ensures Uniques(s, key) == []
  {
    KeptNone(s, Single(s, key));
  }
}
