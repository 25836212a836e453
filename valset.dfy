/** Canonical order of a validator set: ascending by the numeric key of each
    validator's address, the order in which aggregate signatures are made. */
module ValSet {
  import opened MonitorTypes

  predicate AllAddressesParse(s: seq<ValidatorWithBlsKey>, addressKey: AddressKey)
  {
    forall i :: 0 <= i < |s| ==> addressKey(s[i].validatorAddress).Some?
  }

  function Key(v: ValidatorWithBlsKey, addressKey: AddressKey): (k: uint64)
    requires addressKey(v.validatorAddress).Some?
  {
    addressKey(v.validatorAddress).value
  }

  /** Every pair of validators is in non-decreasing key order (so every
      validator of a set with two or more members has a key). */
  predicate SortedByKey(s: seq<ValidatorWithBlsKey>, addressKey: AddressKey)
  {
    forall i, j :: 0 <= i < j < |s| ==>
      addressKey(s[i].validatorAddress).Some? && addressKey(s[j].validatorAddress).Some? &&
      Key(s[i], addressKey) <= Key(s[j], addressKey)
  }

  /** The keys of a validator set, in its order. */
  function KeysOf(s: seq<ValidatorWithBlsKey>, addressKey: AddressKey): (keys: seq<uint64>)
    requires AllAddressesParse(s, addressKey)
    ensures |keys| == |s|
    ensures forall i :: 0 <= i < |s| ==> keys[i] == Key(s[i], addressKey)
  {
    if s == [] then [] else [Key(s[0], addressKey)] + KeysOf(s[1..], addressKey)
  }

  predicate Ascending(xs: seq<uint64>)
  {
    forall i, j :: 0 <= i < j < |xs| ==> xs[i] <= xs[j]
  }

  /** Sorts the validator set in place by address key. The source sorts with
      an unstable sort, so validators with equal keys end up in an unspecified
      relative order; the caller must supply parseable addresses whenever there
      are at least two validators, because the comparison panics otherwise. */
  method GetSortedValSet(valSet: array<ValidatorWithBlsKey>, addressKey: AddressKey)
    requires valSet.Length <= 1 || AllAddressesParse(valSet[..], addressKey)
    modifies valSet
    ensures SortedByKey(valSet[..], addressKey)
    ensures multiset(valSet[..]) == multiset(old(valSet[..]))
  {
    if valSet.Length <= 1 {
      return;
    }
    var i := 1;
    while i < valSet.Length
      invariant 1 <= i <= valSet.Length
      invariant AllAddressesParse(valSet[..], addressKey)
      invariant forall k, l :: 0 <= k < l < i ==> Key(valSet[k], addressKey) <= Key(valSet[l], addressKey)
      invariant multiset(valSet[..]) == multiset(old(valSet[..]))
    {
      Insert(valSet, i, addressKey);
      i := i + 1;
    }
  }

  /** One insertion-sort pass: moves valSet[i] left past every larger key, so
      that the prefix of length i + 1 becomes sorted. */
  method Insert(valSet: array<ValidatorWithBlsKey>, i: nat, addressKey: AddressKey)
    requires i < valSet.Length
    requires AllAddressesParse(valSet[..], addressKey)
    requires forall k, l :: 0 <= k < l < i ==> Key(valSet[k], addressKey) <= Key(valSet[l], addressKey)
    modifies valSet
    ensures AllAddressesParse(valSet[..], addressKey)
    ensures forall k, l :: 0 <= k < l <= i ==> Key(valSet[k], addressKey) <= Key(valSet[l], addressKey)
    ensures multiset(valSet[..]) == multiset(old(valSet[..]))
  {
    var j := i;
    while j > 0 && Key(valSet[j - 1], addressKey) > Key(valSet[j], addressKey)
      invariant 0 <= j <= i
      invariant AllAddressesParse(valSet[..], addressKey)
      invariant forall k, l :: 0 <= k < l <= i && k != j && l != j ==>
        Key(valSet[k], addressKey) <= Key(valSet[l], addressKey)
      invariant forall l :: j < l <= i ==> Key(valSet[j], addressKey) <= Key(valSet[l], addressKey)
      invariant multiset(valSet[..]) == multiset(old(valSet[..]))
    {
      Swap(valSet, j - 1, j);
      j := j - 1;
    }
  }

  method Swap(valSet: array<ValidatorWithBlsKey>, i: nat, j: nat)
    requires i < j < valSet.Length
    modifies valSet
    ensures valSet[i] == old(valSet[j]) && valSet[j] == old(valSet[i])
    ensures forall k :: 0 <= k < valSet.Length && k != i && k != j ==> valSet[k] == old(valSet[k])
    ensures multiset(valSet[..]) == multiset(old(valSet[..]))
  {
    valSet[i], valSet[j] := valSet[j], valSet[i];
  }

  // Canonicity: the sort determines the key sequence, and with distinct keys
  // the whole order.

  lemma KeysOfAppend(s: seq<ValidatorWithBlsKey>, t: seq<ValidatorWithBlsKey>, addressKey: AddressKey)
    requires AllAddressesParse(s, addressKey) && AllAddressesParse(t, addressKey)
    ensures AllAddressesParse(s + t, addressKey)
    ensures KeysOf(s + t, addressKey) == KeysOf(s, addressKey) + KeysOf(t, addressKey)
  {
  }

  /** The suffix and prefix of a parseable validator set are parseable. */
  lemma SlicesParse(t: seq<ValidatorWithBlsKey>, j: nat, addressKey: AddressKey)
    requires AllAddressesParse(t, addressKey)
    requires j <= |t|
    ensures AllAddressesParse(t[..j], addressKey) && AllAddressesParse(t[j..], addressKey)
  {
  }

  /** Dropping the validator at position j drops exactly its key. */
  lemma KeysOfRemove(t: seq<ValidatorWithBlsKey>, j: nat, addressKey: AddressKey)
    requires AllAddressesParse(t, addressKey)
    requires j < |t|
    ensures AllAddressesParse(t[..j] + t[j + 1..], addressKey)
    ensures multiset(KeysOf(t, addressKey))
         == multiset{Key(t[j], addressKey)} + multiset(KeysOf(t[..j] + t[j + 1..], addressKey))
  {
    var before, tail := t[..j], t[j..];
    SlicesParse(t, j, addressKey);
    SlicesParse(tail, 1, addressKey);
    var after := tail[1..];
    assert after == t[j + 1..];
    assert before + tail == t;
    KeysOfAppend(before, tail, addressKey);
    KeysOfAppend(before, after, addressKey);
    KeysOfCons(tail, addressKey);
    MultisetOfSplice(KeysOf(before, addressKey), Key(t[j], addressKey), KeysOf(after, addressKey));
  }

  lemma KeysOfCons(s: seq<ValidatorWithBlsKey>, addressKey: AddressKey)
    requires AllAddressesParse(s, addressKey)
    requires s != []
    ensures AllAddressesParse(s[1..], addressKey)
    ensures KeysOf(s, addressKey) == [Key(s[0], addressKey)] + KeysOf(s[1..], addressKey)
  {
  }

  lemma MultisetOfSplice(a: seq<uint64>, x: uint64, b: seq<uint64>)
    ensures multiset(a + ([x] + b)) == multiset{x} + multiset(a + b)
  {
  }

  /** Taking the same validator out of two permutations of each other leaves
      permutations of each other. */
  lemma RemoveFromPermutation(s: seq<ValidatorWithBlsKey>, t: seq<ValidatorWithBlsKey>, j: nat)
    requires multiset(s) == multiset(t)
    requires s != [] && j < |t| && t[j] == s[0]
    ensures multiset(s[1..]) == multiset(t[..j] + t[j + 1..])
  {
    var x, rest := s[0], t[..j] + t[j + 1..];
    assert t == t[..j] + [x] + t[j + 1..];
    assert s == [x] + s[1..];
    calc {
      multiset{x} + multiset(s[1..]);
      multiset(s);
      multiset(t);
      multiset(t[..j]) + multiset{x} + multiset(t[j + 1..]);
      multiset{x} + multiset(rest);
    }
    assert multiset(s[1..]) == (multiset{x} + multiset(s[1..])) - multiset{x};
    assert multiset(rest) == (multiset{x} + multiset(rest)) - multiset{x};
  }

  /** Permuting a validator set permutes its keys. */
  lemma {:induction false} PermutationKeepsKeys(s: seq<ValidatorWithBlsKey>, t: seq<ValidatorWithBlsKey>, addressKey: AddressKey)
    requires AllAddressesParse(s, addressKey)
    requires multiset(s) == multiset(t)
    ensures AllAddressesParse(t, addressKey)
    ensures multiset(KeysOf(s, addressKey)) == multiset(KeysOf(t, addressKey))
    decreases |s|
  {
    assert AllAddressesParse(t, addressKey) by {
      forall i | 0 <= i < |t| ensures addressKey(t[i].validatorAddress).Some? {
        assert t[i] in multiset(s);
      }
    }
    if s == [] {
      assert |multiset(t)| == 0;
    } else {
      var x := s[0];
      assert x in multiset(t);
      var j :| 0 <= j < |t| && t[j] == x;
      RemoveFromPermutation(s, t, j);
      SlicesParse(s, 1, addressKey);
      PermutationKeepsKeys(s[1..], t[..j] + t[j + 1..], addressKey);
      KeysOfRemove(t, j, addressKey);
      KeysOfCons(s, addressKey);
    }
  }

  /** Two ascending key sequences holding the same keys are equal. */
  lemma {:induction false} AscendingPermutationsAreEqual(xs: seq<uint64>, ys: seq<uint64>)
    requires Ascending(xs) && Ascending(ys)
    requires multiset(xs) == multiset(ys)
    ensures xs == ys
    decreases |xs|
  {
    if xs == [] {
      assert |multiset(ys)| == 0;
    } else {
      assert |ys| == |multiset(ys)|;
      assert xs[0] in multiset(ys);
      var j :| 0 <= j < |ys| && ys[j] == xs[0];
      assert ys[0] in multiset(xs);
      var i :| 0 <= i < |xs| && xs[i] == ys[0];
      assert xs[0] == ys[0];
      var x := xs[0];
      assert xs == [x] + xs[1..];
      assert ys == [x] + ys[1..];
      calc {
        multiset{x} + multiset(xs[1..]);
        multiset([x] + xs[1..]);
        multiset(ys);
        multiset{x} + multiset(ys[1..]);
      }
      assert multiset(xs[1..]) == (multiset{x} + multiset(xs[1..])) - multiset{x};
      assert multiset(ys[1..]) == (multiset{x} + multiset(ys[1..])) - multiset{x};
      AscendingPermutationsAreEqual(xs[1..], ys[1..]);
    }
  }

  /** Sorting is canonical up to validators with equal keys: any two sorted
      arrangements of the same validator set have the same key sequence. */
  lemma SortedPermutationsHaveSameKeys(s: seq<ValidatorWithBlsKey>, t: seq<ValidatorWithBlsKey>, addressKey: AddressKey)
    requires AllAddressesParse(s, addressKey)
    requires multiset(s) == multiset(t)
    requires SortedByKey(s, addressKey) && SortedByKey(t, addressKey)
    ensures AllAddressesParse(t, addressKey)
    ensures KeysOf(s, addressKey) == KeysOf(t, addressKey)
  {
    PermutationKeepsKeys(s, t, addressKey);
    AscendingPermutationsAreEqual(KeysOf(s, addressKey), KeysOf(t, addressKey));
  }

  /** When all keys in the set are distinct, the sorted order is unique:
      sorting the same set twice gives the same sequence. */
  lemma StrictlySortedIsUnique(s: seq<ValidatorWithBlsKey>, t: seq<ValidatorWithBlsKey>, addressKey: AddressKey)
    requires AllAddressesParse(s, addressKey)
    requires forall i, j :: 0 <= i < j < |s| ==> Key(s[i], addressKey) < Key(s[j], addressKey)
    requires multiset(s) == multiset(t)
    requires SortedByKey(t, addressKey)
    ensures s == t
  {
    SortedPermutationsHaveSameKeys(s, t, addressKey);
    var ks := KeysOf(s, addressKey);
    assert |t| == |s|;
    forall i | 0 <= i < |s| ensures s[i] == t[i] {
      assert t[i] in multiset(s);
      var k :| 0 <= k < |s| && s[k] == t[i];
      assert Key(s[k], addressKey) == ks[i] == Key(s[i], addressKey);
    }
  }
}
