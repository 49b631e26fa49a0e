/**
 * `unique_inverse`: the numpy-style "unique with inverse" encoder. It splits
 * an array into its distinct values, in first-occurrence order, and an index
 * array that rebuilds the input from them.
 */
module NumpyUtils {
  import opened Wrappers

  /** The three `std::invalid_argument` cases, in the order they are checked. */
  datatype InvalidArgument =
    | SizeMismatch        // the output index array's length differs from the input's
    | UniqueNotEmpty      // the output value list already holds something
    | InverseTypeTooSmall // the index type cannot represent |arr|

  /** Reference definition: the values of `s` with every repeat dropped. */
  function Dedup<T(==)>(s: seq<T>): seq<T>
  {
    if |s| == 0 then []
    else
      var d := Dedup(s[..|s| - 1]);
      if s[|s| - 1] in d then d else d + [s[|s| - 1]]
  }

  lemma {:induction false} DedupSameElements<T>(s: seq<T>)
    ensures forall x :: x in Dedup(s) <==> x in s
  {
    if |s| > 0 {
      var init := s[..|s| - 1];
      DedupSameElements(init);
      assert s == init + [s[|s| - 1]];
    }
  }

  lemma DedupMember<T>(s: seq<T>, x: T)
    requires x in Dedup(s)
    ensures x in s
  {
    DedupSameElements(s);
  }

  lemma {:induction false} DedupNoDuplicates<T>(s: seq<T>)
    ensures NoDuplicates(Dedup(s))
  {
    if |s| > 0 {
      DedupNoDuplicates(s[..|s| - 1]);
    }
  }

  lemma {:induction false} DedupNoLonger<T>(s: seq<T>)
    ensures |Dedup(s)| <= |s|
  {
    if |s| > 0 {
      DedupNoLonger(s[..|s| - 1]);
    }
  }

  /** Dedup keeps first occurrences in order: an earlier prefix's result is a prefix. */
  lemma {:induction false} DedupPrefix<T>(s: seq<T>, n: nat)
    requires n <= |s|
    ensures Dedup(s[..n]) <= Dedup(s)
    decreases |s| - n
  {
    if n < |s| {
      var init := s[..|s| - 1];
      assert init[..n] == s[..n];
      DedupPrefix(init, n);
    } else {
      assert s[..n] == s;
    }
  }

  /** True iff position `j` holds the first occurrence of its value in `s`. */
  predicate FirstSeenAt<T(==)>(s: seq<T>, j: nat)
    requires j < |s|
  {
    s[j] !in s[..j]
  }

  /** How many distinct values `s` holds before position `j`. */
  function DistinctBefore<T(==)>(s: seq<T>, j: nat): nat
    requires j <= |s|
  {
    |Dedup(s[..j])|
  }

  /** One more element either extends Dedup by itself or leaves it unchanged. */
  lemma DedupStep<T>(s: seq<T>, i: nat)
    requires i < |s|
    ensures Dedup(s[..i + 1]) == if s[i] in Dedup(s[..i]) then Dedup(s[..i]) else Dedup(s[..i]) + [s[i]]
  {
    assert s[..i + 1][..i] == s[..i];
  }

  /**
   * Models `unique_inverse(arr, unique, inverse)`: `unique` and `inverse`
   * are the caller's containers on entry, `inverseMax` stands for
   * `std::numeric_limits<inverseT>::max()`. The results are the containers
   * after the call.
   */
  method UniqueInverse<T(==)>(arr: seq<T>, unique: seq<T>, inverse: seq<nat>, inverseMax: nat)
    returns (outcome: Outcome<InvalidArgument>, unique': seq<T>, inverse': seq<nat>)
    // The three argument checks, in the order the source makes them.
    ensures |arr| != |inverse| ==> outcome == Fail(SizeMismatch)
    ensures |arr| == |inverse| && |unique| != 0 ==> outcome == Fail(UniqueNotEmpty)
    ensures |arr| == |inverse| && |unique| == 0 && inverseMax < |arr| ==> outcome == Fail(InverseTypeTooSmall)
    ensures outcome.Pass? <==> |arr| == |inverse| && |unique| == 0 && |arr| <= inverseMax
    // All checks precede the loop: an error leaves both containers untouched.
    ensures outcome.Fail? ==> unique' == unique && inverse' == inverse
    // Round trip: unique[inverse[i]] rebuilds arr[i].
    ensures outcome.Pass? ==> |inverse'| == |arr|
    ensures outcome.Pass? ==> forall i :: 0 <= i < |arr| ==> inverse'[i] < |unique'| && unique'[inverse'[i]] == arr[i]
    // unique holds each value of arr once, in first-occurrence order.
    ensures outcome.Pass? ==> unique' == Dedup(arr)
    ensures outcome.Pass? ==> NoDuplicates(unique') && |unique'| <= |arr|
    ensures outcome.Pass? ==> forall x :: x in unique' <==> x in arr
    // A value first seen at position i is given the next free index.
    ensures outcome.Pass? ==> forall i :: 0 <= i < |arr| && FirstSeenAt(arr, i) ==> inverse'[i] == DistinctBefore(arr, i)
    // Every index written fits in inverseT.
    ensures outcome.Pass? ==> forall i :: 0 <= i < |arr| ==> inverse'[i] <= i && inverse'[i] < inverseMax
  {
    unique' := unique;
    inverse' := inverse;
    if |arr| != |inverse| {
      return Fail(SizeMismatch), unique', inverse';
    }
    if |unique| != 0 {
      return Fail(UniqueNotEmpty), unique', inverse';
    }
    if inverseMax < |arr| {
      return Fail(InverseTypeTooSmall), unique', inverse';
    }
    outcome := Pass;
    unique', inverse' := Encode(arr, inverse);
    DedupSameElements(arr);
    DedupNoDuplicates(arr);
    DedupNoLonger(arr);
  }

  /** Positions before `i` are rebuilt by `unique[inverse[j]]`, with `inverse[j] <= j`. */
  predicate Rebuilds<T(==)>(arr: seq<T>, i: nat, unique: seq<T>, inverse: seq<nat>)
    requires i <= |arr| == |inverse|
  {
    forall j :: 0 <= j < i ==> inverse[j] <= j && inverse[j] < |unique| && unique[inverse[j]] == arr[j]
  }

  /** Every first occurrence before `i` was given the count of distinct values before it. */
  predicate NumbersFirstOccurrences<T(==)>(arr: seq<T>, i: nat, inverse: seq<nat>)
    requires i <= |arr| == |inverse|
  {
    forall j :: 0 <= j < i && FirstSeenAt(arr, j) ==> inverse[j] == DistinctBefore(arr, j)
  }

  /** The value-to-index map holds exactly the values of `unique`, each under its position. */
  predicate IndexesUnique<T(==)>(valueToIndex: map<T, nat>, unique: seq<T>)
  {
    && valueToIndex.Keys == (set k | 0 <= k < |unique| :: unique[k])
    && forall k :: 0 <= k < |unique| ==> valueToIndex[unique[k]] == k
  }

  /** Looking a value up in the map: found iff it is in `unique`, and then under its position. */
  lemma IndexesLookup<T>(valueToIndex: map<T, nat>, unique: seq<T>, x: T)
    requires IndexesUnique(valueToIndex, unique)
    ensures x in valueToIndex <==> x in unique
    ensures x in valueToIndex ==> valueToIndex[x] < |unique| && unique[valueToIndex[x]] == x
  {
    if x in unique {
      var k :| 0 <= k < |unique| && unique[k] == x;
      assert x in valueToIndex.Keys;
    }
    if x in valueToIndex {
      assert x in (set k | 0 <= k < |unique| :: unique[k]);
      var k :| 0 <= k < |unique| && unique[k] == x;
      assert valueToIndex[x] == k;
    }
  }

  /** Appending a value not yet in `unique` under the next index keeps the map exact. */
  lemma IndexesAppend<T>(valueToIndex: map<T, nat>, unique: seq<T>, x: T)
    requires IndexesUnique(valueToIndex, unique) && x !in unique
    ensures IndexesUnique(valueToIndex[x := |unique|], unique + [x])
  {
    var m, u := valueToIndex[x := |unique|], unique + [x];
    forall y
      ensures y in m.Keys <==> y in (set k | 0 <= k < |u| :: u[k])
    {
      IndexesLookup(valueToIndex, unique, y);
      if y in (set k | 0 <= k < |u| :: u[k]) {
        var k :| 0 <= k < |u| && u[k] == y;
        if k < |unique| {
          assert unique[k] == y;
        }
      }
      if y in unique {
        var k :| 0 <= k < |unique| && unique[k] == y;
        assert u[k] == y;
      }
      if y == x {
        assert u[|unique|] == x;
      }
    }
    forall k | 0 <= k < |u|
      ensures m[u[k]] == k
    {
      if k < |unique| {
        assert u[k] == unique[k] && unique[k] != x;
      }
    }
  }

  /** The state of the dedup loop after `i` elements of `arr`. */
  predicate LoopState<T(==)>(arr: seq<T>, i: nat, unique: seq<T>, inverse: seq<nat>, valueToIndex: map<T, nat>)
  {
    && i <= |arr| == |inverse|
    && unique == Dedup(arr[..i])
    && |unique| <= i
    && IndexesUnique(valueToIndex, unique)
    && Rebuilds(arr, i, unique, inverse)
    && NumbersFirstOccurrences(arr, i, inverse)
  }

  /** Writing an index that rebuilds position `i`, into a `unique` that only grew, extends the round trip. */
  lemma RebuildsStep<T>(arr: seq<T>, i: nat, unique: seq<T>, u: seq<T>, inverse: seq<nat>, k: nat)
    requires i < |arr| == |inverse| && Rebuilds(arr, i, unique, inverse)
    requires unique <= u && k <= i && k < |u| && u[k] == arr[i]
    ensures Rebuilds(arr, i + 1, u, inverse[i := k])
  {
    var inv := inverse[i := k];
    forall j | 0 <= j < i + 1
      ensures inv[j] <= j && inv[j] < |u| && u[inv[j]] == arr[j]
    {
      if j < i {
        assert inv[j] == inverse[j];
        assert u[inverse[j]] == unique[inverse[j]];
      }
    }
  }

  /** Writing position `i`, if it is a first occurrence with its distinct count, extends the numbering. */
  lemma NumbersStep<T>(arr: seq<T>, i: nat, inverse: seq<nat>, k: nat)
    requires i < |arr| == |inverse| && NumbersFirstOccurrences(arr, i, inverse)
    requires FirstSeenAt(arr, i) ==> k == DistinctBefore(arr, i)
    ensures NumbersFirstOccurrences(arr, i + 1, inverse[i := k])
  {
    var inv := inverse[i := k];
    forall j | 0 <= j < i + 1 && FirstSeenAt(arr, j)
      ensures inv[j] == DistinctBefore(arr, j)
    {
      if j < i {
        assert inv[j] == inverse[j];
      }
    }
  }

  /** A value not yet in the map is appended to `unique` and numbered with the next free index. */
  lemma EncodeStepNew<T>(arr: seq<T>, i: nat, unique: seq<T>, inverse: seq<nat>, valueToIndex: map<T, nat>)
    requires i < |arr| && LoopState(arr, i, unique, inverse, valueToIndex)
    requires arr[i] !in valueToIndex
    ensures LoopState(arr, i + 1, unique + [arr[i]], inverse[i := |unique|], valueToIndex[arr[i] := |unique|])
  {
    IndexesLookup(valueToIndex, unique, arr[i]);
    DedupStep(arr, i);
    IndexesAppend(valueToIndex, unique, arr[i]);
    RebuildsStep(arr, i, unique, unique + [arr[i]], inverse, |unique|);
    NumbersStep(arr, i, inverse, |unique|);
  }

  /** A value already in the map reuses its index and leaves `unique` unchanged. */
  lemma EncodeStepOld<T>(arr: seq<T>, i: nat, unique: seq<T>, inverse: seq<nat>, valueToIndex: map<T, nat>)
    requires i < |arr| && LoopState(arr, i, unique, inverse, valueToIndex)
    requires arr[i] in valueToIndex
    ensures LoopState(arr, i + 1, unique, inverse[i := valueToIndex[arr[i]]], valueToIndex)
  {
    IndexesLookup(valueToIndex, unique, arr[i]);
    DedupStep(arr, i);
    DedupMember(arr[..i], arr[i]);
    assert !FirstSeenAt(arr, i);
    var k := valueToIndex[arr[i]];
    RebuildsStep(arr, i, unique, unique, inverse, k);
    NumbersStep(arr, i, inverse, k);
  }

  /** The dedup loop of `unique_inverse`, run once the argument checks have passed. */
  method Encode<T(==)>(arr: seq<T>, inverse: seq<nat>) returns (unique': seq<T>, inverse': seq<nat>)
    requires |inverse| == |arr|
    ensures |inverse'| == |arr|
    ensures unique' == Dedup(arr)
    ensures forall i :: 0 <= i < |arr| ==> inverse'[i] <= i && inverse'[i] < |unique'| && unique'[inverse'[i]] == arr[i]
    ensures forall i :: 0 <= i < |arr| && FirstSeenAt(arr, i) ==> inverse'[i] == DistinctBefore(arr, i)
  {
    unique' := [];
    inverse' := inverse;
    // Position in unique' of each distinct value seen so far.
    var valueToIndex: map<T, nat> := map[];
    var i := 0;
    while i < |arr|
      decreases |arr| - i
      invariant LoopState(arr, i, unique', inverse', valueToIndex)
    {
      var value := arr[i];
      if value !in valueToIndex {
        EncodeStepNew(arr, i, unique', inverse', valueToIndex);
        valueToIndex := valueToIndex[value := |unique'|];
        inverse' := inverse'[i := |unique'|];
        unique' := unique' + [value];
      } else {
        EncodeStepOld(arr, i, unique', inverse', valueToIndex);
        inverse' := inverse'[i := valueToIndex[value]];
      }
      i := i + 1;
    }
    assert arr[..|arr|] == arr;
  }

  /** The indices of unique are dense: every entry of unique is used by some position. */
  lemma {:induction false} DedupEveryEntryUsed<T>(arr: seq<T>, k: nat)
    requires k < |Dedup(arr)|
    ensures exists i :: 0 <= i < |arr| && arr[i] == Dedup(arr)[k]
  {
    var x := Dedup(arr)[k];
    DedupMember(arr, x);
    var i :| 0 <= i < |arr| && arr[i] == x;
  }

  /** First-occurrence order: an entry of unique appears in arr before any later entry does. */
  lemma {:induction false} DedupFirstOccurrenceOrder<T>(arr: seq<T>, n: nat, k: nat)
    requires n <= |arr| && k < |Dedup(arr)|
    requires Dedup(arr)[k] in arr[..n]
    ensures forall j :: 0 <= j < k ==> Dedup(arr)[j] in arr[..n]
  {
    DedupPrefix(arr, n);
    DedupSameElements(arr[..n]);
    var p := Dedup(arr[..n]);
    DedupNoDuplicates(arr);
    // Dedup(arr)[k] is in p, and p is a duplicate-free prefix, so k < |p|.
    assert Dedup(arr)[k] in p;
    var m :| 0 <= m < |p| && p[m] == Dedup(arr)[k];
    assert Dedup(arr)[m] == p[m];
    assert m == k;
    forall j | 0 <= j < k
      ensures Dedup(arr)[j] in arr[..n]
    {
      assert j < |p|;
      assert Dedup(arr)[j] == p[j];
      assert p[j] in p;
      DedupMember(arr[..n], p[j]);
    }
  }
}
