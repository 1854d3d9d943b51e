/**
 * List utilities over integer labels: Python's sorted() with duplicates
 * merged (numpy's union1d; on a duplicate-free list it is plain sorted()),
 * and dict(zip(keys, values)).
 */
module Lists {

  predicate StrictlyIncreasing(s: seq<int>) {
    forall i, j :: 0 <= i < j < |s| ==> s[i] < s[j]
  }

  predicate Distinct(s: seq<int>) {
    forall i, j :: 0 <= i < j < |s| ==> s[i] != s[j]
  }

  /** Puts x into its place in the ascending list s, unless it is already there. */
  function Insert(x: int, s: seq<int>): (r: seq<int>)
    requires StrictlyIncreasing(s)
    ensures forall y :: y in r <==> y == x || y in s
    ensures |r| == if x in s then |s| else |s| + 1
  {
    if s == [] then [x]
    else if x < s[0] then [x] + s
    else if x == s[0] then s
    else
      assert s == [s[0]] + s[1..];
      [s[0]] + Insert(x, s[1..])
  }

  /** Inserting keeps the list ascending. */
  lemma {:induction false} InsertIncreasing(x: int, s: seq<int>)
    requires StrictlyIncreasing(s)
    ensures StrictlyIncreasing(Insert(x, s))
  {
    if s != [] && x > s[0] {
      InsertIncreasing(x, s[1..]);
      var rest := Insert(x, s[1..]);
      assert forall y :: y in s[1..] ==> s[0] < y;
      assert forall j :: 0 <= j < |rest| ==> rest[j] in rest;
    }
  }

  /** The labels of s, each once, smallest first. */
  function SortedUnique(s: seq<int>): (r: seq<int>)
    ensures StrictlyIncreasing(r)
    ensures forall y :: y in r <==> y in s
    ensures Distinct(s) ==> |r| == |s|
  {
    if s == [] then []
    else
      var m := |s| - 1;
      assert forall y :: y in s <==> y in s[..m] || y == s[m];
      assert Distinct(s) ==> s[m] !in s[..m];
      InsertIncreasing(s[m], SortedUnique(s[..m]));
      Insert(s[m], SortedUnique(s[..m]))
  }

  /** a is s with some elements dropped and the rest kept in their order. */
  predicate Subsequence(a: seq<int>, s: seq<int>)
    decreases |s|
  {
    if a == [] then true
    else if s == [] then false
    else
      (a[|a| - 1] == s[|s| - 1] && Subsequence(a[..|a| - 1], s[..|s| - 1]))
      || Subsequence(a, s[..|s| - 1])
  }

  /** The position of x in s (the first, when x occurs more than once). */
  function IndexOf(s: seq<int>, x: int): (r: nat)
    requires x in s
    ensures r < |s| && s[r] == x
    ensures forall k :: 0 <= k < r ==> s[k] != x
  {
    if s[0] == x then 0 else 1 + IndexOf(s[1..], x)
  }

  /** The merged list is empty exactly when the input is. */
  lemma SortedUniqueEmpty(s: seq<int>)
    ensures |SortedUnique(s)| == 0 <==> |s| == 0
  {
    if |s| > 0 {
      assert s[0] in SortedUnique(s);
    }
  }

  /** dict(zip(keys, values)): a later key overwrites an earlier one. */
  function Zip<V>(keys: seq<int>, values: seq<V>): (r: map<int, V>)
    requires |values| == |keys|
    ensures forall x :: x in r <==> x in keys
  {
    if keys == [] then map[]
    else
      var m := |keys| - 1;
      assert forall x :: x in keys <==> x in keys[..m] || x == keys[m];
      Zip(keys[..m], values[..m])[keys[m] := values[m]]
  }

  /** With distinct keys, key i of the dictionary holds value i. */
  lemma {:induction false} ZipAt<V>(keys: seq<int>, values: seq<V>, i: nat)
    requires |values| == |keys| && Distinct(keys) && i < |keys|
    ensures Zip(keys, values)[keys[i]] == values[i]
  {
    var m := |keys| - 1;
    if i < m {
      ZipAt(keys[..m], values[..m], i);
    }
  }

  /** A duplicate-free list has as many members as entries. */
  lemma {:induction false} DistinctCardinality(s: seq<int>)
    requires Distinct(s)
    ensures |set x | x in s| == |s|
  {
    if s != [] {
      var m := |s| - 1;
      DistinctCardinality(s[..m]);
      assert (set x | x in s) == (set x | x in s[..m]) + {s[m]};
      assert s[m] !in (set x | x in s[..m]);
    }
  }
}
