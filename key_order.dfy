/**
 * The order of the sorted key list: `strcmp` on C strings (by unsigned
 * byte value, a proper prefix first), the ascending lists keyListInsert
 * keeps, and, as functions on the sequence of keys, where keyListInsert
 * links a new key in and what keyListDelete leaves.
 */
module KeyOrder {

  /** The sign of `strcmp(a, b)`: -1, 0 or 1. */
  function StrCmp(a: string, b: string): (r: int)
    ensures -1 <= r <= 1
    ensures r == 0 <==> a == b
    decreases |a|
  {
    if a == [] then (if b == [] then 0 else -1)
    else if b == [] then 1
    else if a[0] < b[0] then -1
    else if a[0] > b[0] then 1
    else
      assert a == [a[0]] + a[1..] && b == [b[0]] + b[1..];
      StrCmp(a[1..], b[1..])
  }

  /** `strcmp` decides by the first position where the strings differ. */
  lemma {:induction false} StrCmpFirstDifference(a: string, b: string, k: nat)
    requires k < |a| && k < |b| && a[..k] == b[..k] && a[k] != b[k]
    ensures StrCmp(a, b) == if a[k] < b[k] then -1 else 1
    decreases k
  {
    if k > 0 {
      assert a[0] == a[..k][0] == b[..k][0] == b[0];
      assert a[1..][..k - 1] == a[1..k] == a[..k][1..] == b[..k][1..] == b[1..k] == b[1..][..k - 1];
      StrCmpFirstDifference(a[1..], b[1..], k - 1);
    }
  }

  /** A proper prefix comes first ("richar" before "richard"). */
  lemma {:induction false} StrCmpProperPrefix(a: string, b: string)
    requires |a| < |b| && a == b[..|a|]
    ensures StrCmp(a, b) == -1
    decreases |a|
  {
    if a != [] {
      assert a[0] == b[0];
      assert a[1..] == b[1..][..|a| - 1];
      StrCmpProperPrefix(a[1..], b[1..]);
    }
  }

  /** Swapping the operands of `strcmp` flips the sign. */
  lemma {:induction false} StrCmpAntisymmetric(a: string, b: string)
    ensures StrCmp(a, b) == -StrCmp(b, a)
    decreases |a|
  {
    if a != [] && b != [] && a[0] == b[0] {
      StrCmpAntisymmetric(a[1..], b[1..]);
    }
  }

  /** The `strcmp` order is transitive. */
  lemma {:induction false} StrCmpTransitive(a: string, b: string, c: string)
    requires StrCmp(a, b) < 0 && StrCmp(b, c) < 0
    ensures StrCmp(a, c) < 0
    decreases |a|
  {
    if a != [] && b != [] && c != [] && a[0] == b[0] == c[0] {
      StrCmpTransitive(a[1..], b[1..], c[1..]);
    }
  }

  /** Strictly ascending under strcmp, hence without duplicates. */
  predicate Sorted(s: seq<string>)
  {
    forall i, j :: 0 <= i < j < |s| ==> StrCmp(s[i], s[j]) < 0
  }

  /** Where keyListInsert's loop stops: the first entry not less than the key. */
  function InsertPos(s: seq<string>, key: string): (k: nat)
    ensures k <= |s|
    ensures forall j :: 0 <= j < k ==> StrCmp(s[j], key) < 0
    ensures k < |s| ==> StrCmp(s[k], key) >= 0
  {
    if s == [] || StrCmp(s[0], key) >= 0 then 0 else 1 + InsertPos(s[1..], key)
  }

  /** InsertPos is the only position with smaller keys before it and none smaller at it. */
  lemma {:induction false} InsertPosUnique(s: seq<string>, key: string, k: nat)
    requires k <= |s|
    requires forall j :: 0 <= j < k ==> StrCmp(s[j], key) < 0
    requires k < |s| ==> StrCmp(s[k], key) >= 0
    ensures k == InsertPos(s, key)
  {
  }

  /** The keys after keyListInsert: the key linked in at InsertPos. */
  function SortedInsert(s: seq<string>, key: string): (r: seq<string>)
    ensures |r| == |s| + 1
    ensures forall x :: x in r <==> x in s || x == key
  {
    var k := InsertPos(s, key);
    assert s == s[..k] + s[k..];
    s[..k] + [key] + s[k..]
  }

  /** The first position holding the key, |s| if there is none. */
  function IndexOf(s: seq<string>, key: string): (i: nat)
    ensures i <= |s|
    ensures i < |s| ==> s[i] == key
    ensures forall j :: 0 <= j < i ==> s[j] != key
  {
    if s == [] then 0 else if s[0] == key then 0 else 1 + IndexOf(s[1..], key)
  }

  /** IndexOf is the only position holding the key with no earlier copy (|s| when there is none). */
  lemma {:induction false} IndexOfUnique(s: seq<string>, key: string, i: nat)
    requires i <= |s| && (i < |s| ==> s[i] == key)
    requires forall j :: 0 <= j < i ==> s[j] != key
    ensures i == IndexOf(s, key)
  {
  }

  /** The keys after the entry equal to the key (the first) is unlinked and the rest kept in order. */
  function Without(s: seq<string>, key: string): (r: seq<string>)
    ensures key in s ==> |r| == |s| - 1
    ensures forall x :: x in r ==> x in s
  {
    var i := IndexOf(s, key);
    if i == |s| then s
    else
      assert s == s[..i] + [s[i]] + s[i + 1..];
      s[..i] + s[i + 1..]
  }

  /**
   * The keys after keyListDelete as written: `prev` stays NULL, so a match
   * makes its successor the head and every entry before it is lost.
   */
  function DeleteAsWritten(s: seq<string>, key: string): (r: seq<string>)
    ensures key in s ==> |r| < |s| && r == s[|s| - |r|..]
    ensures forall x :: x in r ==> x in s
  {
    var i := IndexOf(s, key);
    if i == |s| then s
    else
      assert s == s[..i + 1] + s[i + 1..];
      s[i + 1..]
  }

  /** The entries of SortedInsert, position by position. */
  lemma {:induction false} SortedInsertIndices(s: seq<string>, key: string)
    ensures var k := InsertPos(s, key);
            && |SortedInsert(s, key)| == |s| + 1
            && SortedInsert(s, key)[k] == key
            && (forall j :: 0 <= j < k ==> SortedInsert(s, key)[j] == s[j])
            && (forall j :: k < j <= |s| ==> SortedInsert(s, key)[j] == s[j - 1])
  {
  }

  /** One entry of SortedInsert. */
  lemma {:induction false} SortedInsertEntry(s: seq<string>, key: string, j: int)
    requires 0 <= j <= |s|
    ensures var k := InsertPos(s, key);
            && |SortedInsert(s, key)| == |s| + 1
            && SortedInsert(s, key)[j] == if j < k then s[j] else if j == k then key else s[j - 1]
  {
    var k := InsertPos(s, key);
    var r := SortedInsert(s, key);
    var front, back := s[..k], s[k..];
    assert r == front + [key] + back;
    if j < k {
      assert r[j] == front[j];
    } else if j > k {
      assert r[j] == back[j - k - 1];
    }
  }

  /** One pair of positions of SortedInsert is in order. */
  lemma {:induction false} SortedInsertPair(s: seq<string>, key: string, i: int, j: int)
    requires Sorted(s) && key !in s
    requires 0 <= i < j < |s| + 1
    ensures |SortedInsert(s, key)| == |s| + 1
    ensures StrCmp(SortedInsert(s, key)[i], SortedInsert(s, key)[j]) < 0
  {
    var k := InsertPos(s, key);
    SortedInsertEntry(s, key, i);
    SortedInsertEntry(s, key, j);
    if j == k {
      assert StrCmp(s[i], key) < 0;
    } else if i == k {
      assert s[k] != key;
      assert StrCmp(s[k], key) > 0;
      StrCmpAntisymmetric(s[k], key);
      if j - 1 > k {
        assert StrCmp(s[k], s[j - 1]) < 0;
        StrCmpTransitive(key, s[k], s[j - 1]);
      }
    } else if j < k {
      assert StrCmp(s[i], s[j]) < 0;
    } else if i < k {
      assert StrCmp(s[i], s[j - 1]) < 0;
    } else {
      assert StrCmp(s[i - 1], s[j - 1]) < 0;
    }
  }

  /**
   * keyListInsert keeps the list ascending, adds exactly the key, and places
   * it before the first entry not less than it.
   */
  lemma {:induction false} SortedInsertKeepsSorted(s: seq<string>, key: string)
    requires Sorted(s) && key !in s
    ensures Sorted(SortedInsert(s, key))
    ensures multiset(SortedInsert(s, key)) == multiset(s) + multiset{key}
  {
    SortedInsertOrdered(s, key);
    SortedInsertMultiset(s, key);
  }

  /** Every pair of positions of SortedInsert is in order. */
  lemma {:induction false} SortedInsertOrdered(s: seq<string>, key: string)
    requires Sorted(s) && key !in s
    ensures Sorted(SortedInsert(s, key))
  {
    var r := SortedInsert(s, key);
    forall i, j | 0 <= i < j < |r|
      ensures StrCmp(r[i], r[j]) < 0
    {
      SortedInsertPair(s, key, i, j);
    }
  }

  /** SortedInsert adds exactly one copy of the key. */
  lemma {:induction false} SortedInsertMultiset(s: seq<string>, key: string)
    ensures multiset(SortedInsert(s, key)) == multiset(s) + multiset{key}
  {
    var k := InsertPos(s, key);
    calc {
      multiset(SortedInsert(s, key));
      multiset(s[..k]) + multiset{key} + multiset(s[k..]);
      { assert s == s[..k] + s[k..]; }
      multiset(s) + multiset{key};
    }
  }

  /** Where an entry of Without comes from in s. */
  lemma {:induction false} WithoutSource(s: seq<string>, key: string, a: int)
    requires 0 <= a < |Without(s, key)|
    ensures var i := IndexOf(s, key);
            Without(s, key)[a] == s[if a < i then a else a + 1]
  {
    var i := IndexOf(s, key);
    var r := Without(s, key);
    if i == |s| {
      assert r == s;
      assert a < i;
    } else {
      var front, back := s[..i], s[i + 1..];
      assert r == front + back;
      if a < i {
        assert r[a] == front[a];
      } else {
        assert r[a] == back[a - i];
      }
    }
  }

  /** In an ascending list the key occurs only at IndexOf. */
  lemma {:induction false} SortedOccursOnce(s: seq<string>, key: string, j: int)
    requires Sorted(s) && IndexOf(s, key) < j < |s|
    ensures s[j] != key
  {
    assert StrCmp(s[IndexOf(s, key)], s[j]) < 0;
  }

  /** Unlinking the matching entry keeps the list ascending. */
  lemma {:induction false} WithoutSorted(s: seq<string>, key: string)
    requires Sorted(s)
    ensures Sorted(Without(s, key))
  {
    var i := IndexOf(s, key);
    var r := Without(s, key);
    forall a, b | 0 <= a < b < |r|
      ensures StrCmp(r[a], r[b]) < 0
    {
      WithoutSource(s, key, a);
      WithoutSource(s, key, b);
      var a' := if a < i then a else a + 1;
      var b' := if b < i then b else b + 1;
      assert StrCmp(s[a'], s[b']) < 0;
    }
  }

  /** In an ascending list no copy of the key follows its first one. */
  lemma {:induction false} NoLaterCopy(s: seq<string>, key: string)
    requires Sorted(s) && IndexOf(s, key) < |s|
    ensures key !in s[IndexOf(s, key) + 1..]
  {
    var i := IndexOf(s, key);
    forall j | i < j < |s|
      ensures s[j] != key
    {
      SortedOccursOnce(s, key, j);
    }
  }

  /** Unlinking the matching entry takes exactly one copy of the key out (none when there is no match). */
  lemma {:induction false} WithoutMultiset(s: seq<string>, key: string)
    ensures multiset(Without(s, key)) == multiset(s) - multiset{key}
  {
    var i := IndexOf(s, key);
    var r := Without(s, key);
    if i == |s| {
      assert r == s;
      assert key !in s;
      assert multiset(s)[key] == 0;
    } else {
      var front, back := s[..i], s[i + 1..];
      assert r == front + back;
      assert s == front + [key] + back;
      assert multiset(s) == multiset(front) + multiset{key} + multiset(back);
      assert multiset(r) == multiset(front) + multiset(back);
    }
  }

  /** Unlinking the matching entry of an ascending list removes every copy of the key and nothing else. */
  lemma {:induction false} WithoutMembership(s: seq<string>, key: string)
    requires Sorted(s)
    ensures forall x :: x in Without(s, key) <==> x in s && x != key
  {
    var i := IndexOf(s, key);
    var r := Without(s, key);
    if i == |s| {
      assert r == s;
      assert key !in s;
    } else {
      var front, back := s[..i], s[i + 1..];
      assert r == front + back;
      assert s == front + [key] + back;
      assert key !in front;
      NoLaterCopy(s, key);
      assert key !in back;
      forall x
        ensures x in r <==> x in s && x != key
      {
        assert x in r <==> x in front || x in back;
        assert x in s <==> x in front || x == key || x in back;
      }
    }
  }

  /** Unlinking the matching entry keeps the list ascending and removes exactly that key. */
  lemma {:induction false} WithoutKeepsSorted(s: seq<string>, key: string)
    requires Sorted(s)
    ensures Sorted(Without(s, key))
    ensures multiset(Without(s, key)) == multiset(s) - multiset{key}
    ensures forall x :: x in Without(s, key) <==> x in s && x != key
  {
    WithoutSorted(s, key);
    WithoutMultiset(s, key);
    WithoutMembership(s, key);
  }

  /** While no entry matches, both deletes leave the list as it was. */
  lemma {:induction false} DeleteOfAbsentKey(s: seq<string>, key: string)
    requires key !in s
    ensures Without(s, key) == s && DeleteAsWritten(s, key) == s
  {
  }

  /**
   * The delete as written agrees with the intended one only when the match
   * is the head; a match further down loses all entries before it.
   */
  lemma {:induction false} DeleteAsWrittenLosesPredecessors(s: seq<string>, key: string)
    requires key in s
    ensures DeleteAsWritten(s, key) == Without(s, key) <==> IndexOf(s, key) == 0
    ensures |DeleteAsWritten(s, key)| == |s| - 1 - IndexOf(s, key)
  {
    var i := IndexOf(s, key);
    if i > 0 {
      assert |DeleteAsWritten(s, key)| < |Without(s, key)|;
    }
  }

  /** Deleting "b" from the list "a", "b" as written empties the list; the intended result is "a". */
  lemma DeleteAsWrittenCounterexample()
    ensures Sorted(["a", "b"])
    ensures DeleteAsWritten(["a", "b"], "b") == []
    ensures Without(["a", "b"], "b") == ["a"]
  {
    assert StrCmp("a", "b") == -1;
    assert IndexOf(["a", "b"], "b") == 1;
  }
}
