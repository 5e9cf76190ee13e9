/**
 * The database facade of memdbc.c: a record store made of one trie tree of
 * the chosen family, a singly linked list of the stored keys kept in
 * ascending strcmp order, and a record counter.  The list nodes live in an
 * arena `entries`; `ptr` and `head` are arena indices (NULL = -1), and the
 * ghost `order` lists the indices from the head to the tail.
 */
module Database {
  import opened Values
  import opened Alphabet
  import opened TrieStore
  import opened TrieTree
  import opened KeyOrder

  /** `Key_t`: a key and the index of the next entry. */
  datatype KeyEntry = KeyEntry(key: string, ptr: int)

  /** The values of `memDbcErrorNum` the operations set. */
  datatype DbError = CallbackNull | RegexErr

  /** One line the traversals emit: `Key=k, Value=v` or `k,v` (a Record), or a callback's string. */
  datatype Line = Record(key: string, value: Option<Bytes>) | Text(s: string)

  /** A formatting callback: key and looked-up value in, a string or NULL out. */
  type Formatter = (string, Option<Bytes>) -> Option<string>

  /** `order` runs from `head` along the `ptr` links to NULL, without repeating an entry. */
  ghost predicate ListInv(entries: seq<KeyEntry>, head: int, order: seq<int>)
  {
    && (forall i :: 0 <= i < |order| ==> 0 <= order[i] < |entries|)
    && (forall i, j :: 0 <= i < j < |order| ==> order[i] != order[j])
    && head == (if order == [] then NULL else order[0])
    && (forall i :: 0 <= i < |order| ==> entries[order[i]].ptr == if i + 1 < |order| then order[i + 1] else NULL)
  }

  /** The keys of the list, from the head. */
  function KeysOf(entries: seq<KeyEntry>, order: seq<int>): seq<string>
  {
    seq(|order|, i requires 0 <= i < |order| => if 0 <= order[i] < |entries| then entries[order[i]].key else "")
  }

  /** Following one link of the list: entry i holds key i and points to entry i + 1 (NULL after the tail). */
  lemma {:induction false} ListStep(entries: seq<KeyEntry>, head: int, order: seq<int>, i: int)
    requires ListInv(entries, head, order) && 0 <= i < |order|
    ensures 0 <= order[i] < |entries| && order[i] != NULL
    ensures KeysOf(entries, order)[i] == entries[order[i]].key
    ensures entries[order[i]].ptr == if i + 1 < |order| then order[i + 1] else NULL
  {
  }

  /** Appending an entry to the arena leaves the list as it is. */
  lemma {:induction false} ListGrow(entries: seq<KeyEntry>, head: int, order: seq<int>, e: KeyEntry)
    requires ListInv(entries, head, order)
    ensures ListInv(entries + [e], head, order)
    ensures KeysOf(entries + [e], order) == KeysOf(entries, order)
  {
    var grown := entries + [e];
    forall i | 0 <= i < |order|
      ensures grown[order[i]] == entries[order[i]]
    {
      ListStep(entries, head, order, i);
    }
  }

  /** The list invariant, spelled out position by position. */
  lemma {:induction false} ListInvIntro(entries: seq<KeyEntry>, head: int, order: seq<int>)
    requires forall i, j :: 0 <= i < j < |order| ==> order[i] != order[j]
    requires head == (if order == [] then NULL else order[0])
    requires Chained(entries, order)
    ensures ListInv(entries, head, order)
  {
  }

  /** Each position j of order holds an entry that links to position j + 1 (NULL at the tail). */
  ghost predicate Chained(entries: seq<KeyEntry>, order: seq<int>)
  {
    forall j :: 0 <= j < |order| ==>
      0 <= order[j] < |entries| && entries[order[j]].ptr == if j + 1 < |order| then order[j + 1] else NULL
  }

  /** Two key sequences agree position by position. */
  lemma {:induction false} KeysOfIntro(entries: seq<KeyEntry>, order: seq<int>, keys: seq<string>)
    requires |keys| == |order|
    requires forall j :: 0 <= j < |order| ==> 0 <= order[j] < |entries| && entries[order[j]].key == keys[j]
    ensures KeysOf(entries, order) == keys
  {
  }

  /** Putting a fresh index t at position i of a list of distinct indices. */
  lemma {:induction false} InsertIndex(order: seq<int>, i: int, t: int)
    requires 0 <= i <= |order| && t !in order
    requires forall a, b :: 0 <= a < b < |order| ==> order[a] != order[b]
    ensures var o := order[..i] + [t] + order[i..];
            && |o| == |order| + 1
            && (forall j :: 0 <= j < |o| ==> o[j] == if j < i then order[j] else if j == i then t else order[j - 1])
            && (forall a, b :: 0 <= a < b < |o| ==> o[a] != o[b])
  {
    var o := order[..i] + [t] + order[i..];
    assert forall j :: 0 <= j < |o| ==> o[j] == if j < i then order[j] else if j == i then t else order[j - 1];
    forall a, b | 0 <= a < b < |o|
      ensures o[a] != o[b]
    {
      if a != i && b != i {
        var a' := if a < i then a else a - 1;
        var b' := if b < i then b else b - 1;
        assert o[a] == order[a'] && o[b] == order[b'];
      }
    }
  }

  /** Removing position i of a list of distinct indices. */
  lemma {:induction false} RemoveIndex(order: seq<int>, i: int)
    requires 0 <= i < |order|
    requires forall a, b :: 0 <= a < b < |order| ==> order[a] != order[b]
    ensures var o := order[..i] + order[i + 1..];
            && |o| == |order| - 1
            && (forall j :: 0 <= j < |o| ==> o[j] == if j < i then order[j] else order[j + 1])
            && (forall a, b :: 0 <= a < b < |o| ==> o[a] != o[b])
  {
    var o := order[..i] + order[i + 1..];
    assert forall j :: 0 <= j < |o| ==> o[j] == if j < i then order[j] else order[j + 1];
    forall a, b | 0 <= a < b < |o|
      ensures o[a] != o[b]
    {
      var a' := if a < i then a else a + 1;
      var b' := if b < i then b else b + 1;
      assert o[a] == order[a'] && o[b] == order[b'];
    }
  }

  /** The state after linking t in at position i (see LinkIn). */
  ghost predicate LinkedIn(entries: seq<KeyEntry>, head: int, order: seq<int>, i: int, t: int, linked: seq<KeyEntry>, newHead: int)
  {
    && ListInv(entries, head, order) && 0 <= i <= |order|
    && 0 <= t < |entries| && t !in order
    && (var e1 := entries[t := entries[t].(ptr := if i < |order| then order[i] else NULL)];
        linked == if i == 0 then e1 else e1[order[i - 1] := e1[order[i - 1]].(ptr := t)])
    && newHead == if i == 0 then t else head
  }

  /** One position j of the list after linking t in at position i. */
  lemma {:induction false} LinkedEntry(entries: seq<KeyEntry>, head: int, order: seq<int>, i: int, t: int,
                                       linked: seq<KeyEntry>, newHead: int, j: int)
    requires LinkedIn(entries, head, order, i, t, linked, newHead)
    requires 0 <= j <= |order|
    ensures var o := order[..i] + [t] + order[i..];
            && |o| == |order| + 1
            && o[j] == (if j < i then order[j] else if j == i then t else order[j - 1])
            && 0 <= o[j] < |linked|
            && linked[o[j]].key == (if j < i then KeysOf(entries, order)[j] else if j == i then entries[t].key
                                    else KeysOf(entries, order)[j - 1])
            && linked[o[j]].ptr == if j + 1 < |o| then o[j + 1] else NULL
  {
    var o := order[..i] + [t] + order[i..];
    assert o[j] == (if j < i then order[j] else if j == i then t else order[j - 1]);
    if j + 1 < |o| {
      assert o[j + 1] == (if j + 1 < i then order[j + 1] else if j + 1 == i then t else order[j]);
    }
    if j < i {
      ListStep(entries, head, order, j);
    } else if j > i {
      ListStep(entries, head, order, j - 1);
    }
    if i > 0 {
      ListStep(entries, head, order, i - 1);
    }
  }

  /**
   * Linking a new entry t (not yet in the list) in at position i: t points
   * to the old entry at i (NULL at the tail) and the predecessor, or the
   * head when i is 0, points to t.
   */
  lemma {:induction false} LinkIn(entries: seq<KeyEntry>, head: int, order: seq<int>, i: int, t: int, linked: seq<KeyEntry>, newHead: int)
    requires ListInv(entries, head, order) && 0 <= i <= |order|
    requires 0 <= t < |entries| && t !in order
    requires var e1 := entries[t := entries[t].(ptr := if i < |order| then order[i] else NULL)];
             linked == if i == 0 then e1 else e1[order[i - 1] := e1[order[i - 1]].(ptr := t)]
    requires newHead == if i == 0 then t else head
    ensures ListInv(linked, newHead, order[..i] + [t] + order[i..])
    ensures KeysOf(linked, order[..i] + [t] + order[i..]) ==
            KeysOf(entries, order)[..i] + [entries[t].key] + KeysOf(entries, order)[i..]
  {
    var o := order[..i] + [t] + order[i..];
    var keys := KeysOf(entries, order);
    var ks := keys[..i] + [entries[t].key] + keys[i..];
    InsertIndex(order, i, t);
    forall j | 0 <= j < |o|
      ensures 0 <= o[j] < |linked|
      ensures linked[o[j]].key == ks[j]
      ensures linked[o[j]].ptr == if j + 1 < |o| then o[j + 1] else NULL
    {
      LinkedEntry(entries, head, order, i, t, linked, newHead, j);
      assert ks[j] == if j < i then keys[j] else if j == i then entries[t].key else keys[j - 1];
    }
    ListInvIntro(linked, newHead, o);
    KeysOfIntro(linked, o, ks);
  }

  /**
   * The search loop of `keyListInsert`: walk from the head while the
   * entry's key is less than the key.  It stops at position i, the
   * insertion position, with prev the entry before it (NULL at the head)
   * and next the entry at it (NULL past the tail).
   */
  method SeekInsert(entries: seq<KeyEntry>, head: int, ghost order: seq<int>, key: string)
    returns (prev: int, next: int, ghost i: nat)
    requires ListInv(entries, head, order) && order != []
    ensures i == InsertPos(KeysOf(entries, order), key)
    ensures next == (if i < |order| then order[i] else NULL)
    ensures prev == (if i == 0 then NULL else order[i - 1])
  {
    ghost var keys := KeysOf(entries, order);
    prev, next := NULL, head;
    i := 0;
    ListStep(entries, head, order, 0);
    while next != NULL && StrCmp(entries[next].key, key) < 0
      invariant 0 <= i <= |order|
      invariant next == (if i < |order| then order[i] else NULL)
      invariant i < |order| ==> 0 <= next < |entries| && keys[i] == entries[next].key
      invariant prev == (if i == 0 then NULL else order[i - 1])
      invariant forall j :: 0 <= j < i ==> StrCmp(keys[j], key) < 0
      decreases |order| - i
    {
      ListStep(entries, head, order, i);
      prev := next;
      next := entries[next].ptr;
      i := i + 1;
      if i < |order| {
        ListStep(entries, head, order, i);
      }
    }
    InsertPosUnique(keys, key, i);
  }

  /** The arena after unlinking position i: its predecessor, if any, takes over its successor. */
  function Unlinked(entries: seq<KeyEntry>, order: seq<int>, i: int): seq<KeyEntry>
    requires 0 <= i < |order| && 0 <= order[i] < |entries| && (i > 0 ==> 0 <= order[i - 1] < |entries|)
  {
    if i == 0 then entries else entries[order[i - 1] := entries[order[i - 1]].(ptr := entries[order[i]].ptr)]
  }

  /** One position j of the list after unlinking position i. */
  lemma {:induction false} UnlinkedEntry(entries: seq<KeyEntry>, head: int, order: seq<int>, i: int, j: int)
    requires ListInv(entries, head, order) && 0 <= i < |order| && 0 <= j < |order| - 1
    ensures 0 <= order[i] < |entries| && (i > 0 ==> 0 <= order[i - 1] < |entries|)
    ensures var e := Unlinked(entries, order, i);
            var o := order[..i] + order[i + 1..];
            && |o| == |order| - 1
            && o[j] == (if j < i then order[j] else order[j + 1])
            && 0 <= o[j] < |e|
            && e[o[j]].key == KeysOf(entries, order)[if j < i then j else j + 1]
            && e[o[j]].ptr == if j + 1 < |o| then o[j + 1] else NULL
  {
    ListStep(entries, head, order, i);
    if i > 0 {
      ListStep(entries, head, order, i - 1);
    }
    var e := Unlinked(entries, order, i);
    var o := order[..i] + order[i + 1..];
    var front, back := order[..i], order[i + 1..];
    assert o == front + back;
    var src := if j < i then j else j + 1;
    assert o[j] == order[src];
    if j + 1 < |o| {
      assert o[j + 1] == order[if j + 1 < i then j + 1 else j + 2];
    }
    ListStep(entries, head, order, src);
    if i > 0 && src != i - 1 {
      assert order[src] != order[i - 1];
    }
  }

  /** Unlinking the entry at position i: its predecessor, or the head, takes over its successor. */
  lemma {:induction false} Unlink(entries: seq<KeyEntry>, head: int, order: seq<int>, i: int)
    requires ListInv(entries, head, order) && 0 <= i < |order|
    ensures (i > 0 ==> 0 <= order[i - 1] < |entries|) && 0 <= order[i] < |entries|
    ensures ListInv(Unlinked(entries, order, i), if i == 0 then entries[order[i]].ptr else head, order[..i] + order[i + 1..])
    ensures KeysOf(Unlinked(entries, order, i), order[..i] + order[i + 1..]) ==
            KeysOf(entries, order)[..i] + KeysOf(entries, order)[i + 1..]
  {
    UnlinkLinks(entries, head, order, i);
    UnlinkKeys(entries, head, order, i);
  }

  /** After unlinking position i the remaining indices still form a list. */
  lemma {:induction false} UnlinkLinks(entries: seq<KeyEntry>, head: int, order: seq<int>, i: int)
    requires ListInv(entries, head, order) && 0 <= i < |order|
    ensures (i > 0 ==> 0 <= order[i - 1] < |entries|) && 0 <= order[i] < |entries|
    ensures ListInv(Unlinked(entries, order, i), if i == 0 then entries[order[i]].ptr else head, order[..i] + order[i + 1..])
  {
    UnlinkedHead(entries, head, order, i);
    UnlinkedLinks(entries, head, order, i);
    RemoveIndex(order, i);
    ListInvIntro(Unlinked(entries, order, i), if i == 0 then entries[order[i]].ptr else head, order[..i] + order[i + 1..]);
  }

  /** After unlinking position i, the head is the first remaining index. */
  lemma {:induction false} UnlinkedHead(entries: seq<KeyEntry>, head: int, order: seq<int>, i: int)
    requires ListInv(entries, head, order) && 0 <= i < |order|
    ensures 0 <= order[i] < |entries|
    ensures var o := order[..i] + order[i + 1..];
            (if i == 0 then entries[order[i]].ptr else head) == if o == [] then NULL else o[0]
  {
    ListStep(entries, head, order, i);
    var o := order[..i] + order[i + 1..];
    if i == 0 {
      if 1 < |order| {
        assert o[0] == order[1];
      }
    } else {
      assert o[0] == order[0];
    }
  }

  /** After unlinking position i, each remaining entry links to the next remaining one. */
  lemma {:induction false} UnlinkedLinks(entries: seq<KeyEntry>, head: int, order: seq<int>, i: int)
    requires ListInv(entries, head, order) && 0 <= i < |order|
    ensures 0 <= order[i] < |entries| && (i > 0 ==> 0 <= order[i - 1] < |entries|)
    ensures Chained(Unlinked(entries, order, i), order[..i] + order[i + 1..])
  {
    ListStep(entries, head, order, i);
    if i > 0 {
      ListStep(entries, head, order, i - 1);
    }
    var e := Unlinked(entries, order, i);
    var o := order[..i] + order[i + 1..];
    forall j | 0 <= j < |o|
      ensures 0 <= o[j] < |e| && e[o[j]].ptr == if j + 1 < |o| then o[j + 1] else NULL
    {
      UnlinkedEntry(entries, head, order, i, j);
    }
    assert Chained(e, o);
  }

  /** After unlinking position i the list holds the other keys, in their order. */
  lemma {:induction false} UnlinkKeys(entries: seq<KeyEntry>, head: int, order: seq<int>, i: int)
    requires ListInv(entries, head, order) && 0 <= i < |order|
    ensures (i > 0 ==> 0 <= order[i - 1] < |entries|) && 0 <= order[i] < |entries|
    ensures KeysOf(Unlinked(entries, order, i), order[..i] + order[i + 1..]) ==
            KeysOf(entries, order)[..i] + KeysOf(entries, order)[i + 1..]
  {
    ListStep(entries, head, order, i);
    if i > 0 {
      ListStep(entries, head, order, i - 1);
    }
    var e := Unlinked(entries, order, i);
    var o := order[..i] + order[i + 1..];
    var keys := KeysOf(entries, order);
    var front, back := keys[..i], keys[i + 1..];
    var ks := front + back;
    forall j | 0 <= j < |o|
      ensures 0 <= o[j] < |e|
      ensures e[o[j]].key == ks[j]
    {
      UnlinkedEntry(entries, head, order, i, j);
      if j < i {
        assert ks[j] == front[j] == keys[j];
      } else {
        assert ks[j] == back[j - i] == keys[j + 1];
      }
    }
    KeysOfIntro(e, o, ks);
  }

  /** Making the successor of position i the head drops positions 0 to i. */
  lemma {:induction false} DropThrough(entries: seq<KeyEntry>, head: int, order: seq<int>, i: int)
    requires ListInv(entries, head, order) && 0 <= i < |order|
    ensures 0 <= order[i] < |entries|
    ensures ListInv(entries, entries[order[i]].ptr, order[i + 1..])
    ensures KeysOf(entries, order[i + 1..]) == KeysOf(entries, order)[i + 1..]
  {
    ListStep(entries, head, order, i);
    var o := order[i + 1..];
    var keys := KeysOf(entries, order);
    forall j | 0 <= j < |o|
      ensures o[j] == order[i + 1 + j]
      ensures 0 <= o[j] < |entries| && entries[o[j]].key == keys[i + 1..][j]
      ensures entries[o[j]].ptr == if j + 1 < |o| then o[j + 1] else NULL
    {
      ListStep(entries, head, order, i + 1 + j);
    }
    ListInvIntro(entries, entries[order[i]].ptr, o);
    KeysOfIntro(entries, o, keys[i + 1..]);
  }

  /**
   * The search loop of `keyListDelete` with the predecessor tracked: walk
   * from the head until the entry's key equals the key.  It stops at the
   * first such position i (|order| when there is none), with prev the entry
   * before it and next the entry at it (NULL past the tail).
   */
  method SeekKey(entries: seq<KeyEntry>, head: int, ghost order: seq<int>, key: string)
    returns (prev: int, next: int, ghost i: nat)
    requires ListInv(entries, head, order)
    ensures i == IndexOf(KeysOf(entries, order), key)
    ensures next == (if i < |order| then order[i] else NULL)
    ensures prev == (if i == 0 then NULL else order[i - 1])
  {
    ghost var keys := KeysOf(entries, order);
    prev, next := NULL, head;
    i := 0;
    while next != NULL
      invariant 0 <= i <= |order|
      invariant next == (if i < |order| then order[i] else NULL)
      invariant prev == (if i == 0 then NULL else order[i - 1])
      invariant forall j :: 0 <= j < i ==> keys[j] != key
      decreases |order| - i
    {
      ListStep(entries, head, order, i);
      if StrCmp(key, entries[next].key) == 0 {
        IndexOfUnique(keys, key, i);
        return;
      }
      prev := next;
      next := entries[next].ptr;
      i := i + 1;
    }
    IndexOfUnique(keys, key, i);
  }

  /**
   * The search loop of `keyListDelete` as written: `next` advances but
   * `prev` is never assigned, so it is NULL wherever the loop stops.
   */
  method SeekKeyAsWritten(entries: seq<KeyEntry>, head: int, ghost order: seq<int>, key: string)
    returns (prev: int, next: int, ghost i: nat)
    requires ListInv(entries, head, order)
    ensures i == IndexOf(KeysOf(entries, order), key)
    ensures next == (if i < |order| then order[i] else NULL)
    ensures prev == NULL
  {
    ghost var keys := KeysOf(entries, order);
    prev, next := NULL, head;
    i := 0;
    while next != NULL
      invariant 0 <= i <= |order|
      invariant next == (if i < |order| then order[i] else NULL)
      invariant prev == NULL
      invariant forall j :: 0 <= j < i ==> keys[j] != key
      decreases |order| - i
    {
      ListStep(entries, head, order, i);
      if StrCmp(key, entries[next].key) == 0 {
        IndexOfUnique(keys, key, i);
        return;
      }
      next := entries[next].ptr;
      i := i + 1;
    }
    IndexOfUnique(keys, key, i);
  }

  /**
   * The list and the trie agree: the list is ascending (so free of
   * duplicates), its keys are over the alphabet and found in the trie,
   * every key over the alphabet that the trie finds is in the list, and
   * recCount is at least the length of the list.
   */
  ghost predicate Consistent(v: Variant, nodes: seq<Node>, root: int, keys: seq<string>, recCount: nat)
  {
    && Sorted(keys)
    && (forall i :: 0 <= i < |keys| ==> ValidKey(v, keys[i]) && LookupKey(v, nodes, root, keys[i]).Some?)
    && (forall k :: ValidKey(v, k) && LookupKey(v, nodes, root, k).Some? ==> k in keys)
    && |keys| <= recCount
  }

  /** Each key of the list with the value its lookup yields, in list order. */
  function Visits(keys: seq<string>, v: Variant, nodes: seq<Node>, root: int): seq<(string, Option<Bytes>)>
  {
    seq(|keys|, i requires 0 <= i < |keys| => (keys[i], LookupKey(v, nodes, root, keys[i])))
  }

  /** The keys the pattern matches, in order. */
  function Filter(keys: seq<string>, matches: string -> bool): seq<string>
  {
    if keys == [] then []
    else Filter(keys[..|keys| - 1], matches) + (if matches(keys[|keys| - 1]) then [keys[|keys| - 1]] else [])
  }

  /** The lines a callback produces for the visits: one per non-NULL result. */
  function Emitted(visits: seq<(string, Option<Bytes>)>, callback: Formatter): seq<Line>
  {
    if visits == [] then []
    else
      var last := visits[|visits| - 1];
      Emitted(visits[..|visits| - 1], callback) +
      (match callback(last.0, last.1) case Some(s) => [Text(s)] case None => [])
  }

  /** One Record line per visit. */
  function Records(visits: seq<(string, Option<Bytes>)>): seq<Line>
  {
    seq(|visits|, i requires 0 <= i < |visits| => Record(visits[i].0, visits[i].1))
  }

  /** Filtering one more key of the list adds it when it matches. */
  lemma {:induction false} FilterStep(keys: seq<string>, i: int, matches: string -> bool)
    requires 0 <= i < |keys|
    ensures Filter(keys[..i + 1], matches) == Filter(keys[..i], matches) + (if matches(keys[i]) then [keys[i]] else [])
  {
    assert keys[..i + 1][..i] == keys[..i];
  }

  /** Visiting one more key adds its lookup. */
  lemma {:induction false} VisitsSnoc(keys: seq<string>, key: string, v: Variant, nodes: seq<Node>, root: int)
    ensures Visits(keys + [key], v, nodes, root) == Visits(keys, v, nodes, root) + [(key, LookupKey(v, nodes, root, key))]
  {
  }

  /** What keyListWalk prints for the visits: its heading, then their lines. */
  function WalkOutput(visits: seq<(string, Option<Bytes>)>, callback: Option<Formatter>): seq<Line>
  {
    [Text("Walking sorted list:")] + (if callback == None then Records(visits) else Emitted(visits, callback.value))
  }

  /** What keyListWalk prints for one visit. */
  function ShowLine(visit: (string, Option<Bytes>), callback: Option<Formatter>): seq<Line>
  {
    if callback == None then [Record(visit.0, visit.1)]
    else match callback.value(visit.0, visit.1) case Some(s) => [Text(s)] case None => []
  }

  /** keyListWalk's output for one more visit grows by that visit's line. */
  lemma {:induction false} WalkOutputSnoc(visits: seq<(string, Option<Bytes>)>, visit: (string, Option<Bytes>), callback: Option<Formatter>)
    ensures WalkOutput(visits + [visit], callback) == WalkOutput(visits, callback) + ShowLine(visit, callback)
  {
    assert (visits + [visit])[..|visits|] == visits;
    var heading := [Text("Walking sorted list:")];
    if callback == None {
      assert Records(visits + [visit]) == Records(visits) + [Record(visit.0, visit.1)];
      assert heading + (Records(visits) + [Record(visit.0, visit.1)]) == heading + Records(visits) + [Record(visit.0, visit.1)];
    } else {
      var tail := ShowLine(visit, callback);
      assert Emitted(visits + [visit], callback.value) == Emitted(visits, callback.value) + tail;
      assert heading + (Emitted(visits, callback.value) + tail) == heading + Emitted(visits, callback.value) + tail;
    }
  }

  /** What keyListSave writes to the file for the visits. */
  function Saved(visits: seq<(string, Option<Bytes>)>, fileName: Option<string>, callback: Option<Formatter>): seq<Line>
  {
    if callback == None then Records(visits)
    else if fileName.Some? then Emitted(visits, callback.value)
    else []
  }

  /** What keyListSave writes to the file for one visit. */
  function SaveLine(visit: (string, Option<Bytes>), fileName: Option<string>, callback: Option<Formatter>): seq<Line>
  {
    if callback == None then [Record(visit.0, visit.1)]
    else if fileName.None? then []
    else match callback.value(visit.0, visit.1) case Some(s) => [Text(s)] case None => []
  }

  /** keyListSave's output for one more visit grows by that visit's line. */
  lemma {:induction false} SavedSnoc(visits: seq<(string, Option<Bytes>)>, visit: (string, Option<Bytes>),
                                     fileName: Option<string>, callback: Option<Formatter>)
    ensures Saved(visits + [visit], fileName, callback) == Saved(visits, fileName, callback) + SaveLine(visit, fileName, callback)
  {
    assert (visits + [visit])[..|visits|] == visits;
    if callback == None {
      assert Records(visits + [visit]) == Records(visits) + [Record(visit.0, visit.1)];
    }
  }

  /** One iteration of keyListWalk: printing entry i's line extends the walk over the first i entries. */
  lemma {:induction false} WalkStep(keys: seq<string>, i: int, v: Variant, nodes: seq<Node>, root: int,
                                    callback: Option<Formatter>, before: seq<Line>, after: seq<Line>)
    requires 0 <= i < |keys|
    requires before == WalkOutput(Visits(keys[..i], v, nodes, root), callback)
    requires after == before + ShowLine((keys[i], LookupKey(v, nodes, root, keys[i])), callback)
    ensures after == WalkOutput(Visits(keys[..i + 1], v, nodes, root), callback)
  {
    assert keys[..i + 1] == keys[..i] + [keys[i]];
    VisitsSnoc(keys[..i], keys[i], v, nodes, root);
    WalkOutputSnoc(Visits(keys[..i], v, nodes, root), (keys[i], LookupKey(v, nodes, root, keys[i])), callback);
  }

  /** One iteration of keyListSave: writing entry i extends the file over the first i entries. */
  lemma {:induction false} SaveStep(keys: seq<string>, i: int, v: Variant, nodes: seq<Node>, root: int,
                                    fileName: Option<string>, callback: Option<Formatter>,
                                    before: seq<Line>, after: seq<Line>)
    requires 0 <= i < |keys|
    requires before == Saved(Visits(keys[..i], v, nodes, root), fileName, callback)
    requires after == before + SaveLine((keys[i], LookupKey(v, nodes, root, keys[i])), fileName, callback)
    ensures after == Saved(Visits(keys[..i + 1], v, nodes, root), fileName, callback)
    ensures Visits(keys[..i + 1], v, nodes, root) == Visits(keys[..i], v, nodes, root) + [(keys[i], LookupKey(v, nodes, root, keys[i]))]
  {
    assert keys[..i + 1] == keys[..i] + [keys[i]];
    VisitsSnoc(keys[..i], keys[i], v, nodes, root);
    SavedSnoc(Visits(keys[..i], v, nodes, root), (keys[i], LookupKey(v, nodes, root, keys[i])), fileName, callback);
  }

  // ---------------------------------------------------------------------
  // Properties of the traversal outputs

  lemma {:induction false} FilterMembers(keys: seq<string>, matches: string -> bool)
    ensures forall x :: x in Filter(keys, matches) <==> x in keys && matches(x)
    ensures |Filter(keys, matches)| <= |keys|
  {
    if keys != [] {
      FilterMembers(keys[..|keys| - 1], matches);
      assert keys == keys[..|keys| - 1] + [keys[|keys| - 1]];
    }
  }

  /** The matches of an ascending list are ascending: FindAll reports them in key order. */
  lemma {:induction false} FilterSorted(keys: seq<string>, matches: string -> bool)
    requires Sorted(keys)
    ensures Sorted(Filter(keys, matches))
  {
    if keys != [] {
      var init := keys[..|keys| - 1];
      var last := keys[|keys| - 1];
      assert Sorted(init);
      FilterSorted(init, matches);
      FilterMembers(init, matches);
      var f := Filter(init, matches);
      if matches(last) {
        forall i | 0 <= i < |f|
          ensures StrCmp(f[i], last) < 0
        {
          assert f[i] in init;
          var j :| 0 <= j < |init| && init[j] == f[i];
          assert keys[j] == f[i];
        }
      }
    }
  }

  /** A callback emits at most one line per entry, and exactly one when it never returns NULL. */
  lemma {:induction false} EmittedBound(visits: seq<(string, Option<Bytes>)>, callback: Formatter)
    ensures |Emitted(visits, callback)| <= |visits|
    ensures (forall i :: 0 <= i < |visits| ==> callback(visits[i].0, visits[i].1).Some?) ==>
              |Emitted(visits, callback)| == |visits|
  {
    if visits != [] {
      EmittedBound(visits[..|visits| - 1], callback);
    }
  }

  /**
   * In a consistent store the records that the walk and the save emit
   * without a callback come one per list entry, in strictly ascending key
   * order, each with the non-NULL value the trie holds for its key.
   */
  lemma {:induction false} ConsistentRecords(v: Variant, nodes: seq<Node>, root: int, keys: seq<string>, recCount: nat)
    requires Consistent(v, nodes, root, keys, recCount)
    ensures var records := Records(Visits(keys, v, nodes, root));
            && |records| == |keys|
            && (forall i, j :: 0 <= i < j < |records| ==> StrCmp(records[i].key, records[j].key) < 0)
            && (forall i :: 0 <= i < |records| ==>
                  records[i].key == keys[i] && records[i].value.Some? &&
                  records[i].value == LookupKey(v, nodes, root, keys[i]))
  {
  }

  // ---------------------------------------------------------------------
  // Consistency of the list with the trie

  /**
   * Under the consistency invariant the list holds no key twice, and a key
   * over the alphabet is in the list exactly when the trie finds it.
   */
  lemma {:induction false} ConsistentKeySet(v: Variant, nodes: seq<Node>, root: int, keys: seq<string>, recCount: nat)
    requires Consistent(v, nodes, root, keys, recCount)
    ensures forall i, j :: 0 <= i < j < |keys| ==> keys[i] != keys[j]
    ensures forall k :: ValidKey(v, k) ==> (k in keys <==> LookupKey(v, nodes, root, k).Some?)
  {
    forall k | ValidKey(v, k) && k in keys
      ensures LookupKey(v, nodes, root, k).Some?
    {
      var i :| 0 <= i < |keys| && keys[i] == k;
    }
  }

  /** A successful add of a key over a non-hex alphabet keeps the list and the trie consistent. */
  lemma {:induction false} AddKeepsConsistent(v: Variant, a: seq<Node>, ra: int, b: seq<Node>, rb: int,
                           keys: seq<string>, recCount: nat, key: string, value: Bytes)
    requires v != Hex && ValidKey(v, key)
    requires Consistent(v, a, ra, keys, recCount)
    requires LookupKey(v, b, rb, key) == Some(value)
    requires forall k :: IdxPath(v, k) != IdxPath(v, key) ==> LookupKey(v, b, rb, k) == LookupKey(v, a, ra, k)
    ensures LookupKey(v, a, ra, key).Some? ==> Consistent(v, b, rb, keys, recCount)
    ensures LookupKey(v, a, ra, key) == None ==> Consistent(v, b, rb, SortedInsert(keys, key), recCount + 1)
  {
    OthersUnchanged(v, a, ra, b, rb, key);
    if LookupKey(v, a, ra, key) == None {
      AddNewKeepsConsistent(v, a, ra, b, rb, keys, recCount, key);
    }
  }

  /** Over a non-hex alphabet, a change confined to one key's path leaves every other valid key's lookup alone. */
  lemma {:induction false} OthersUnchanged(v: Variant, a: seq<Node>, ra: int, b: seq<Node>, rb: int, key: string)
    requires v != Hex && ValidKey(v, key)
    requires forall k :: IdxPath(v, k) != IdxPath(v, key) ==> LookupKey(v, b, rb, k) == LookupKey(v, a, ra, k)
    ensures forall k :: ValidKey(v, k) && k != key ==> LookupKey(v, b, rb, k) == LookupKey(v, a, ra, k)
  {
    forall k | ValidKey(v, k) && k != key
      ensures LookupKey(v, b, rb, k) == LookupKey(v, a, ra, k)
    {
      if IdxPath(v, k) == IdxPath(v, key) {
        IdxPathInjective(v, k, key);
      }
    }
  }

  /** Adding a key the trie did not hold, and inserting it into the list, keeps consistency. */
  lemma {:induction false} AddNewKeepsConsistent(v: Variant, a: seq<Node>, ra: int, b: seq<Node>, rb: int,
                              keys: seq<string>, recCount: nat, key: string)
    requires ValidKey(v, key)
    requires Consistent(v, a, ra, keys, recCount)
    requires LookupKey(v, a, ra, key) == None && LookupKey(v, b, rb, key).Some?
    requires forall k :: ValidKey(v, k) && k != key ==> LookupKey(v, b, rb, k) == LookupKey(v, a, ra, k)
    ensures Consistent(v, b, rb, SortedInsert(keys, key), recCount + 1)
  {
    assert key !in keys;
    SortedInsertKeepsSorted(keys, key);
    var s := SortedInsert(keys, key);
    assert |s| == |keys| + 1 by {
      assert |multiset(s)| == |multiset(keys)| + 1;
    }
    forall i | 0 <= i < |s|
      ensures ValidKey(v, s[i]) && LookupKey(v, b, rb, s[i]).Some?
    {
      assert s[i] in s;
    }
  }

  /** A delete of a key over a non-hex alphabet, followed by the intended list delete, keeps consistency. */
  lemma {:induction false} DeleteKeepsConsistent(v: Variant, a: seq<Node>, ra: int, b: seq<Node>, rb: int,
                              keys: seq<string>, recCount: nat, key: string)
    requires v != Hex && ValidKey(v, key)
    requires Consistent(v, a, ra, keys, recCount)
    requires LookupKey(v, b, rb, key) == None
    requires forall k :: IdxPath(v, k) != IdxPath(v, key) ==> LookupKey(v, b, rb, k) == LookupKey(v, a, ra, k)
    ensures Consistent(v, b, rb, Without(keys, key), recCount)
  {
    OthersUnchanged(v, a, ra, b, rb, key);
    WithoutKeepsSorted(keys, key);
    var s := Without(keys, key);
    forall i | 0 <= i < |s|
      ensures ValidKey(v, s[i]) && LookupKey(v, b, rb, s[i]).Some?
    {
      assert s[i] in s;
    }
    assert |s| <= |keys|;
  }

  /**
   * memDbcDelete as written breaks the agreement of list and trie: with
   * "a" and "b" stored, deleting "b" leaves "a" in the trie but, through
   * keyListDelete as written, takes it off the list.
   */
  lemma {:induction false} DeleteAsWrittenBreaksConsistency(a: seq<Node>, ra: int, b: seq<Node>, rb: int, recCount: nat)
    requires Consistent(Ascii, a, ra, ["a", "b"], recCount)
    requires LookupKey(Ascii, b, rb, "b") == None
    requires forall k :: IdxPath(Ascii, k) != IdxPath(Ascii, "b") ==> LookupKey(Ascii, b, rb, k) == LookupKey(Ascii, a, ra, k)
    ensures KeyOrder.DeleteAsWritten(["a", "b"], "b") == []
    ensures LookupKey(Ascii, b, rb, "a").Some?
    ensures !Consistent(Ascii, b, rb, KeyOrder.DeleteAsWritten(["a", "b"], "b"), recCount)
  {
    DeleteAsWrittenCounterexample();
    assert ["a", "b"][0] == "a";
    assert IdxPath(Ascii, "a")[0] != IdxPath(Ascii, "b")[0];
    assert ValidKey(Ascii, "a");
  }

  // ---------------------------------------------------------------------
  // The database

  class MemDbc {
    /** The database type, which selects the trie family. */
    const dbType: Variant
    const tree: Trie
    var entries: seq<KeyEntry>
    var head: int
    ghost var order: seq<int>
    var recCount: nat

    ghost predicate Valid()
      reads this, tree
    {
      && tree.Valid() && tree.variant == dbType
      && ListInv(entries, head, order)
      && (forall k :: k in KeysOf(entries, order) ==> Indexable(dbType, k))
    }

    /** The keys of the sorted list, from the head. */
    ghost function Keys(): seq<string>
      reads this
    {
      KeysOf(entries, order)
    }

    /** The list agrees with the trie. */
    ghost predicate Coherent()
      reads this, tree
    {
      Consistent(dbType, tree.nodes, tree.root, Keys(), recCount)
    }

    /** `memDbcInit`: an empty tree of the type's family, an empty list, recCount 0. */
    constructor (t: Variant)
      ensures Valid() && fresh(tree) && dbType == t
      ensures tree.nodes == [] && tree.root == NULL
      ensures Keys() == [] && recCount == 0
      ensures Coherent()
    {
      dbType := t;
      tree := new Trie(t);
      entries := [];
      head := NULL;
      order := [];
      recCount := 0;
    }

    /**
     * `keyListInsert`: link a new entry for the key in before the first
     * entry not less than it (at the tail if there is none).
     */
    method KeyListInsert(key: string)
      requires ListInv(entries, head, order)
      modifies this
      ensures ListInv(entries, head, order)
      ensures Keys() == SortedInsert(old(Keys()), key)
      ensures recCount == old(recCount)
    {
      ghost var keys := Keys();
      var temp := |entries|;
      assert temp !in order;
      ListGrow(entries, head, order, KeyEntry(key, NULL));
      var grown := entries + [KeyEntry(key, NULL)];
      var es, h := grown, head;
      ghost var i := 0;
      if head == NULL {
        InsertPosUnique(keys, key, 0);
        h := temp;
      } else {
        var prev, next;
        prev, next, i := SeekInsert(grown, head, order, key);
        if next == NULL {
          es := es[prev := es[prev].(ptr := temp)];
        } else if prev != NULL {
          ListStep(grown, head, order, i - 1);
          es := es[temp := es[temp].(ptr := es[prev].ptr)];
          es := es[prev := es[prev].(ptr := temp)];
        } else {
          es := es[temp := es[temp].(ptr := head)];
          h := temp;
        }
      }
      assert grown[temp := grown[temp].(ptr := NULL)] == grown;
      LinkIn(grown, head, order, i, temp, es, h);
      entries, head, order := es, h, order[..i] + [temp] + order[i..];
    }

    /** `keyListDelete` with the predecessor tracked: unlink the first entry equal to the key. */
    method KeyListDelete(key: string)
      requires ListInv(entries, head, order)
      modifies this
      ensures ListInv(entries, head, order)
      ensures Keys() == Without(old(Keys()), key)
      ensures recCount == old(recCount)
    {
      var prev, next, i := SeekKey(entries, head, order, key);
      if next != NULL {
        Unlink(entries, head, order, i);
        if prev == NULL {
          head := entries[next].ptr;
        } else {
          entries := entries[prev := entries[prev].(ptr := entries[next].ptr)];
        }
        order := order[..i] + order[i + 1..];
      }
    }

    /**
     * `keyListDelete` as written: `prev` is never advanced, so the first
     * entry equal to the key always becomes the end of a dropped prefix
     * and its successor the new head.
     */
    method KeyListDeleteAsWritten(key: string)
      requires ListInv(entries, head, order)
      modifies this
      ensures ListInv(entries, head, order)
      ensures Keys() == KeyOrder.DeleteAsWritten(old(Keys()), key)
      ensures recCount == old(recCount)
    {
      var prev, next, i := SeekKeyAsWritten(entries, head, order, key);
      if next != NULL {
        DropThrough(entries, head, order, i);
        if prev == NULL {
          head := entries[next].ptr;
        } else {
          assert false;
        }
        order := order[i + 1..];
      }
    }

    /**
     * `memDbcAdd`: insert into the trie; when the insert reports a new key
     * (1) link it into the list and count it.  The insert's code is returned.
     */
    method Add(key: string, data: Option<Bytes>) returns (r: int)
      requires Valid() && Indexable(dbType, key)
      modifies this, tree
      ensures Valid()
      ensures r == if data == None then 0 else if old(LookupKey(dbType, tree.nodes, tree.root, key)).Some? then 2 else 1
      ensures r == 1 ==> Keys() == SortedInsert(old(Keys()), key) && recCount == old(recCount) + 1
      ensures r != 1 ==> Keys() == old(Keys()) && recCount == old(recCount)
      ensures data == None ==> tree.nodes == old(tree.nodes) && tree.root == old(tree.root)
      ensures data.Some? ==> LookupKey(dbType, tree.nodes, tree.root, key) == data
      ensures data.Some? ==> forall k :: IdxPath(dbType, k) != IdxPath(dbType, key) ==>
                LookupKey(dbType, tree.nodes, tree.root, k) == old(LookupKey(dbType, tree.nodes, tree.root, k))
      ensures old(Coherent()) && dbType != Hex && ValidKey(dbType, key) ==> Coherent()
    {
      ghost var keys, count := Keys(), recCount;
      ghost var a, ra := tree.nodes, tree.root;
      r := tree.Insert(key, data);
      ghost var b, rb := tree.nodes, tree.root;
      assert entries == old(entries) && order == old(order);
      if r == 1 {
        KeyListInsert(key);
        recCount := recCount + 1;
        assert Keys() == SortedInsert(keys, key);
        assert forall k :: k in Keys() ==> k in keys || k == key;
      }
      assert tree.nodes == b && tree.root == rb && tree.Valid();
      if data.Some? && Consistent(dbType, a, ra, keys, count) && dbType != Hex && ValidKey(dbType, key) {
        AddKeepsConsistent(dbType, a, ra, tree.nodes, tree.root, keys, count, key, data.value);
      }
    }

    /** `memDbcFind`: the lookup of the type's trie; nothing changes. */
    method Find(key: string) returns (rec: Option<Bytes>)
      requires Valid() && Indexable(dbType, key)
      ensures rec == LookupKey(dbType, tree.nodes, tree.root, key)
      ensures Coherent() && ValidKey(dbType, key) ==> (rec.Some? <==> key in Keys())
    {
      rec := tree.Lookup(key);
    }

    /**
     * `memDbcDelete`: delete in the trie; when it succeeds (0) unlink the
     * key from the list.  recCount is left as it is.
     */
    method Delete(key: string) returns (r: int)
      requires Valid() && Indexable(dbType, key)
      modifies this, tree
      ensures Valid()
      ensures r == if old(FindEndOf(dbType, tree.nodes, tree.root, IdxPath(dbType, key))) == NULL then -1 else 0
      ensures r == 0 ==> Keys() == Without(old(Keys()), key)
      ensures r != 0 ==> Keys() == old(Keys()) && tree.nodes == old(tree.nodes)
      ensures recCount == old(recCount)
      ensures LookupKey(dbType, tree.nodes, tree.root, key) == None
      ensures forall k :: IdxPath(dbType, k) != IdxPath(dbType, key) ==>
                LookupKey(dbType, tree.nodes, tree.root, k) == old(LookupKey(dbType, tree.nodes, tree.root, k))
      ensures old(Coherent()) && dbType != Hex && ValidKey(dbType, key) ==> Coherent()
    {
      ghost var keys, count := Keys(), recCount;
      ghost var a, ra := tree.nodes, tree.root;
      r := tree.Delete(key);
      if r == 0 {
        KeyListDelete(key);
      }
      if Consistent(dbType, a, ra, keys, count) && dbType != Hex && ValidKey(dbType, key) {
        DeleteKeepsConsistent(dbType, a, ra, tree.nodes, tree.root, keys, count, key);
        if r != 0 {
          assert key !in keys;
          DeleteOfAbsentKey(keys, key);
        }
      }
    }

    /**
     * `memDbcDelete` as written: the same trie delete, but the list is
     * unlinked by `keyListDelete` as written, which also drops every entry
     * before the key (DeleteAsWrittenBreaksConsistency).
     */
    method DeleteAsWritten(key: string) returns (r: int)
      requires Valid() && Indexable(dbType, key)
      modifies this, tree
      ensures Valid()
      ensures r == if old(FindEndOf(dbType, tree.nodes, tree.root, IdxPath(dbType, key))) == NULL then -1 else 0
      ensures r == 0 ==> Keys() == KeyOrder.DeleteAsWritten(old(Keys()), key)
      ensures r != 0 ==> Keys() == old(Keys()) && tree.nodes == old(tree.nodes)
      ensures recCount == old(recCount)
      ensures LookupKey(dbType, tree.nodes, tree.root, key) == None
      ensures forall k :: IdxPath(dbType, k) != IdxPath(dbType, key) ==>
                LookupKey(dbType, tree.nodes, tree.root, k) == old(LookupKey(dbType, tree.nodes, tree.root, k))
    {
      r := tree.Delete(key);
      if r == 0 {
        KeyListDeleteAsWritten(key);
      }
    }

    /** `memDbcNumEntries`: the record counter. */
    method NumEntries() returns (n: nat)
      requires Valid()
      ensures n == recCount
      ensures Coherent() ==> |Keys()| <= n
    {
      n := recCount;
    }

    /**
     * `memDbcFindAll`.  `regex` is what compiling the pattern gives: the
     * match test, or None when compilation fails.  With a NULL callback
     * (hasCallback false) CALLBACK_NULL is set; when the pattern does not
     * compile REGEX_ERR is set; otherwise the callback receives each
     * matching key of the list with its lookup value, in list order.
     */
    method FindAll(hasCallback: bool, regex: Option<string -> bool>)
      returns (err: Option<DbError>, calls: seq<(string, Option<Bytes>)>)
      requires Valid()
      ensures !hasCallback ==> err == Some(CallbackNull) && calls == []
      ensures hasCallback && regex == None ==> err == Some(RegexErr) && calls == []
      ensures hasCallback && regex.Some? ==>
                err == None && calls == Visits(Filter(Keys(), regex.value), dbType, tree.nodes, tree.root)
    {
      if !hasCallback {
        return Some(CallbackNull), [];
      }
      if regex == None {
        return Some(RegexErr), [];
      }
      var matches := regex.value;
      err, calls := None, [];
      ghost var keys := Keys();
      var next := head;
      ghost var i := 0;
      while next != NULL
        invariant 0 <= i <= |order|
        invariant next == (if i < |order| then order[i] else NULL)
        invariant calls == Visits(Filter(keys[..i], matches), dbType, tree.nodes, tree.root)
        decreases |order| - i
      {
        FilterStep(keys, i, matches);
        ListStep(entries, head, order, i);
        var key := entries[next].key;
        assert key == keys[i] && key in keys;
        if matches(key) {
          var data := tree.Lookup(key);
          VisitsSnoc(Filter(keys[..i], matches), key, dbType, tree.nodes, tree.root);
          calls := calls + [(key, data)];
        }
        next := entries[next].ptr;
        i := i + 1;
      }
      assert keys[..i] == keys;
    }

    /**
     * `keyListWalk`: after the heading line, one line per list entry in
     * list order: `Key=k, Value=v` without a callback, else the callback's
     * string when it is not NULL.
     */
    method KeyListWalk(callback: Option<Formatter>) returns (lines: seq<Line>)
      requires Valid()
      ensures lines == WalkOutput(Visits(Keys(), dbType, tree.nodes, tree.root), callback)
    {
      lines := [Text("Walking sorted list:")];
      ghost var keys := Keys();
      var next := head;
      ghost var i := 0;
      while next != NULL
        invariant 0 <= i <= |order|
        invariant next == (if i < |order| then order[i] else NULL)
        invariant lines == WalkOutput(Visits(keys[..i], dbType, tree.nodes, tree.root), callback)
        decreases |order| - i
      {
        ListStep(entries, head, order, i);
        var key := entries[next].key;
        assert key == keys[i] && key in keys;
        var data := tree.Lookup(key);
        ghost var before := lines;
        if callback == None {
          lines := lines + [Record(key, data)];
        } else {
          var s := callback.value(key, data);
          if s.Some? {
            lines := lines + [Text(s.value)];
          }
        }
        assert lines == before + ShowLine((key, data), callback);
        WalkStep(keys, i, dbType, tree.nodes, tree.root, callback, before, lines);
        next := entries[next].ptr;
        i := i + 1;
      }
      assert keys[..i] == keys;
    }

    /**
     * `keyListSave`.  Without a callback each entry is written to the file
     * as `key,value`; with a callback and a file name its non-NULL strings
     * are written; with a callback and no file name the callback is only
     * called, once per entry in list order (`calls`).  Writing without a
     * file name and without a callback would go to a NULL stream, so a
     * caller may do that only on an empty list.
     */
    method KeyListSave(fileName: Option<string>, callback: Option<Formatter>)
      returns (written: seq<Line>, calls: seq<(string, Option<Bytes>)>)
      requires Valid()
      requires callback == None && fileName == None ==> Keys() == []
      ensures var visits := Visits(Keys(), dbType, tree.nodes, tree.root);
              && written == (if callback == None then Records(visits)
                             else if fileName.Some? then Emitted(visits, callback.value)
                             else [])
              && calls == (if callback.Some? then visits else [])
    {
      written, calls := [], [];
      ghost var keys := Keys();
      ghost var visits := [];
      var next := head;
      ghost var i := 0;
      while next != NULL
        invariant 0 <= i <= |order|
        invariant next == (if i < |order| then order[i] else NULL)
        invariant visits == Visits(keys[..i], dbType, tree.nodes, tree.root)
        invariant written == Saved(visits, fileName, callback)
        invariant calls == (if callback.Some? then visits else [])
        decreases |order| - i
      {
        ListStep(entries, head, order, i);
        var key := entries[next].key;
        assert key == keys[i] && key in keys;
        var data := tree.Lookup(key);
        var line: seq<Line> := [];
        if callback == None {
          line := [Record(key, data)];
        } else {
          calls := calls + [(key, data)];
          var s := callback.value(key, data);
          if fileName.Some? && s.Some? {
            line := [Text(s.value)];
          }
        }
        assert line == SaveLine((key, data), fileName, callback);
        SaveStep(keys, i, dbType, tree.nodes, tree.root, fileName, callback, written, written + line);
        written := written + line;
        visits := visits + [(key, data)];
        next := entries[next].ptr;
        i := i + 1;
      }
      assert keys[..i] == keys;
    }
  }
}
