/**
 * The node store of the trie engine, as values: an arena of node records
 * whose child slots hold arena indices (NULL = -1), the walk that FindEnd
 * performs, the invariant every trie keeps, and the relations that Insert
 * and Delete establish between the store before and after the call.
 */
module TrieStore {
  import opened Values
  import opened Alphabet

  /** The empty child slot and the empty root pointer. */
  const NULL: int := -1

  /** One trie node: owned data, `useCount`, `inUse`, and the child slots `next`. */
  datatype Node = Node(data: Option<Bytes>, useCount: nat, inUse: nat, next: seq<int>)

  /** The node that Insert calloc's before a slot is filled: no data, count 0, inUse 1, empty slots. */
  function FreshNode(v: Variant): Node
  {
    Node(None, 0, 1, seq(Fanout(v), _ => NULL))
  }

  /** `node->next[k]`, NULL for a node or slot outside the store. */
  function Child(nodes: seq<Node>, n: int, k: int): int
  {
    if 0 <= n < |nodes| && 0 <= k < |nodes[n].next| then nodes[n].next[k] else NULL
  }

  /** The node reached from `n` by following the slots of `p`, NULL if a slot on the way is empty. */
  function Walk(nodes: seq<Node>, n: int, p: seq<int>): (r: int)
    ensures r == NULL || 0 <= r < |nodes|
    decreases |p|
  {
    if !(0 <= n < |nodes|) then NULL
    else if p == [] then n
    else Walk(nodes, Child(nodes, n, p[0]), p[1..])
  }

  /** What `xFindEnd` returns: the terminal node, NULL if absent or (when the variant checks it) not in use. */
  function FindEndOf(v: Variant, nodes: seq<Node>, root: int, p: seq<int>): (r: int)
    ensures r == NULL || 0 <= r < |nodes|
    ensures r != NULL && ChecksInUse(v) ==> nodes[r].inUse > 0
  {
    var n := Walk(nodes, root, p);
    if n == NULL || (ChecksInUse(v) && nodes[n].inUse == 0) then NULL else n
  }

  /** What `xLookup` returns for a slot path. */
  function LookupOf(v: Variant, nodes: seq<Node>, root: int, p: seq<int>): (r: Option<Bytes>)
    ensures FindEndOf(v, nodes, root, p) == NULL ==> r == None
    ensures r.Some? ==> var n := FindEndOf(v, nodes, root, p);
              0 <= n < |nodes| && r == nodes[n].data && (ChecksInUse(v) ==> nodes[n].inUse > 0)
  {
    var n := FindEndOf(v, nodes, root, p);
    if n == NULL then None else nodes[n].data
  }

  /** What `xLookup` returns for a key. */
  function LookupKey(v: Variant, nodes: seq<Node>, root: int, key: string): Option<Bytes>
  {
    LookupOf(v, nodes, root, IdxPath(v, key))
  }

  /** What `xNumEntries` returns: the root's useCount, 0 for an empty trie. */
  function NumEntriesOf(nodes: seq<Node>, root: int): nat
  {
    if 0 <= root < |nodes| then nodes[root].useCount else 0
  }

  /** Every node has the variant's fanout. */
  ghost predicate Shaped(v: Variant, nodes: seq<Node>)
  {
    forall i :: 0 <= i < |nodes| ==> |nodes[i].next| == Fanout(v)
  }

  /** A node that holds data is in use. */
  ghost predicate DataInUse(nodes: seq<Node>)
  {
    forall i :: 0 <= i < |nodes| ==> nodes[i].data.Some? ==> nodes[i].inUse > 0
  }

  /** Each filled slot k of node i leads to a node whose label (slot path) is i's label plus k. */
  ghost predicate Labelled(nodes: seq<Node>, labels: seq<seq<int>>)
  {
    && |labels| == |nodes|
    && forall i, k :: 0 <= i < |nodes| && 0 <= k < |nodes[i].next| && nodes[i].next[k] != NULL ==>
         0 <= nodes[i].next[k] < |nodes| && labels[nodes[i].next[k]] == labels[i] + [k]
  }

  /** Every node is reached from the root by walking its label. */
  ghost predicate Reachable(nodes: seq<Node>, root: int, labels: seq<seq<int>>)
  {
    |labels| == |nodes| && forall i :: 0 <= i < |nodes| ==> Walk(nodes, root, labels[i]) == i
  }

  /**
   * The invariant of a trie: the root is the first node (NULL while the
   * trie is empty) and has the empty label, nodes form a tree in which each
   * node is reached by exactly its label, and data implies inUse.
   */
  ghost predicate TrieInv(v: Variant, nodes: seq<Node>, root: int, labels: seq<seq<int>>)
  {
    && (root == NULL <==> nodes == [])
    && (nodes != [] ==> root == 0)
    && Shaped(v, nodes)
    && DataInUse(nodes)
    && Labelled(nodes, labels)
    && Reachable(nodes, root, labels)
  }

  // ---------------------------------------------------------------------
  // Walks

  /** Walking p then q is walking p + q. */
  lemma {:induction false} WalkConcat(nodes: seq<Node>, n: int, p: seq<int>, q: seq<int>)
    ensures Walk(nodes, n, p + q) == Walk(nodes, Walk(nodes, n, p), q)
    decreases |p|
  {
    if !(0 <= n < |nodes|) {
    } else if p == [] {
      assert p + q == q;
    } else {
      assert (p + q)[1..] == p[1..] + q;
      WalkConcat(nodes, Child(nodes, n, p[0]), p[1..], q);
    }
  }

  /** A walk that arrives has labels that add up along the way. */
  lemma {:induction false} WalkLabel(nodes: seq<Node>, labels: seq<seq<int>>, n: int, p: seq<int>)
    requires Labelled(nodes, labels)
    requires 0 <= n < |nodes| && Walk(nodes, n, p) != NULL
    ensures labels[Walk(nodes, n, p)] == labels[n] + p
    decreases |p|
  {
    if p == [] {
      assert labels[n] + p == labels[n];
    } else {
      var c := Child(nodes, n, p[0]);
      assert c != NULL;
      assert labels[c] == labels[n] + [p[0]];
      WalkLabel(nodes, labels, c, p[1..]);
      assert [p[0]] + p[1..] == p;
      assert labels[n] + [p[0]] + p[1..] == labels[n] + p;
    }
  }

  /** In a trie the node a walk from the root reaches is labelled by the walked path. */
  lemma {:induction false} RootWalkLabel(v: Variant, nodes: seq<Node>, root: int, labels: seq<seq<int>>, p: seq<int>)
    requires TrieInv(v, nodes, root, labels)
    requires Walk(nodes, root, p) != NULL
    ensures labels[Walk(nodes, root, p)] == p
    ensures labels[root] == []
  {
    assert labels[root] == [] by {
      assert Walk(nodes, root, labels[root]) == root;
      WalkLabel(nodes, labels, root, labels[root]);
      assert labels[root] == labels[root] + labels[root];
    }
    WalkLabel(nodes, labels, root, p);
    assert [] + p == p;
  }

  /** In a trie no two nodes share a label. */
  lemma {:induction false} LabelInjective(v: Variant, nodes: seq<Node>, root: int, labels: seq<seq<int>>, i: int, j: int)
    requires TrieInv(v, nodes, root, labels)
    requires 0 <= i < |nodes| && 0 <= j < |nodes|
    ensures labels[i] == labels[j] ==> i == j
  {
    assert Walk(nodes, root, labels[i]) == i;
    assert Walk(nodes, root, labels[j]) == j;
  }

  /** Every prefix of a path that arrives arrives too. */
  lemma {:induction false} PrefixWalks(nodes: seq<Node>, n: int, p: seq<int>, j: int)
    requires Walk(nodes, n, p) != NULL && 0 <= j <= |p|
    ensures Walk(nodes, Walk(nodes, n, p[..j]), p[j..]) == Walk(nodes, n, p)
    ensures Walk(nodes, n, p[..j]) != NULL
  {
    assert p[..j] + p[j..] == p;
    WalkConcat(nodes, n, p[..j], p[j..]);
  }

  /** Walks only look at the child slots. */
  lemma {:induction false} WalkSameShape(a: seq<Node>, b: seq<Node>, n: int, p: seq<int>)
    requires |a| == |b| && forall i :: 0 <= i < |a| ==> a[i].next == b[i].next
    ensures Walk(a, n, p) == Walk(b, n, p)
    decreases |p|
  {
    if 0 <= n < |a| && p != [] {
      WalkSameShape(a, b, Child(a, n, p[0]), p[1..]);
    }
  }

  // ---------------------------------------------------------------------
  // Growth of the store during Insert

  /**
   * b grows from a as Insert makes it grow: no filled slot of a changes,
   * an empty slot of a is at most filled with a node new in b, and the new
   * nodes only point to new nodes.
   */
  ghost predicate Extends(a: seq<Node>, b: seq<Node>)
  {
    && |a| <= |b|
    && (forall i :: 0 <= i < |a| ==> |b[i].next| == |a[i].next|)
    && (forall i, k :: 0 <= i < |a| && 0 <= k < |a[i].next| ==>
          if a[i].next[k] != NULL then b[i].next[k] == a[i].next[k]
          else b[i].next[k] == NULL || b[i].next[k] >= |a|)
    && (forall i, k :: |a| <= i < |b| && 0 <= k < |b[i].next| ==> b[i].next[k] == NULL || b[i].next[k] >= |a|)
  }

  lemma {:induction false} ExtendsTrans(a: seq<Node>, b: seq<Node>, c: seq<Node>)
    requires Extends(a, b) && Extends(b, c)
    ensures Extends(a, c)
  {
  }

  /** A walk of the smaller store arrives at the same node in the grown store. */
  lemma {:induction false} WalkExtends(a: seq<Node>, b: seq<Node>, n: int, p: seq<int>)
    requires Extends(a, b) && Walk(a, n, p) != NULL
    ensures Walk(b, n, p) == Walk(a, n, p)
    decreases |p|
  {
    if p != [] {
      assert Child(b, n, p[0]) == Child(a, n, p[0]);
      WalkExtends(a, b, Child(a, n, p[0]), p[1..]);
    }
  }

  /** A walk that starts at a new node stays among the new nodes. */
  lemma {:induction false} WalkFromNew(a: seq<Node>, b: seq<Node>, n: int, p: seq<int>)
    requires Extends(a, b) && !(0 <= n < |a|)
    ensures Walk(b, n, p) == NULL || Walk(b, n, p) >= |a|
    decreases |p|
  {
    if 0 <= n < |b| && p != [] {
      WalkFromNew(a, b, Child(b, n, p[0]), p[1..]);
    }
  }

  /** A walk of the grown store from an old node that ends at an old node is a walk of the smaller one. */
  lemma {:induction false} WalkBackward(a: seq<Node>, b: seq<Node>, n: int, p: seq<int>)
    requires Extends(a, b) && 0 <= n < |a|
    requires Walk(b, n, p) != NULL && Walk(b, n, p) < |a|
    ensures Walk(a, n, p) == Walk(b, n, p)
    decreases |p|
  {
    if p != [] {
      var c := Child(b, n, p[0]);
      if c >= |a| {
        WalkFromNew(a, b, c, p[1..]);
        assert false;
      }
      assert c == Child(a, n, p[0]);
      WalkBackward(a, b, c, p[1..]);
    }
  }

  // ---------------------------------------------------------------------
  // Lookups

  /** In a trie a path is found exactly when its walk arrives at a node holding data. */
  lemma {:induction false} LookupSomeIffData(v: Variant, nodes: seq<Node>, root: int, labels: seq<seq<int>>, p: seq<int>)
    requires TrieInv(v, nodes, root, labels)
    ensures LookupOf(v, nodes, root, p).Some? <==>
            (Walk(nodes, root, p) != NULL && nodes[Walk(nodes, root, p)].data.Some?)
    ensures LookupOf(v, nodes, root, p).Some? ==> LookupOf(v, nodes, root, p) == nodes[Walk(nodes, root, p)].data
  {
  }

  /**
   * A proper prefix of a stored key that was never given data itself is
   * not found, although its node exists ("kell" under "kelly").
   */
  lemma {:induction false} PrefixNotFound(v: Variant, nodes: seq<Node>, root: int, labels: seq<seq<int>>, p: seq<int>, j: int)
    requires TrieInv(v, nodes, root, labels)
    requires Walk(nodes, root, p) != NULL && 0 <= j <= |p|
    ensures Walk(nodes, root, p[..j]) != NULL
    ensures nodes[Walk(nodes, root, p[..j])].data == None ==> LookupOf(v, nodes, root, p[..j]) == None
  {
    PrefixWalks(nodes, root, p, j);
  }

  // ---------------------------------------------------------------------
  // Insert

  /** A prefix of one more slot is the shorter prefix followed by that slot. */
  lemma {:induction false} PrefixSnoc(path: seq<int>, p: int)
    requires 0 < p <= |path|
    ensures path[..p - 1] + [path[p - 1]] == path[..p]
  {
    var front := path[..p - 1];
    forall k | 0 <= k < p
      ensures (front + [path[p - 1]])[k] == path[..p][k]
    {
      if k < p - 1 {
        assert (front + [path[p - 1]])[k] == front[k];
      }
    }
  }

  /** Node i's label lies on the first p steps of the walk along path (counting the root as step 0). */
  predicate Passed(l: seq<int>, path: seq<int>, p: nat)
  {
    |l| < p && l <= path
  }

  /**
   * Insert has walked p steps of `path` (the nodes with a label of length
   * below p): it grew the store and added 1 to the useCount of those nodes,
   * each of which stays otherwise unchanged; the new nodes are exactly fresh
   * nodes on the path.
   */
  ghost predicate PartialInsert(a: seq<Node>, la: seq<seq<int>>, b: seq<Node>, lb: seq<seq<int>>, path: seq<int>, p: nat)
  {
    && Extends(a, b)
    && |la| == |a| && |lb| == |b|
    && (forall i :: 0 <= i < |a| ==> lb[i] == la[i])
    && (forall i :: 0 <= i < |a| ==>
          && b[i].data == a[i].data && b[i].inUse == a[i].inUse
          && b[i].useCount == a[i].useCount + (if Passed(lb[i], path, p) then 1 else 0))
    && (forall i :: |a| <= i < |b| ==>
          Passed(lb[i], path, p) && b[i].data == None && b[i].inUse == 1 && b[i].useCount == 1)
  }

  /**
   * The whole effect of a successful Insert of `value` under `path`: the
   * store grew as in Extends; every node on the path (label a prefix of
   * path) gained 1 in useCount, a new node starting from 0; the terminal
   * (label == path) holds the value and its inUse went up by 1 (a new
   * terminal starts at inUse 1); every other node is as it was or fresh.
   */
  ghost predicate InsertedAt(a: seq<Node>, la: seq<seq<int>>, b: seq<Node>, lb: seq<seq<int>>, path: seq<int>, value: Bytes)
  {
    && Extends(a, b)
    && |la| == |a| && |lb| == |b|
    && (forall i :: 0 <= i < |a| ==> lb[i] == la[i])
    && (forall i :: 0 <= i < |a| ==>
          && b[i].data == (if lb[i] == path then Some(value) else a[i].data)
          && b[i].inUse == a[i].inUse + (if lb[i] == path then 1 else 0)
          && b[i].useCount == a[i].useCount + (if lb[i] <= path then 1 else 0))
    && (forall i :: |a| <= i < |b| ==>
          && lb[i] <= path
          && b[i].data == (if lb[i] == path then Some(value) else None)
          && b[i].inUse == (if lb[i] == path then 2 else 1)
          && b[i].useCount == 1)
  }

  /** The store after a fresh node is put into an empty slot of `parent` (into the root pointer when parent is NULL). */
  function Install(v: Variant, nodes: seq<Node>, parent: int, slot: int): seq<Node>
    requires parent == NULL || (0 <= parent < |nodes| && 0 <= slot < |nodes[parent].next|)
  {
    var grown := nodes + [FreshNode(v)];
    if parent == NULL then grown
    else grown[parent := grown[parent].(next := grown[parent].next[slot := |nodes|])]
  }

  /** Adding 1 to one node's useCount. */
  function Bump(nodes: seq<Node>, n: int): seq<Node>
    requires 0 <= n < |nodes|
  {
    nodes[n := nodes[n].(useCount := nodes[n].useCount + 1)]
  }

  /** Storing the value at the terminal and adding 1 to its inUse. */
  function Store(nodes: seq<Node>, n: int, value: Bytes): seq<Node>
    requires 0 <= n < |nodes|
  {
    nodes[n := nodes[n].(data := Some(value), inUse := nodes[n].inUse + 1)]
  }

  /** The nodes of an installed store: old nodes as before except the filled slot, then one fresh node. */
  lemma {:induction false} InstallNode(v: Variant, nodes: seq<Node>, parent: int, slot: int, i: int)
    requires parent == NULL || (0 <= parent < |nodes| && 0 <= slot < |nodes[parent].next|)
    requires 0 <= i <= |nodes|
    ensures |Install(v, nodes, parent, slot)| == |nodes| + 1
    ensures i == |nodes| ==> Install(v, nodes, parent, slot)[i] == FreshNode(v)
    ensures i < |nodes| ==>
              var n := Install(v, nodes, parent, slot)[i];
              && n.data == nodes[i].data && n.useCount == nodes[i].useCount && n.inUse == nodes[i].inUse
              && n.next == if i == parent then nodes[i].next[slot := |nodes|] else nodes[i].next
  {
  }

  /** Filling an empty slot (or the empty root) with a fresh node keeps the trie invariant. */
  lemma {:induction false} InstallKeepsInv(v: Variant, nodes: seq<Node>, root: int, labels: seq<seq<int>>, parent: int, slot: int, l: seq<int>)
    requires TrieInv(v, nodes, root, labels)
    requires parent == NULL ==> root == NULL
    requires parent != NULL ==> 0 <= parent < |nodes| && 0 <= slot < Fanout(v) &&
                                nodes[parent].next[slot] == NULL && l == labels[parent] + [slot]
    requires parent == NULL ==> l == []
    ensures parent == NULL || (0 <= parent < |nodes| && 0 <= slot < |nodes[parent].next|)
    ensures Extends(nodes, Install(v, nodes, parent, slot))
    ensures TrieInv(v, Install(v, nodes, parent, slot), if parent == NULL then |nodes| else root, labels + [l])
    ensures Walk(Install(v, nodes, parent, slot), if parent == NULL then |nodes| else root, l) == |nodes|
  {
    InstallShaped(v, nodes, root, labels, parent, slot, l);
    InstallReachable(v, nodes, root, labels, parent, slot, l);
  }

  /** The installed store keeps the fanout, data-in-use and labelling parts of the invariant. */
  lemma {:induction false} InstallShaped(v: Variant, nodes: seq<Node>, root: int, labels: seq<seq<int>>, parent: int, slot: int, l: seq<int>)
    requires TrieInv(v, nodes, root, labels)
    requires parent == NULL ==> root == NULL
    requires parent != NULL ==> 0 <= parent < |nodes| && 0 <= slot < Fanout(v) &&
                                nodes[parent].next[slot] == NULL && l == labels[parent] + [slot]
    requires parent == NULL ==> l == []
    ensures var b := Install(v, nodes, parent, slot);
            Shaped(v, b) && DataInUse(b) && Extends(nodes, b) && Labelled(b, labels + [l])
  {
    var b := Install(v, nodes, parent, slot);
    var n := |nodes|;
    forall i | 0 <= i <= n
      ensures |b[i].next| == Fanout(v)
      ensures b[i].data.Some? ==> b[i].inUse > 0
      ensures forall k :: 0 <= k < |b[i].next| ==>
                if i == n then b[i].next[k] == NULL
                else if i == parent && k == slot then b[i].next[k] == n
                else b[i].next[k] == nodes[i].next[k]
    {
      InstallNode(v, nodes, parent, slot, i);
    }
    assert Shaped(v, b) && DataInUse(b);
    assert Extends(nodes, b);
  }

  /** In the installed store every old node is still reached by its label and the new one by l. */
  lemma {:induction false} InstallReachable(v: Variant, nodes: seq<Node>, root: int, labels: seq<seq<int>>, parent: int, slot: int, l: seq<int>)
    requires TrieInv(v, nodes, root, labels)
    requires parent == NULL ==> root == NULL
    requires parent != NULL ==> 0 <= parent < |nodes| && 0 <= slot < Fanout(v) &&
                                nodes[parent].next[slot] == NULL && l == labels[parent] + [slot]
    requires parent == NULL ==> l == []
    ensures var b := Install(v, nodes, parent, slot);
            var rb := if parent == NULL then |nodes| else root;
            Reachable(b, rb, labels + [l]) && Walk(b, rb, l) == |nodes|
  {
    var b := Install(v, nodes, parent, slot);
    var rb := if parent == NULL then |nodes| else root;
    var lb := labels + [l];
    var n := |nodes|;
    InstallShaped(v, nodes, root, labels, parent, slot, l);
    if parent == NULL {
      assert nodes == [];
      assert Walk(b, rb, []) == 0;
    } else {
      forall i | 0 <= i < n
        ensures Walk(b, rb, lb[i]) == i
      {
        assert Walk(nodes, root, labels[i]) == i;
        WalkExtends(nodes, b, root, labels[i]);
      }
      assert Walk(b, rb, labels[parent]) == parent by {
        WalkExtends(nodes, b, root, labels[parent]);
      }
      WalkConcat(b, rb, labels[parent], [slot]);
      assert Walk(b, rb, l) == n;
    }
  }

  lemma {:induction false} BumpKeepsInv(v: Variant, nodes: seq<Node>, root: int, labels: seq<seq<int>>, n: int)
    requires TrieInv(v, nodes, root, labels) && 0 <= n < |nodes|
    ensures TrieInv(v, Bump(nodes, n), root, labels)
    ensures Extends(nodes, Bump(nodes, n))
  {
    var b := Bump(nodes, n);
    forall i | 0 <= i < |b|
      ensures Walk(b, root, labels[i]) == i
    {
      WalkSameShape(nodes, b, root, labels[i]);
    }
  }


  /**
   * One iteration of Insert's loop over an existing node: adding 1 to the
   * useCount of the node of step p moves the partial insert from p to p + 1.
   */
  lemma {:induction false} AdvanceExisting(v: Variant, a: seq<Node>, la: seq<seq<int>>, b: seq<Node>, rb: int, lb: seq<seq<int>>,
                        path: seq<int>, p: nat, n: int)
    requires TrieInv(v, b, rb, lb) && PartialInsert(a, la, b, lb, path, p)
    requires p <= |path| && 0 <= n < |b| && lb[n] == path[..p]
    ensures TrieInv(v, Bump(b, n), rb, lb)
    ensures PartialInsert(a, la, Bump(b, n), lb, path, p + 1)
  {
    BumpKeepsInv(v, b, rb, lb, n);
    var c := Bump(b, n);
    ExtendsTrans(a, b, c);
    forall i | 0 <= i < |b|
      ensures Passed(lb[i], path, p + 1) <==> (Passed(lb[i], path, p) || i == n)
    {
      if |lb[i]| == p && lb[i] <= path {
        assert lb[i] == path[..p];
        LabelInjective(v, b, rb, lb, i, n);
      }
    }
  }

  /** A node's label is shared by no other node. */
  lemma {:induction false} LabelFresh(v: Variant, nodes: seq<Node>, root: int, labels: seq<seq<int>>, n: int)
    requires TrieInv(v, nodes, root, labels) && 0 <= n < |nodes|
    ensures forall i :: 0 <= i < |nodes| && i != n ==> labels[i] != labels[n]
  {
    forall i | 0 <= i < |nodes| && i != n
      ensures labels[i] != labels[n]
    {
      LabelInjective(v, nodes, root, labels, i, n);
    }
  }

  /**
   * Installing a fresh node in an empty slot (or as the root) and adding 1
   * to its useCount: the trie invariant holds with the new node labelled
   * l, the walk along l reaches it, and the old nodes keep their fields.
   */
  lemma {:induction false} InstallBumped(v: Variant, b: seq<Node>, rb: int, lb: seq<seq<int>>,
                                         parent: int, slot: int, l: seq<int>)
    requires TrieInv(v, b, rb, lb)
    requires parent == NULL ==> rb == NULL && l == []
    requires parent != NULL ==> 0 <= parent < |b| && 0 <= slot < Fanout(v) &&
                                b[parent].next[slot] == NULL && l == lb[parent] + [slot]
    ensures parent == NULL || (0 <= parent < |b| && 0 <= slot < |b[parent].next|)
    ensures var c := Bump(Install(v, b, parent, slot), |b|);
            var rc := if parent == NULL then |b| else rb;
            && |c| == |b| + 1
            && Extends(b, c)
            && TrieInv(v, c, rc, lb + [l])
            && Walk(c, rc, l) == |b|
            && (forall i :: 0 <= i < |b| ==> c[i].data == b[i].data && c[i].inUse == b[i].inUse && c[i].useCount == b[i].useCount)
            && c[|b|].data == None && c[|b|].inUse == 1 && c[|b|].useCount == 1
  {
    InstallKeepsInv(v, b, rb, lb, parent, slot, l);
    var i1 := Install(v, b, parent, slot);
    var rc := if parent == NULL then |b| else rb;
    var lc := lb + [l];
    BumpKeepsInv(v, i1, rc, lc, |b|);
    var c := Bump(i1, |b|);
    ExtendsTrans(b, i1, c);
    WalkSameShape(i1, c, rc, l);
    forall i | 0 <= i <= |b|
      ensures i < |b| ==> c[i].data == b[i].data && c[i].inUse == b[i].inUse && c[i].useCount == b[i].useCount
      ensures i == |b| ==> c[i].data == None && c[i].inUse == 1 && c[i].useCount == 1
    {
      InstallNode(v, b, parent, slot, i);
    }
  }

  /**
   * One iteration of Insert's loop over an empty slot: installing a fresh
   * node there and adding 1 to its useCount moves the partial insert from
   * p to p + 1; the new node is the one the walk of the first p steps reaches.
   */
  lemma {:induction false} AdvanceInstalled(v: Variant, a: seq<Node>, la: seq<seq<int>>, b: seq<Node>, rb: int, lb: seq<seq<int>>,
                         path: seq<int>, p: nat, parent: int, slot: int)
    requires TrieInv(v, b, rb, lb) && PartialInsert(a, la, b, lb, path, p) && p <= |path|
    requires parent == NULL ==> rb == NULL && p == 0
    requires parent != NULL ==> 0 < p && 0 <= parent < |b| && lb[parent] == path[..p - 1] &&
                                slot == path[p - 1] && 0 <= slot < Fanout(v) && b[parent].next[slot] == NULL
    ensures parent == NULL || (0 <= parent < |b| && 0 <= slot < |b[parent].next|)
    ensures var c := Bump(Install(v, b, parent, slot), |b|);
            var rc := if parent == NULL then |b| else rb;
            && TrieInv(v, c, rc, lb + [path[..p]])
            && PartialInsert(a, la, c, lb + [path[..p]], path, p + 1)
            && Walk(c, rc, path[..p]) == |b|
  {
    var l := path[..p];
    if parent != NULL {
      PrefixSnoc(path, p);
    }
    InstallBumped(v, b, rb, lb, parent, slot, l);
    var c := Bump(Install(v, b, parent, slot), |b|);
    var rc := if parent == NULL then |b| else rb;
    var lc := lb + [l];
    ExtendsTrans(a, b, c);
    LabelFresh(v, c, rc, lc, |b|);
    forall i | 0 <= i < |b|
      ensures lb[i] != l
    {
      assert lc[i] == lb[i] && lc[|b|] == l;
    }
    PartialGrows(a, la, b, lb, c, path, p);
  }

  /**
   * Appending a node counted once, labelled with the first p slots, to a
   * partial insert over p steps adds step p: no older node has that label.
   */
  lemma {:induction false} PartialGrows(a: seq<Node>, la: seq<seq<int>>, b: seq<Node>, lb: seq<seq<int>>, c: seq<Node>,
                                        path: seq<int>, p: nat)
    requires PartialInsert(a, la, b, lb, path, p) && p <= |path|
    requires |c| == |b| + 1 && Extends(a, c)
    requires forall i :: 0 <= i < |b| ==> c[i].data == b[i].data && c[i].inUse == b[i].inUse && c[i].useCount == b[i].useCount
    requires c[|b|].data == None && c[|b|].inUse == 1 && c[|b|].useCount == 1
    requires forall i :: 0 <= i < |b| ==> lb[i] != path[..p]
    ensures PartialInsert(a, la, c, lb + [path[..p]], path, p + 1)
  {
    var l := path[..p];
    var lc := lb + [l];
    forall i | 0 <= i < |b|
      ensures Passed(lc[i], path, p + 1) <==> Passed(lc[i], path, p)
    {
      var li := lc[i];
      assert li == lb[i] && li != l;
      assert |li| == p && li <= path ==> li == l;
    }
    assert Passed(lc[|b|], path, p + 1);
  }

  /**
   * The last iteration of Insert's loop: storing the value at the terminal
   * completes the insert; the value returned (2 or 1) says whether the
   * terminal already held data, which is whether the key was found before.
   */
  lemma {:induction false} FinishInsert(v: Variant, a: seq<Node>, ra: int, la: seq<seq<int>>, b: seq<Node>, rb: int, lb: seq<seq<int>>,
                     path: seq<int>, n: int, value: Bytes)
    requires TrieInv(v, a, ra, la) && TrieInv(v, b, rb, lb)
    requires PartialInsert(a, la, b, lb, path, |path| + 1)
    requires 0 <= n < |b| && lb[n] == path
    ensures TrieInv(v, Store(b, n, value), rb, lb)
    ensures InsertedAt(a, la, Store(b, n, value), lb, path, value)
    ensures b[n].data.Some? <==> LookupOf(v, a, ra, path).Some?
  {
    var c := Store(b, n, value);
    StoreKeepsInv(v, b, rb, lb, n, value);
    forall i | 0 <= i < |b|
      ensures lb[i] == path <==> i == n
    {
      if lb[i] == path {
        LabelInjective(v, b, rb, lb, i, n);
      }
    }
    forall i | 0 <= i < |b|
      ensures Passed(lb[i], path, |path| + 1) <==> lb[i] <= path
    {
      if lb[i] <= path {
        assert |lb[i]| <= |path|;
      }
    }
    assert InsertedAt(a, la, c, lb, path, value);
    TerminalHeldData(v, a, ra, la, b, rb, lb, path, n);
  }

  /** Storing a value in a node of the trie keeps the invariant. */
  lemma {:induction false} StoreKeepsInv(v: Variant, b: seq<Node>, rb: int, lb: seq<seq<int>>, n: int, value: Bytes)
    requires TrieInv(v, b, rb, lb) && 0 <= n < |b|
    ensures TrieInv(v, Store(b, n, value), rb, lb)
  {
    var c := Store(b, n, value);
    forall i | 0 <= i < |c|
      ensures Walk(c, rb, lb[i]) == i
    {
      WalkSameShape(b, c, rb, lb[i]);
    }
  }

  /** Before the store, the terminal of a partial insert holds data exactly when the path was found. */
  lemma {:induction false} TerminalHeldData(v: Variant, a: seq<Node>, ra: int, la: seq<seq<int>>, b: seq<Node>, rb: int, lb: seq<seq<int>>,
                                            path: seq<int>, n: int)
    requires TrieInv(v, a, ra, la) && TrieInv(v, b, rb, lb)
    requires PartialInsert(a, la, b, lb, path, |path| + 1)
    requires 0 <= n < |b| && lb[n] == path
    ensures b[n].data.Some? <==> LookupOf(v, a, ra, path).Some?
  {
    LookupSomeIffData(v, a, ra, la, path);
    assert Walk(b, rb, path) == n;
    if n < |a| {
      assert ra == rb;
      WalkBackward(a, b, rb, path);
    } else if Walk(a, ra, path) != NULL {
      assert ra == rb;
      WalkExtends(a, b, ra, path);
      assert false;
    }
  }

  /** After a successful Insert of `value`, a different path is looked up as before. */
  lemma {:induction false} InsertLookupOther(v: Variant, a: seq<Node>, ra: int, la: seq<seq<int>>, b: seq<Node>, rb: int, lb: seq<seq<int>>,
                          path: seq<int>, value: Bytes, p: seq<int>)
    requires TrieInv(v, a, ra, la) && TrieInv(v, b, rb, lb)
    requires InsertedAt(a, la, b, lb, path, value) && b != []
    requires p != path
    ensures LookupOf(v, b, rb, p) == LookupOf(v, a, ra, p)
  {
    var j := Walk(b, rb, p);
    if j == NULL {
      if Walk(a, ra, p) != NULL {
        WalkExtends(a, b, ra, p);
      }
    } else {
      RootWalkLabel(v, b, rb, lb, p);
      if j < |a| {
        WalkBackward(a, b, ra, p);
      } else if Walk(a, ra, p) != NULL {
        WalkExtends(a, b, ra, p);
        assert false;
      }
    }
  }

  /**
   * The lookup effect of a successful Insert of `value` under `path`: the
   * path now yields the value, every other path yields what it yielded
   * before, and NumEntries grew by exactly 1.
   */
  lemma {:induction false} InsertLookups(v: Variant, a: seq<Node>, ra: int, la: seq<seq<int>>, b: seq<Node>, rb: int, lb: seq<seq<int>>,
                      path: seq<int>, value: Bytes)
    requires TrieInv(v, a, ra, la) && TrieInv(v, b, rb, lb)
    requires InsertedAt(a, la, b, lb, path, value) && Walk(b, rb, path) != NULL
    ensures LookupOf(v, b, rb, path) == Some(value)
    ensures forall p :: p != path ==> LookupOf(v, b, rb, p) == LookupOf(v, a, ra, p)
    ensures NumEntriesOf(b, rb) == NumEntriesOf(a, ra) + 1
  {
    RootWalkLabel(v, b, rb, lb, path);
    forall p | p != path
      ensures LookupOf(v, b, rb, p) == LookupOf(v, a, ra, p)
    {
      InsertLookupOther(v, a, ra, la, b, rb, lb, path, value, p);
    }
    assert lb[0] == [] <= path;
  }

  /** Every slot index of the path lies inside a node of the variant. */
  predicate InFanout(v: Variant, path: seq<int>)
  {
    forall j :: 0 <= j < |path| ==> 0 <= path[j] < Fanout(v)
  }

  /** The slot `rover` points to: the root pointer while parent is NULL, else slot `slot` of `parent`. */
  function Rover(nodes: seq<Node>, root: int, parent: int, slot: int): int
  {
    if parent == NULL then root else Child(nodes, parent, slot)
  }

  /**
   * The state of Insert's loop after i steps along `path`, starting from the
   * tree (a, ra, la): `rover` is the root pointer while parent is NULL, and
   * otherwise slot `slot` of the node `parent` of the previous step.
   */
  ghost predicate Walking(v: Variant, a: seq<Node>, ra: int, la: seq<seq<int>>, b: seq<Node>, rb: int, lb: seq<seq<int>>,
                          path: seq<int>, i: nat, parent: int, slot: int)
  {
    && i <= |path| && InFanout(v, path)
    && TrieInv(v, a, ra, la)
    && TrieInv(v, b, rb, lb) && PartialInsert(a, la, b, lb, path, i)
    && (i == 0 <==> parent == NULL)
    && (i == 0 ==> b == a && rb == ra && lb == la)
    && (i > 0 ==> 0 <= parent < |b| && lb[parent] == path[..i - 1] && slot == path[i - 1] && 0 <= slot < |b[parent].next|)
  }

  /** The state when Insert's loop reaches the end of the key at the terminal n. */
  ghost predicate Walked(v: Variant, a: seq<Node>, ra: int, la: seq<seq<int>>, b: seq<Node>, rb: int, lb: seq<seq<int>>,
                         path: seq<int>, n: int)
  {
    && TrieInv(v, a, ra, la)
    && TrieInv(v, b, rb, lb) && PartialInsert(a, la, b, lb, path, |path| + 1)
    && 0 <= n < |b| && lb[n] == path
    && (a != [] ==> rb == ra)
  }

  /** One iteration of Insert's loop whose rover is empty: install a fresh node there and count it. */
  lemma {:induction false} StepInstalled(v: Variant, a: seq<Node>, ra: int, la: seq<seq<int>>, b: seq<Node>, rb: int, lb: seq<seq<int>>,
                      path: seq<int>, i: nat, parent: int, slot: int)
    requires Walking(v, a, ra, la, b, rb, lb, path, i, parent, slot)
    requires Rover(b, rb, parent, slot) == NULL
    ensures parent == NULL || (0 <= parent < |b| && 0 <= slot < |b[parent].next|)
    ensures var c := Bump(Install(v, b, parent, slot), |b|);
            var rc := if parent == NULL then |b| else rb;
            var lc := lb + [path[..i]];
            && (i < |path| ==> Walking(v, a, ra, la, c, rc, lc, path, i + 1, |b|, path[i]))
            && (i == |path| ==> Walked(v, a, ra, la, c, rc, lc, path, |b|))
  {
    AdvanceInstalled(v, a, la, b, rb, lb, path, i, parent, slot);
    if i == |path| {
      assert path[..i] == path;
    }
  }

  /** One iteration of Insert's loop whose rover holds a node: count it. */
  lemma {:induction false} StepExisting(v: Variant, a: seq<Node>, ra: int, la: seq<seq<int>>, b: seq<Node>, rb: int, lb: seq<seq<int>>,
                     path: seq<int>, i: nat, parent: int, slot: int)
    requires Walking(v, a, ra, la, b, rb, lb, path, i, parent, slot)
    requires Rover(b, rb, parent, slot) != NULL
    ensures 0 <= Rover(b, rb, parent, slot) < |b|
    ensures var n := Rover(b, rb, parent, slot);
            var c := Bump(b, n);
            && (i < |path| ==> Walking(v, a, ra, la, c, rb, lb, path, i + 1, n, path[i]))
            && (i == |path| ==> Walked(v, a, ra, la, c, rb, lb, path, n))
  {
    var n := Rover(b, rb, parent, slot);
    if parent == NULL {
      RootWalkLabel(v, b, rb, lb, []);
    } else {
      PrefixSnoc(path, i);
    }
    AdvanceExisting(v, a, la, b, rb, lb, path, i, n);
    if i == |path| {
      assert path[..i] == path;
    }
  }

  /**
   * Insert's last step for a key: storing the value at the terminal of a
   * completed walk gives the whole effect of a successful insert, stated
   * on the key's lookups.
   */
  lemma {:induction false} CompleteInsert(v: Variant, a: seq<Node>, ra: int, la: seq<seq<int>>, b: seq<Node>, rb: int, lb: seq<seq<int>>,
                       key: string, n: int, value: Bytes)
    requires Walked(v, a, ra, la, b, rb, lb, IdxPath(v, key), n)
    ensures TrieInv(v, Store(b, n, value), rb, lb)
    ensures InsertedAt(a, la, Store(b, n, value), lb, IdxPath(v, key), value)
    ensures b[n].data.Some? <==> LookupKey(v, a, ra, key).Some?
    ensures LookupKey(v, Store(b, n, value), rb, key) == Some(value)
    ensures forall k :: IdxPath(v, k) != IdxPath(v, key) ==>
              LookupKey(v, Store(b, n, value), rb, k) == LookupKey(v, a, ra, k)
    ensures NumEntriesOf(Store(b, n, value), rb) == NumEntriesOf(a, ra) + 1
  {
    var path := IdxPath(v, key);
    FinishInsert(v, a, ra, la, b, rb, lb, path, n, value);
    var c := Store(b, n, value);
    assert Walk(c, rb, lb[n]) == n;
    InsertLookups(v, a, ra, la, c, rb, lb, path, value);
  }

  // ---------------------------------------------------------------------
  // Delete

  /** What Delete does to the terminal: drop the data, decrement useCount (floored at 0), clear inUse at 0. */
  function ClearTerminal(n: Node): (r: Node)
    ensures r.data == None && r.next == n.next
    ensures n.useCount > 0 ==> r.useCount == n.useCount - 1
    ensures n.useCount == 0 ==> r.useCount == 0
    ensures r.inUse == 0 <==> n.useCount <= 1 || n.inUse == 0
  {
    var count := if n.useCount > 0 then n.useCount - 1 else 0;
    n.(data := None, useCount := count, inUse := if count == 0 then 0 else n.inUse)
  }

  /**
   * The effect of a successful Delete of `path` (its FindEnd is not NULL):
   * the trie invariant holds, the path is no longer found, every other path
   * is looked up as before, and NumEntries drops only when the empty key
   * (the root itself) is deleted.
   */
  lemma {:induction false} DeleteLookups(v: Variant, a: seq<Node>, ra: int, la: seq<seq<int>>, path: seq<int>)
    requires TrieInv(v, a, ra, la) && FindEndOf(v, a, ra, path) != NULL
    ensures var t := FindEndOf(v, a, ra, path);
            var b := a[t := ClearTerminal(a[t])];
            && TrieInv(v, b, ra, la)
            && LookupOf(v, b, ra, path) == None
            && (forall p :: p != path ==> LookupOf(v, b, ra, p) == LookupOf(v, a, ra, p))
            && NumEntriesOf(b, ra) == NumEntriesOf(a, ra) - (if path == [] && a[ra].useCount > 0 then 1 else 0)
  {
    var t := FindEndOf(v, a, ra, path);
    var b := a[t := ClearTerminal(a[t])];
    forall p
      ensures Walk(b, ra, p) == Walk(a, ra, p)
    {
      WalkSameShape(a, b, ra, p);
    }
    assert Reachable(b, ra, la);
    RootWalkLabel(v, a, ra, la, path);
    forall p | p != path
      ensures LookupOf(v, b, ra, p) == LookupOf(v, a, ra, p)
    {
      if Walk(a, ra, p) != NULL {
        RootWalkLabel(v, a, ra, la, p);
      }
    }
    if path == [] {
      assert t == ra;
    } else {
      assert t != ra;
    }
  }
}
