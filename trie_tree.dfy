/**
 * The trie trees of trietree.c (the ascii, digital, hex and octal families,
 * whose code is identical up to the fanout and the character mapper) as one
 * class over the node store of TrieStore.  `root` is the tree's root
 * pointer, `nodes` the allocated nodes, and the ghost `labels` records the
 * slot path of every node.
 */
module TrieTree {
  import opened Values
  import opened Alphabet
  import opened TrieStore

  /**
   * One iteration of the loop of `attInsert` and its siblings: take the
   * node the rover points at, installing a fresh one (inUse 1) when the
   * slot is empty, and add 1 to its useCount.
   */
  method CountRover(v: Variant, ghost a: seq<Node>, ghost ra: int, ghost la: seq<seq<int>>,
                    b: seq<Node>, rb: int, ghost lb: seq<seq<int>>, ghost path: seq<int>, ghost i: nat, parent: int, slot: int)
    returns (c: seq<Node>, rc: int, ghost lc: seq<seq<int>>, node: int)
    requires Walking(v, a, ra, la, b, rb, lb, path, i, parent, slot)
    ensures i < |path| ==> Walking(v, a, ra, la, c, rc, lc, path, i + 1, node, path[i])
    ensures i == |path| ==> Walked(v, a, ra, la, c, rc, lc, path, node)
  {
    node := if parent == NULL then rb else b[parent].next[slot];
    c, rc, lc := b, rb, lb;
    if node == NULL {
      StepInstalled(v, a, ra, la, b, rb, lb, path, i, parent, slot);
      node := |b|;
      c := Bump(Install(v, b, parent, slot), node);
      if parent == NULL {
        rc := node;
      }
      lc := lb + [path[..i]];
    } else {
      StepExisting(v, a, ra, la, b, rb, lb, path, i, parent, slot);
      c := Bump(b, node);
    }
  }

  class Trie {
    /** Which of the four families this tree belongs to. */
    const variant: Variant
    var nodes: seq<Node>
    var root: int
    ghost var labels: seq<seq<int>>

    ghost predicate Valid()
      reads this
    {
      TrieInv(variant, nodes, root, labels)
    }

    /** `attInit` and its siblings: a tree with a NULL root. */
    constructor (v: Variant)
      ensures Valid() && variant == v
      ensures nodes == [] && root == NULL
      ensures NumEntriesOf(nodes, root) == 0
      ensures forall key :: LookupKey(v, nodes, root, key) == None
    {
      variant := v;
      nodes := [];
      root := NULL;
      labels := [];
    }

    /**
     * `attFindEnd` and its siblings: follow the key's slots from the root;
     * NULL if a slot on the way is empty, or (all but the digital family)
     * if the node reached is not in use.
     */
    method FindEnd(key: string) returns (node: int)
      requires Valid() && Indexable(variant, key)
      ensures node == FindEndOf(variant, nodes, root, IdxPath(variant, key))
      ensures node != NULL ==> 0 <= node < |nodes| && labels[node] == IdxPath(variant, key)
    {
      ghost var path := IdxPath(variant, key);
      node := root;
      var i := 0;
      while i < |key|
        invariant 0 <= i <= |key|
        invariant node == NULL || 0 <= node < |nodes|
        invariant Walk(nodes, root, path) == Walk(nodes, node, path[i..])
      {
        if node == NULL {
          return;
        }
        assert path[i..][1..] == path[i + 1..];
        node := nodes[node].next[Idx(variant, key[i])];
        i := i + 1;
      }
      if node == NULL || (ChecksInUse(variant) && nodes[node].inUse == 0) {
        node := NULL;
      } else {
        RootWalkLabel(variant, nodes, root, labels, path);
      }
    }

    /** `attLookup` and its siblings: the data of the node FindEnd returns, NULL when there is none. */
    method Lookup(key: string) returns (r: Option<Bytes>)
      requires Valid() && Indexable(variant, key)
      ensures r == LookupKey(variant, nodes, root, key)
    {
      var node := FindEnd(key);
      if node != NULL {
        r := nodes[node].data;
      } else {
        r := None;
      }
    }

    /** `attNumEntries` and its siblings: the root's useCount, 0 while the root is NULL. */
    method NumEntries() returns (n: nat)
      requires Valid()
      ensures n == NumEntriesOf(nodes, root)
    {
      if root == NULL {
        n := 0;
      } else {
        n := nodes[root].useCount;
      }
    }

    /**
     * The loop of `attInsert` and its siblings, on a copy of the store:
     * walk the key's slots from the root pointer, put a fresh node (inUse 1)
     * into every empty slot on the way, and add 1 to the useCount of every
     * node on the path, the terminal `node` included.
     */
    method WalkCreating(key: string) returns (ns: seq<Node>, r: int, ghost ls: seq<seq<int>>, node: int)
      requires Valid() && Indexable(variant, key)
      ensures Walked(variant, nodes, root, labels, ns, r, ls, IdxPath(variant, key), node)
    {
      ghost var path := IdxPath(variant, key);
      assert InFanout(variant, path);
      ns, r, ls := nodes, root, labels;
      // `rover`: the root pointer while parent is NULL, else slot `slot` of node `parent`
      var parent, slot := NULL, 0;
      var i := 0;
      while true
        invariant Walking(variant, nodes, root, labels, ns, r, ls, path, i, parent, slot)
        invariant i <= |key|
        decreases |key| - i
      {
        ns, r, ls, node := CountRover(variant, nodes, root, labels, ns, r, ls, path, i, parent, slot);
        if i == |key| {
          return;
        }
        parent, slot := node, Idx(variant, key[i]);
        i := i + 1;
      }
    }

    /**
     * `attInsert` and its siblings.  A NULL value is refused with 0.
     * Otherwise the key's path is walked (WalkCreating) and the terminal
     * receives the value and 1 more inUse; the result is 2 if the terminal
     * already held data, else 1.
     */
    method Insert(key: string, value: Option<Bytes>) returns (ret: int)
      requires Valid() && Indexable(variant, key)
      modifies this
      ensures Valid()
      ensures value == None ==> ret == 0 && nodes == old(nodes) && root == old(root) && labels == old(labels)
      ensures value.Some? ==> ret == if old(LookupKey(variant, nodes, root, key)).Some? then 2 else 1
      ensures value.Some? ==> InsertedAt(old(nodes), old(labels), nodes, labels, IdxPath(variant, key), value.value)
      ensures value.Some? ==> LookupKey(variant, nodes, root, key) == value
      ensures value.Some? ==> forall k :: IdxPath(variant, k) != IdxPath(variant, key) ==>
                LookupKey(variant, nodes, root, k) == old(LookupKey(variant, nodes, root, k))
      ensures value.Some? ==> NumEntriesOf(nodes, root) == old(NumEntriesOf(nodes, root)) + 1
    {
      if value == None {
        return 0;
      }
      var ns, r, ls, node := WalkCreating(key);
      ret := if ns[node].data.Some? then 2 else 1;
      CompleteInsert(variant, nodes, root, labels, ns, r, ls, key, node, value.value);
      nodes, root, labels := Store(ns, node, value.value), r, ls;
    }

    /**
     * `attDelete` and its siblings: -1 if FindEnd finds no node; otherwise
     * the node's data is dropped, its useCount decremented (not below 0),
     * its inUse cleared once the count is 0, and the result is 0.
     */
    method Delete(key: string) returns (r: int)
      requires Valid() && Indexable(variant, key)
      modifies this
      ensures Valid() && root == old(root) && labels == old(labels)
      ensures var t := old(FindEndOf(variant, nodes, root, IdxPath(variant, key)));
              && r == (if t == NULL then -1 else 0)
              && nodes == if t == NULL then old(nodes) else old(nodes[t := ClearTerminal(nodes[t])])
      ensures LookupKey(variant, nodes, root, key) == None
      ensures forall k :: IdxPath(variant, k) != IdxPath(variant, key) ==>
                LookupKey(variant, nodes, root, k) == old(LookupKey(variant, nodes, root, k))
    {
      var node := FindEnd(key);
      if node == NULL {
        return -1;
      }
      DeleteLookups(variant, nodes, root, labels, IdxPath(variant, key));
      var n := nodes[node];
      n := n.(data := None);
      if n.useCount > 0 {
        n := n.(useCount := n.useCount - 1);
      }
      if n.useCount == 0 {
        n := n.(inUse := 0);
      }
      nodes := nodes[node := n];
      r := 0;
    }
  }
}
