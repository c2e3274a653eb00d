/** The rule tree as shared memory: an append-only file of typed objects that refer
    to each other by offset, and the unbalanced binary tree kept inside it
    (rule_tree/rule_tree.c, include/rule_tree.h). */
module RuleTreeStore {
  import opened Offsets

  /** inodesimu_active_fields: the five RULETREE_INODESTAT_SIM_* bits, and the value of the
      bits that have no name. */
  datatype Mask = Mask(uid: bool, gid: bool, mode: bool, devNode: bool, suidSgid: bool, rest: nat)

  const NO_FIELDS: Mask := Mask(false, false, false, false, false, 0)

  /** A mode_t word, cut into the three groups of bits that the code masks out: the file type
      (S_IFMT), the suid and sgid bits, and all others. */
  datatype Mode = Mode(fmt: nat, suidSgid: nat, rest: nat)

  const NO_MODE: Mode := Mode(0, 0, 0)

  /** inodesimu_t: the simulated status of one inode; `active` is the bit mask of the
      fields that are being simulated. */
  datatype InodeSimu = InodeSimu(
    dev: nat, ino: bv64,
    rdev: nat, devmode: Mode,
    uid: nat, gid: nat,
    mode: Mode, suidsgid: Mode,
    active: Mask)

  const ZERO: InodeSimu := InodeSimu(0, 0, 0, NO_MODE, 0, 0, NO_MODE, NO_MODE, NO_FIELDS)

  /** ruletree_bintree_t: two keys, the offset of the record, and two links. */
  datatype Node = Node(key1: nat, key2: nat, value: nat, less: nat, more: nat)

  /** The nodes of the file by offset. A lookup that passes the magic and type checks of
      offset_to_ruletree_object_ptr is exactly a lookup that succeeds in this map. */
  type Nodes = map<nat, Node>

  const BINTREE_SIZE: nat := 40
  const INODESTAT_SIZE: nat := 56

  // ---------------------------------------------------------------- the tree

  datatype Direction = Here | Less | More

  /** The three-way comparison that both the search and the insertion perform. */
  function Compare(key1: nat, key2: nat, node: Node): Direction
  {
    if node.key1 == key1 && node.key2 == key2 then Here
    else if key1 < node.key1 || (key1 == node.key1 && key2 < node.key2) then Less
    else More
  }

  function Link(node: Node, d: Direction): nat
  {
    if d == Less then node.less else node.more
  }

  ghost predicate LinkOk(m: Nodes, p: nat, q: nat) {
    q == 0 || (p < q && q in m)
  }

  ghost predicate NodeOk(m: Nodes, p: nat)
    requires p in m
  {
    0 < p && LinkOk(m, p, m[p].less) && LinkOk(m, p, m[p].more)
  }

  /** Every tree link points forward to a complete node, which is what makes each search
      finite. */
  ghost predicate Forward(m: Nodes) {
    forall p {:trigger NodeOk(m, p)} :: p in m ==> NodeOk(m, p)
  }

  /** Where a search ends: at a node with the key, or at a null link. */
  datatype Place = Found(node: nat) | Missing(parent: nat, dir: Direction)

  /** The search path of a key, from the node at `p`. */
  ghost function Walk(m: Nodes, key1: nat, key2: nat,
                      p: nat, last: nat, dir: Direction): Place
    requires Forward(m)
    requires p == 0 || p in m
    decreases if p == 0 then {} else Above(m, p)
  {
    if p == 0 then Missing(last, dir)
    else
      assert NodeOk(m, p);
      var d := Compare(key1, key2, m[p]);
      if d == Here then Found(p)
      else if Link(m[p], d) == 0 then Missing(p, d)
      else
        AboveShrinks(m, p, Link(m[p], d));
        Walk(m, key1, key2, Link(m[p], d), p, d)
  }

  ghost function Search(m: Nodes, root: nat, key1: nat, key2: nat): Place
    requires Forward(m)
    requires root == 0 || root in m
  {
    Walk(m, key1, key2, root, 0, Here)
  }

  /** Filling one null link. */
  function WriteLink(m: Nodes, q: nat, d: Direction, n: nat): Nodes
    requires q in m
  {
    if d == Less then m[q := m[q].(less := n)] else m[q := m[q].(more := n)]
  }

  /** A node that nothing points to yet and that points to nothing. */
  ghost predicate FreshLeaf(m: Nodes, n: nat) {
    n in m && m[n].less == 0 && m[n].more == 0
  }

  ghost predicate CanLink(m: Nodes, q: nat, d: Direction, n: nat) {
    && Forward(m) && q in m && FreshLeaf(m, n) && q < n
    && d != Here && Link(m[q], d) == 0
  }

  lemma ForwardAfterLink(m: Nodes, q: nat, d: Direction, n: nat)
    requires CanLink(m, q, d, n)
    ensures Forward(WriteLink(m, q, d, n))
    ensures forall x :: x in WriteLink(m, q, d, n) <==> x in m
  {
    var m' := WriteLink(m, q, d, n);
    forall p | p in m' ensures NodeOk(m', p) {
      assert NodeOk(m, p);
    }
  }

  /** The single 32-bit store that publishes leaf `n` redirects exactly the searches
      that used to fall off at that null link; every other search is untouched. */
  lemma {:induction false} WalkAfterLink(m: Nodes, q: nat, d: Direction, n: nat,
                                         key1: nat, key2: nat, p: nat, last: nat, dir: Direction)
    requires CanLink(m, q, d, n)
    requires p in m
    ensures Forward(WriteLink(m, q, d, n))
    ensures
      var before := Walk(m, key1, key2, p, last, dir);
      var after := Walk(WriteLink(m, q, d, n), key1, key2, p, last, dir);
      if before == Missing(q, d) then
        if Compare(key1, key2, m[n]) == Here then after == Found(n)
        else after == Missing(n, Compare(key1, key2, m[n]))
      else after == before
    decreases Above(m, p)
  {
    var m' := WriteLink(m, q, d, n);
    ForwardAfterLink(m, q, d, n);
    assert NodeOk(m, p) && NodeOk(m', n);
    var c := Compare(key1, key2, m[p]);
    if c != Here {
      var nxt := Link(m[p], c);
      if nxt != 0 {
        AboveShrinks(m, p, nxt);
        WalkAfterLink(m, q, d, n, key1, key2, nxt, p, c);
      } else if p == q && c == d {
        var e := Compare(key1, key2, m[n]);
        assert Walk(m, key1, key2, 0, p, c) == Missing(q, d);
        assert e != Here ==> Walk(m', key1, key2, 0, n, e) == Missing(n, e);
        assert Walk(m', key1, key2, n, q, d) == if e == Here then Found(n) else Missing(n, e);
      } else {
        assert Walk(m, key1, key2, 0, p, c) == Missing(p, c) == Walk(m', key1, key2, 0, p, c);
      }
    }
  }

  /** Writes that touch no tree node and appends of unlinked objects do not move any search. */
  ghost predicate SameNodes(m: Nodes, m': Nodes) {
    forall p {:trigger m[p]} :: p in m ==> p in m' && m'[p] == m[p]
  }

  lemma {:induction false} WalkFrame(m: Nodes, m': Nodes,
                                     key1: nat, key2: nat, p: nat, last: nat, dir: Direction)
    requires Forward(m) && Forward(m')
    requires SameNodes(m, m')
    requires p == 0 || p in m
    ensures Walk(m', key1, key2, p, last, dir) == Walk(m, key1, key2, p, last, dir)
    decreases if p == 0 then {} else Above(m, p)
  {
    if p != 0 {
      assert NodeOk(m, p);
      var c := Compare(key1, key2, m[p]);
      if c != Here {
        WalkFrame(m, m', key1, key2, Link(m[p], c), p, c);
      }
    }
  }

  /** Links point forward, so a search ends behind where it stands. */
  lemma {:induction false} FoundIsAhead(m: Nodes, key1: nat, key2: nat, p: nat, last: nat, dir: Direction)
    requires Forward(m) && p in m
    ensures
      var r := Walk(m, key1, key2, p, last, dir);
      r.Found? ==> p <= r.node
    decreases Above(m, p)
  {
    assert NodeOk(m, p);
    var d := Compare(key1, key2, m[p]);
    if d != Here && Link(m[p], d) != 0 {
      AboveShrinks(m, p, Link(m[p], d));
      FoundIsAhead(m, key1, key2, Link(m[p], d), p, d);
    }
  }

  /** What the end of a search says about the node it ended at. */
  lemma {:induction false} WalkEnds(m: Nodes, key1: nat, key2: nat,
                                    p: nat, last: nat, dir: Direction)
    requires Forward(m)
    requires p in m
    ensures
      match Walk(m, key1, key2, p, last, dir)
      case Found(n) => n != 0 && n in m && m[n].key1 == key1 && m[n].key2 == key2
      case Missing(q, d) =>
        q != 0 && q in m && d != Here && d == Compare(key1, key2, m[q]) && Link(m[q], d) == 0
    decreases Above(m, p)
  {
    assert NodeOk(m, p);
    var c := Compare(key1, key2, m[p]);
    if c != Here {
      if Link(m[p], c) != 0 {
        AboveShrinks(m, p, Link(m[p], c));
        WalkEnds(m, key1, key2, Link(m[p], c), p, c);
      } else {
        assert Walk(m, key1, key2, 0, p, c) == Missing(p, c);
      }
    }
  }

  /** The index invariant: every node in the file, and not only those near the root, is
      where a search for its own key ends. `pending` exempts a node that has been
      appended but not linked yet. */
  ghost predicate Indexed(m: Nodes, root: nat, pending: set<nat>) {
    && Forward(m)
    && (root == 0 || (root in m && root !in pending))
    && (forall n {:trigger m[n]} :: n in m && n !in pending ==>
          root != 0 && Search(m, root, m[n].key1, m[n].key2) == Found(n))
  }

  /** Appending a node that nothing points to leaves every search as it was. */
  lemma IndexedAfterAppend(m: Nodes, root: nat, n: nat, leaf: Node)
    requires Indexed(m, root, {})
    requires n !in m && (forall p :: p in m ==> p < n) && 0 < n && leaf.less == 0 && leaf.more == 0
    ensures Indexed(m[n := leaf], root, {n})
    ensures forall key1, key2 ::
      Search(m[n := leaf], root, key1, key2) == Search(m, root, key1, key2)
  {
    var m' := m[n := leaf];
    forall p | p in m' ensures NodeOk(m', p) {
      assert p != n ==> NodeOk(m, p);
    }
    forall key1, key2
      ensures Search(m', root, key1, key2) == Search(m, root, key1, key2)
    {
      WalkFrame(m, m', key1, key2, root, 0, Here);
    }
  }

  /** Linking a fresh leaf at the null link its key's search fell off keeps the index and
      adds exactly that key. */
  lemma IndexedAfterLink(m: Nodes, root: nat, q: nat, d: Direction, n: nat)
    requires Indexed(m, root, {n}) && root != 0
    requires FreshLeaf(m, n) && q < n
    requires Search(m, root, m[n].key1, m[n].key2) == Missing(q, d)
    ensures CanLink(m, q, d, n)
    ensures Indexed(WriteLink(m, q, d, n), root, {})
    ensures forall key1, key2 ::
      Search(WriteLink(m, q, d, n), root, key1, key2).Found? <==>
      (Search(m, root, key1, key2).Found? || (key1 == m[n].key1 && key2 == m[n].key2))
  {
    WalkEnds(m, m[n].key1, m[n].key2, root, 0, Here);
    var m' := WriteLink(m, q, d, n);
    WalkAfterLink(m, q, d, n, m[n].key1, m[n].key2, root, 0, Here);
    forall x | x in m' ensures Search(m', root, m'[x].key1, m'[x].key2) == Found(x) {
      assert x in m;
      WalkAfterLink(m, q, d, n, m[x].key1, m[x].key2, root, 0, Here);
    }
    forall key1, key2
      ensures Search(m', root, key1, key2).Found? <==>
              (Search(m, root, key1, key2).Found? || (key1 == m[n].key1 && key2 == m[n].key2))
    {
      WalkAfterLink(m, q, d, n, key1, key2, root, 0, Here);
      if Search(m, root, key1, key2) == Missing(q, d) && Compare(key1, key2, m[n]) == Here {
        assert Search(m', root, key1, key2).Found?;
      }
    }
  }

  /** Append, then link: the whole insertion as the single writer performs it. */
  lemma IndexedAfterInsert(m: Nodes, root: nat, q: nat, d: Direction, n: nat, leaf: Node)
    requires Indexed(m, root, {}) && root != 0
    requires n !in m && (forall p :: p in m ==> p < n) && leaf.less == 0 && leaf.more == 0
    requires Search(m, root, leaf.key1, leaf.key2) == Missing(q, d)
    ensures q != 0 && q in m && d == Compare(leaf.key1, leaf.key2, m[q])
    ensures CanLink(m[n := leaf], q, d, n)
    ensures Indexed(WriteLink(m[n := leaf], q, d, n), root, {})
    ensures forall key1, key2 :: Search(m, root, key1, key2).Found? ==>
      Search(WriteLink(m[n := leaf], q, d, n), root, key1, key2).Found?
  {
    WalkEnds(m, leaf.key1, leaf.key2, root, 0, Here);
    IndexedAfterAppend(m, root, n, leaf);
    IndexedAfterLink(m[n := leaf], root, q, d, n);
  }

  /** The first node of the tree. */
  lemma IndexedSingleton(n: nat, leaf: Node)
    requires 0 < n && leaf.less == 0 && leaf.more == 0
    ensures Indexed(map[n := leaf], n, {})
  {
  }

  /** In an indexed store a search succeeds exactly when some node of the file carries the key:
      the file's own contents are the reference the index is measured against. */
  lemma SearchIsLookup(m: Nodes, root: nat, pending: set<nat>, key1: nat, key2: nat)
    requires Indexed(m, root, pending)
    ensures forall n :: n in m && n !in pending && m[n].key1 == key1 && m[n].key2 == key2
              ==> Search(m, root, key1, key2) == Found(n)
    ensures Search(m, root, key1, key2).Found? ==>
              var n := Search(m, root, key1, key2).node;
              n != 0 && n in m && m[n].key1 == key1 && m[n].key2 == key2
  {
    if root != 0 {
      WalkEnds(m, key1, key2, root, 0, Here);
    }
  }

  // ---------------------------------------------------------------- keys

  /** Reverses the low byte of the inode number into bits 32..39 (rule_tree.c:635). */
  function InoToKey(ino: bv64): bv64 {
    var k := ((((ino & 0xFF) * 0x80200802) & 0x0884422110) * 0x0101010101) << 24;
    k ^ ino
  }

  /** The key is its own inverse, so no two inodes of a device ever share a tree key. */
  lemma InoToKeyInvolution(ino: bv64)
    ensures InoToKey(InoToKey(ino)) == ino
  {
    var k := ((((ino & 0xFF) * 0x80200802) & 0x0884422110) * 0x0101010101) << 24;
    LowByteOfKey(ino, (((ino & 0xFF) * 0x80200802) & 0x0884422110) * 0x0101010101);
    assert (k ^ ino) & 0xFF == ino & 0xFF;
    assert k ^ (k ^ ino) == ino;
  }

  lemma LowByteOfKey(ino: bv64, mixed: bv64)
    ensures ((mixed << 24) ^ ino) & 0xFF == ino & 0xFF
  {
  }

  /** The two keys of an inode in the tree: the mixed inode number, then the device. */
  datatype TreeKey = TreeKey(key1: nat, key2: nat)

  function KeyFor(dev: nat, ino: bv64): TreeKey {
    TreeKey(InoToKey(ino) as nat, dev)
  }

  lemma Bv64RoundTrip(x: bv64)
    ensures (x as nat) as bv64 == x
  {
  }

  lemma Bv64AsNatInjective(x: bv64, y: bv64)
    requires x as nat == y as nat
    ensures x == y
  {
    Bv64RoundTrip(x);
    Bv64RoundTrip(y);
  }

  /** Distinct inodes never collide in the tree. */
  lemma KeyForInjective(dev: nat, ino: bv64, dev': nat, ino': bv64)
    ensures KeyFor(dev, ino) == KeyFor(dev', ino') <==> dev == dev' && ino == ino'
  {
    if KeyFor(dev, ino) == KeyFor(dev', ino') {
      Bv64AsNatInjective(InoToKey(ino), InoToKey(ino'));
      InoToKeyInvolution(ino);
      InoToKeyInvolution(ino');
    }
  }
}
