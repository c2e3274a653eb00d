/** ruletree_find_inodestat and ruletree_set_inodestat: the inode records of the
    permission simulation, kept in the binary tree of the rule tree file. */
module InodeTree {
  import opened Offsets
  import opened RuleTreeStore

  type Records = map<nat, InodeSimu>

  function KeyAt(node: Node): TreeKey {
    TreeKey(node.key1, node.key2)
  }

  /** The plain map that nodes and records stand for: every node in the file contributes its
      key and its record, and there are no other keys. */
  ghost predicate Represents(nodes: Nodes, records: Records, root: nat,
                             contents: map<TreeKey, InodeSimu>)
    requires Forward(nodes) && (root == 0 || root in nodes)
  {
    && (forall n {:trigger nodes[n]} :: n in nodes ==>
          && nodes[n].value in records && KeyAt(nodes[n]) in contents
          && contents[KeyAt(nodes[n])] == records[nodes[n].value])
    && (forall k {:trigger k in contents} :: k in contents ==> Search(nodes, root, k.key1, k.key2).Found?)
  }

  /** Everything lies inside the file, and each record stands right before its own node, so
      no two keys share a record. */
  ghost predicate Allocated(nodes: Nodes, records: Records, size: nat) {
    && 0 < size
    && (forall n {:trigger nodes[n]} :: n in nodes ==> n < size && nodes[n].value + INODESTAT_SIZE == n)
    && (forall v :: v in records ==> v < size)
  }

  /** A search in the tree answers exactly like a lookup in the map. */
  lemma SearchRefinesMap(nodes: Nodes, records: Records, root: nat,
                         contents: map<TreeKey, InodeSimu>, k: TreeKey)
    requires Indexed(nodes, root, {})
    requires Represents(nodes, records, root, contents)
    ensures
      match Search(nodes, root, k.key1, k.key2)
      case Found(n) =>
        && n != 0 && n in nodes && KeyAt(nodes[n]) == k && k in contents
        && nodes[n].value in records && contents[k] == records[nodes[n].value]
      case Missing(_, _) => k !in contents
  {
    SearchIsLookup(nodes, root, {}, k.key1, k.key2);
    match Search(nodes, root, k.key1, k.key2)
    case Found(n) =>
      assert KeyAt(nodes[n]) == k;
    case Missing(_, _) =>
  }

  /** Overwriting one record in place changes the map at its key only. */
  lemma RepresentsAfterUpdate(nodes: Nodes, records: Records, size: nat, root: nat,
                              contents: map<TreeKey, InodeSimu>, n: nat, simu: InodeSimu)
    requires Indexed(nodes, root, {}) && Allocated(nodes, records, size)
    requires Represents(nodes, records, root, contents)
    requires n in nodes
    ensures Represents(nodes, records[nodes[n].value := simu], root, contents[KeyAt(nodes[n]) := simu])
    ensures Allocated(nodes, records[nodes[n].value := simu], size)
  {
    var k, v := KeyAt(nodes[n]), nodes[n].value;
    var records', contents' := records[v := simu], contents[k := simu];
    assert v in records && k in contents;
    forall p | p in nodes
      ensures nodes[p].value in records' && KeyAt(nodes[p]) in contents'
           && contents'[KeyAt(nodes[p])] == records'[nodes[p].value]
    {
      if p != n {
        assert Search(nodes, root, nodes[p].key1, nodes[p].key2) == Found(p);
        assert Search(nodes, root, nodes[n].key1, nodes[n].key2) == Found(n);
      }
    }
  }

  /** The nodes of `m'` are those of `m`, with the same keys and records, and `n`. */
  ghost predicate Grown(m: Nodes, m': Nodes, n: nat, k: TreeKey, v: nat) {
    && m'.Keys == m.Keys + {n}
    && KeyAt(m'[n]) == k && m'[n].value == v
    && (forall p {:trigger m'[p]} {:trigger m[p]} :: p in m ==>
          KeyAt(m'[p]) == KeyAt(m[p]) && m'[p].value == m[p].value)
  }

  /** A new record `v` with its node `n` extends the map by exactly one key. */
  lemma RepresentsAfterAdd(nodes: Nodes, records: Records, size: nat, root: nat,
                           contents: map<TreeKey, InodeSimu>,
                           k: TreeKey, simu: InodeSimu, n: nat, nodes': Nodes, root': nat)
    requires Indexed(nodes, root, {}) && Allocated(nodes, records, size)
    requires Represents(nodes, records, root, contents)
    requires Indexed(nodes', root', {})
    requires size <= n && k !in contents
    requires Grown(nodes, nodes', n, k, size)
    requires forall key1, key2 :: Search(nodes, root, key1, key2).Found? ==>
      Search(nodes', root', key1, key2).Found?
    ensures Represents(nodes', records[size := simu], root', contents[k := simu])
  {
    var records', contents' := records[size := simu], contents[k := simu];
    assert n !in nodes && size !in records;
    forall p | p in nodes'
      ensures nodes'[p].value in records' && KeyAt(nodes'[p]) in contents'
           && contents'[KeyAt(nodes'[p])] == records'[nodes'[p].value]
    {
      if p != n {
        assert contents[KeyAt(nodes[p])] == records[nodes[p].value];
      }
    }
    assert Search(nodes', root', nodes'[n].key1, nodes'[n].key2) == Found(n);
  }

  lemma AllocatedAfterAdd(nodes: Nodes, records: Records, size: nat,
                          k: TreeKey, simu: InodeSimu, n: nat, nodes': Nodes, size': nat)
    requires Allocated(nodes, records, size)
    requires n == size + INODESTAT_SIZE < size'
    requires Grown(nodes, nodes', n, k, size)
    ensures Allocated(nodes', records[size := simu], size')
  {
    forall p | p in nodes' ensures p < size' && nodes'[p].value + INODESTAT_SIZE == p {
      if p != n {
        assert nodes[p].value + INODESTAT_SIZE == p;
      }
    }
  }

  lemma GrownByInsert(m: Nodes, q: nat, d: Direction, n: nat, k: TreeKey, v: nat)
    requires n !in m && q in m
    ensures Grown(m, WriteLink(m[n := Node(k.key1, k.key2, v, 0, 0)], q, d, n), n, k, v)
  {
  }

  /** ruletree_inodestat_handle_t: the keys, and where the last search for them ended. */
  datatype Handle = Handle(key: TreeKey, offs: nat, last: nat, dir: Direction)

  class RuleTree {
    var nodes: Nodes
    var records: Records
    var fileSize: nat
    var rootCell: nat    // value of the catalog entry vperm::inodestats
    var cachedRoot: nat  // this process' copy of it, 0 until it has been read
    ghost var contents: map<TreeKey, InodeSimu>

    ghost predicate Valid()
      reads this
    {
      && Indexed(nodes, rootCell, {})
      && Allocated(nodes, records, fileSize)
      && Represents(nodes, records, rootCell, contents)
      && (cachedRoot == 0 || cachedRoot == rootCell)
    }

    /** A session starts with the entry of the vperm catalog present and empty. */
    constructor (size: nat)
      requires 0 < size
      ensures Valid() && contents == map[] && fileSize == size
    {
      nodes, records := map[], map[];
      fileSize := size;
      rootCell, cachedRoot := 0, 0;
      contents := map[];
    }

    /** The search loop. */
    method FindBintreeEntry(key1: nat, key2: nat, root: nat)
      returns (offs: nat, last: nat, dir: Direction)
      requires Forward(nodes)
      requires root == 0 || root in nodes
      ensures Search(nodes, root, key1, key2) ==
              if offs != 0 then Found(offs) else Missing(last, dir)
    {
      last, dir := 0, Here;
      var node := root;
      while node != 0
        invariant node == 0 || node in nodes
        invariant Walk(nodes, key1, key2, node, last, dir) == Search(nodes, root, key1, key2)
        decreases if node == 0 then {} else Above(nodes, node)
      {
        assert NodeOk(nodes, node);
        var c := Compare(key1, key2, nodes[node]);
        if c == Here {
          return node, last, dir;
        }
        if Link(nodes[node], c) != 0 {
          AboveShrinks(nodes, node, Link(nodes[node], c));
        }
        last, dir, node := node, c, Link(nodes[node], c);
      }
      offs := 0;
    }

    /** A handle that describes the store as it is now. */
    ghost predicate Fresh(h: Handle)
      reads this
      requires Valid()
    {
      Search(nodes, rootCell, h.key.key1, h.key.key2) ==
        if h.offs != 0 then Found(h.offs) else Missing(h.last, h.dir)
    }

    method FindInodestat(key: TreeKey) returns (h: Handle, found: bool, simu: InodeSimu)
      requires Valid()
      modifies `cachedRoot
      ensures Valid()
      ensures h.key == key && Fresh(h)
      ensures found <==> key in contents
      ensures found ==> simu == contents[key]
    {
      SearchRefinesMap(nodes, records, rootCell, contents, key);
      simu := ZERO;
      h := Handle(key, 0, 0, Here);
      if cachedRoot == 0 {
        cachedRoot := rootCell;
        if cachedRoot == 0 {
          found := false;
          return;
        }
      }
      var offs, last, dir := FindBintreeEntry(key.key1, key.key2, cachedRoot);
      h := Handle(key, offs, last, dir);
      if offs == 0 {
        found := false;
        return;
      }
      simu := records[nodes[offs].value];
      found := true;
    }

    /** ruletree_create_bintree_entry and append_struct_to_ruletree_file: the node goes to
        the end of the file. */
    method CreateBintreeEntry(key: TreeKey, value: nat) returns (loc: nat)
      modifies `nodes, `fileSize
      ensures loc == old(fileSize) && fileSize == loc + BINTREE_SIZE
      ensures nodes == old(nodes)[loc := Node(key.key1, key.key2, value, 0, 0)]
    {
      loc := fileSize;
      nodes := nodes[loc := Node(key.key1, key.key2, value, 0, 0)];
      fileSize := fileSize + BINTREE_SIZE;
    }

    method CreateInodestat(simu: InodeSimu) returns (loc: nat)
      modifies `records, `fileSize
      ensures loc == old(fileSize) && fileSize == loc + INODESTAT_SIZE
      ensures records == old(records)[loc := simu]
    {
      loc := fileSize;
      records := records[loc := simu];
      fileSize := fileSize + INODESTAT_SIZE;
    }

    /** Stores the offset of node `n` into the null link the search ended at. The branches
        that find the link taken, or the direction wrong, are dead for a fresh handle. */
    method LinkNode(n: nat, last: nat, dir: Direction)
      requires n in nodes && CanLink(nodes, last, dir, n)
      requires dir == Compare(nodes[n].key1, nodes[n].key2, nodes[last])
      modifies `nodes
      ensures nodes == WriteLink(old(nodes), last, dir, n)
    {
      var c := Compare(nodes[n].key1, nodes[n].key2, nodes[last]);
      match dir {
        case Less =>
          if c == Less {
            if nodes[last].less != 0 {
              assert false;
            } else {
              nodes := nodes[last := nodes[last].(less := n)];
            }
          } else {
            assert false;
          }
        case More =>
          if c == Less {
            assert false;
          } else if nodes[last].more != 0 {
            assert false;
          } else {
            nodes := nodes[last := nodes[last].(more := n)];
          }
        case Here =>
          assert false;
      }
    }

    /** Appends a node and links it. Returns the new root, or 0 when there already was one. */
    method AddToBintree(value: nat, key: TreeKey, last: nat, dir: Direction) returns (newRoot: nat)
      requires 0 < fileSize && Indexed(nodes, rootCell, {})
      requires forall n :: n in nodes ==> n < fileSize
      requires Search(nodes, rootCell, key.key1, key.key2) == Missing(last, dir)
      modifies `nodes, `fileSize
      ensures fileSize == old(fileSize) + BINTREE_SIZE
      ensures Indexed(nodes, if newRoot != 0 then newRoot else rootCell, {})
      ensures newRoot != 0 <==> rootCell == 0
      ensures Grown(old(nodes), nodes, old(fileSize), key, value)
      ensures forall key1, key2 :: Search(old(nodes), rootCell, key1, key2).Found? ==>
        Search(nodes, if newRoot != 0 then newRoot else rootCell, key1, key2).Found?
    {
      ghost var leaf := Node(key.key1, key.key2, value, 0, 0);
      if rootCell == 0 {
        IndexedSingleton(fileSize, leaf);
        assert nodes == map[];
      } else {
        IndexedAfterInsert(nodes, rootCell, last, dir, fileSize, leaf);
        GrownByInsert(nodes, last, dir, fileSize, key, value);
      }
      if last == 0 {
        newRoot := CreateBintreeEntry(key, value);
      } else {
        newRoot := 0;
        var n := CreateBintreeEntry(key, value);
        LinkNode(n, last, dir);
      }
    }

    /** The in-place branch of ruletree_set_inodestat. */
    method UpdateRecord(h: Handle, simu: InodeSimu)
      requires Valid() && Fresh(h) && h.offs != 0
      modifies `records, `contents
      ensures Valid()
      ensures h.key in old(contents) && contents == old(contents)[h.key := simu]
    {
      SearchRefinesMap(nodes, records, rootCell, contents, h.key);
      RepresentsAfterUpdate(nodes, records, fileSize, rootCell, contents, h.offs, simu);
      records := records[nodes[h.offs].value := simu];
      contents := contents[h.key := simu];
    }

    /** The appending branch of ruletree_set_inodestat. */
    method AddRecord(h: Handle, simu: InodeSimu) returns (newRoot: nat)
      requires Valid() && Fresh(h) && h.offs == 0
      modifies this
      ensures Valid()
      ensures h.key !in old(contents) && contents == old(contents)[h.key := simu]
      ensures fileSize == old(fileSize) + INODESTAT_SIZE + BINTREE_SIZE
    {
      hide Indexed, Represents, Grown;
      SearchRefinesMap(nodes, records, rootCell, contents, h.key);
      ghost var nodes0, records0, size0, root0 := nodes, records, fileSize, rootCell;
      var v := CreateInodestat(simu);
      newRoot := AddToBintree(v, h.key, h.last, h.dir);
      ghost var n := size0 + INODESTAT_SIZE;
      if newRoot != 0 {
        rootCell := newRoot;
      }
      RepresentsAfterAdd(nodes0, records0, size0, root0, contents, h.key, simu, n, nodes, rootCell);
      AllocatedAfterAdd(nodes0, records0, size0, h.key, simu, n, nodes, fileSize);
      contents := contents[h.key := simu];
    }

    /** Updates the record of a key that is present, or adds the key. */
    method SetInodestat(h: Handle, simu: InodeSimu)
      requires Valid() && Fresh(h)
      modifies this
      ensures Valid()
      ensures contents == old(contents)[h.key := simu]
      ensures fileSize == old(fileSize) +
                (if h.key in old(contents) then 0 else INODESTAT_SIZE + BINTREE_SIZE)
    {
      if h.offs != 0 {
        UpdateRecord(h, simu);
      } else {
        var _ := AddRecord(h, simu);
      }
    }
  }
}
