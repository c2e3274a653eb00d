/** Readers of the rule tree take no lock while sb2d, the only writer, appends to it. This
    is the interleaving of the writer's single stores with the readers' single loads; 32-bit
    stores are atomic, as the server's own header comment assumes. */
module LockFree {
  import opened RuleTreeStore
  import opened InodeTree

  /** The steps of one insertion: each append first fills the bytes behind the end of the
      file, then moves rtree_file_size; the last step stores one link. */
  datatype Writer =
    | Idle
    | WritingRecord(key: TreeKey, simu: InodeSimu, parent: nat, dir: Direction)
    | RecordWritten(key: TreeKey, parent: nat, dir: Direction)
    | RecordPublished(key: TreeKey, value: nat, parent: nat, dir: Direction)
    | WritingNode(key: TreeKey, value: nat, parent: nat, dir: Direction)
    | NodeWritten(node: nat, parent: nat, dir: Direction)
    | NodePublished(node: nat, parent: nat, dir: Direction)

  /** A reader's answer. `Broken` is a dereference of something that is not a complete node
      inside the published file. */
  datatype Answer = FoundAt(node: nat) | NotFound | Broken

  /** `since` is the set of keys that were linked when the search began. */
  datatype Reader =
    | Started(key: TreeKey, since: iset<TreeKey>)
    | AtNode(key: TreeKey, since: iset<TreeKey>, node: nat)
    | Finished(key: TreeKey, since: iset<TreeKey>, answer: Answer)

  datatype State = State(
    nodes: Nodes,
    records: Records,
    fileSize: nat,
    rootCell: nat,
    writer: Writer,
    readers: map<nat, Reader>)

  datatype Step =
    | BeginAdd(key: TreeKey, simu: InodeSimu)
    | WriterStep
    | Scribble(record: nat, simu: InodeSimu)  // any word-by-word state of an in-place update
    | ReaderStart(reader: nat, key: TreeKey)
    | ReaderStep(reader: nat)

  /** The node that has been written but that no link reaches yet. */
  function Pending(w: Writer): set<nat> {
    if w.NodeWritten? || w.NodePublished? then {w.node} else {}
  }

  ghost predicate Linked(s: State, k: TreeKey)
    requires Forward(s.nodes) && (s.rootCell == 0 || s.rootCell in s.nodes)
  {
    Search(s.nodes, s.rootCell, k.key1, k.key2).Found?
  }

  // ---------------------------------------------------------------- the protocol

  /** The writer first searches, alone, and only adds a key that is missing. */
  ghost function DoBeginAdd(s: State, key: TreeKey, simu: InodeSimu): State
    requires Inv(s)
  {
    if !s.writer.Idle? then s
    else match Search(s.nodes, s.rootCell, key.key1, key.key2)
      case Found(_) => s
      case Missing(q, d) => s.(writer := WritingRecord(key, simu, q, d))
  }

  ghost function DoWriterStep(s: State): State
    requires Inv(s)
  {
    match s.writer
    case Idle => s
    case WritingRecord(k, simu, q, d) =>
      s.(records := s.records[s.fileSize := simu], writer := RecordWritten(k, q, d))
    case RecordWritten(k, q, d) =>
      s.(fileSize := s.fileSize + INODESTAT_SIZE, writer := RecordPublished(k, s.fileSize, q, d))
    case RecordPublished(k, v, q, d) =>
      s.(writer := WritingNode(k, v, q, d))
    case WritingNode(k, v, q, d) =>
      s.(nodes := s.nodes[s.fileSize := Node(k.key1, k.key2, v, 0, 0)],
         writer := NodeWritten(s.fileSize, q, d))
    case NodeWritten(n, q, d) =>
      s.(fileSize := s.fileSize + BINTREE_SIZE, writer := NodePublished(n, q, d))
    case NodePublished(n, q, d) =>
      if q == 0 then s.(rootCell := n, writer := Idle)
      else if q in s.nodes then s.(nodes := WriteLink(s.nodes, q, d, n), writer := Idle)
      else s.(writer := Idle)
  }

  /** One load by a reader: of the root cell, or of the link it follows from a node whose
      keys never change. */
  ghost function DoReaderStep(s: State, r: Reader): Reader
    requires Inv(s)
  {
    match r
    case Started(k, since) =>
      if s.rootCell == 0 then Finished(k, since, NotFound) else AtNode(k, since, s.rootCell)
    case AtNode(k, since, p) =>
      if p >= s.fileSize || p !in s.nodes then Finished(k, since, Broken)
      else
        var c := Compare(k.key1, k.key2, s.nodes[p]);
        if c == Here then Finished(k, since, FoundAt(p))
        else
          var nxt := Link(s.nodes[p], c);
          if nxt == 0 then Finished(k, since, NotFound) else AtNode(k, since, nxt)
    case Finished(_, _, _) => r
  }

  ghost function Apply(s: State, step: Step): State
    requires Inv(s)
  {
    match step
    case BeginAdd(k, simu) => DoBeginAdd(s, k, simu)
    case WriterStep => DoWriterStep(s)
    case Scribble(v, simu) => if v in s.records then s.(records := s.records[v := simu]) else s
    case ReaderStart(i, k) =>
      s.(readers := s.readers[i := Started(k, iset j: TreeKey | Linked(s, j))])
    case ReaderStep(i) =>
      if i in s.readers then s.(readers := s.readers[i := DoReaderStep(s, s.readers[i])]) else s
  }

  // ---------------------------------------------------------------- the invariant

  /** What the writer has prepared still fits the tree. */
  ghost predicate WriterOk(s: State)
    requires Forward(s.nodes) && (s.rootCell == 0 || s.rootCell in s.nodes)
  {
    match s.writer
    case Idle => true
    case WritingRecord(k, _, q, d) => Search(s.nodes, s.rootCell, k.key1, k.key2) == Missing(q, d)
    case RecordWritten(k, q, d) =>
      s.fileSize in s.records && Search(s.nodes, s.rootCell, k.key1, k.key2) == Missing(q, d)
    case RecordPublished(k, v, q, d) =>
      v in s.records && v < s.fileSize && Search(s.nodes, s.rootCell, k.key1, k.key2) == Missing(q, d)
    case WritingNode(k, v, q, d) =>
      v in s.records && v < s.fileSize && Search(s.nodes, s.rootCell, k.key1, k.key2) == Missing(q, d)
    case NodeWritten(n, q, d) => ReadyToLink(s, n, q, d) && n == s.fileSize
    case NodePublished(n, q, d) => ReadyToLink(s, n, q, d) && n < s.fileSize
  }

  ghost predicate ReadyToLink(s: State, n: nat, q: nat, d: Direction)
    requires Forward(s.nodes) && (s.rootCell == 0 || s.rootCell in s.nodes)
  {
    && FreshLeaf(s.nodes, n)
    && (forall p {:trigger s.nodes[p]} :: p in s.nodes ==>
          s.nodes[p].less != n && s.nodes[p].more != n && (p != n ==> p < n))
    && Search(s.nodes, s.rootCell, s.nodes[n].key1, s.nodes[n].key2) == Missing(q, d)
  }

  /** A reader stands on the search path of its key, on a node that is complete and inside
      the published file, and its answer, once given, is right. */
  ghost predicate ReaderOk(s: State, r: Reader)
    requires Forward(s.nodes) && (s.rootCell == 0 || s.rootCell in s.nodes)
  {
    && (forall k :: k in r.since ==> Linked(s, k))
    && match r
       case Started(_, _) => true
       case AtNode(k, _, p) =>
         && p in s.nodes && p !in Pending(s.writer)
         && s.rootCell != 0
         && Walk(s.nodes, k.key1, k.key2, p, 0, Here) == Search(s.nodes, s.rootCell, k.key1, k.key2)
       case Finished(k, since, FoundAt(n)) =>
         Search(s.nodes, s.rootCell, k.key1, k.key2) == Found(n)
       case Finished(k, since, NotFound) => k !in since
       case Finished(_, _, Broken) => false
  }

  ghost predicate Inv(s: State) {
    && 0 < s.fileSize
    && Indexed(s.nodes, s.rootCell, Pending(s.writer))
    && (forall n {:trigger s.nodes[n]} :: n in s.nodes && n !in Pending(s.writer) ==> n < s.fileSize)
    && (forall n {:trigger s.nodes[n]} :: n in s.nodes ==>
          s.nodes[n].value in s.records && s.nodes[n].value < n)
    && WriterOk(s)
    && (forall i {:trigger s.readers[i]} :: i in s.readers ==> ReaderOk(s, s.readers[i]))
  }

  /** Whatever moved, the readers stay sound if every search still ends where it did, or one
      that failed now succeeds further on. */
  ghost predicate Extends(s: State, s': State)
    requires Forward(s.nodes) && (s.rootCell == 0 || s.rootCell in s.nodes)
    requires Forward(s'.nodes) && (s'.rootCell == 0 || s'.rootCell in s'.nodes)
  {
    && (s.rootCell != 0 ==> s'.rootCell == s.rootCell)
    && (forall k: TreeKey {:trigger Search(s.nodes, s.rootCell, k.key1, k.key2)} ::
          Search(s.nodes, s.rootCell, k.key1, k.key2).Found? ==>
          Search(s'.nodes, s'.rootCell, k.key1, k.key2) == Search(s.nodes, s.rootCell, k.key1, k.key2))
    && (forall k: TreeKey, p: nat {:trigger Walk(s.nodes, k.key1, k.key2, p, 0, Here)} ::
          p in s.nodes && p !in Pending(s.writer) && s.rootCell != 0
          && Walk(s.nodes, k.key1, k.key2, p, 0, Here) == Search(s.nodes, s.rootCell, k.key1, k.key2) ==>
          && p in s'.nodes && p !in Pending(s'.writer)
          && Walk(s'.nodes, k.key1, k.key2, p, 0, Here) == Search(s'.nodes, s'.rootCell, k.key1, k.key2))
  }

  lemma ReaderOkExtends(s: State, s': State, r: Reader)
    requires Forward(s.nodes) && (s.rootCell == 0 || s.rootCell in s.nodes)
    requires Forward(s'.nodes) && (s'.rootCell == 0 || s'.rootCell in s'.nodes)
    requires Extends(s, s') && ReaderOk(s, r)
    ensures ReaderOk(s', r)
  {
    forall k | k in r.since ensures Linked(s', k) {
      assert Linked(s, k);
    }
  }

  // ---------------------------------------------------------------- every step keeps it

  /** Appending the node: no search can see it. */
  lemma AppendExtends(s: State, n: nat, leaf: Node, w: Writer)
    requires Inv(s) && s.writer.WritingNode?
    requires n == s.fileSize && leaf.less == 0 && leaf.more == 0
    requires Pending(w) == {n}
    ensures
      var s' := s.(nodes := s.nodes[n := leaf], writer := w);
      && Indexed(s'.nodes, s.rootCell, {n})
      && Search(s'.nodes, s.rootCell, leaf.key1, leaf.key2) == Search(s.nodes, s.rootCell, leaf.key1, leaf.key2)
      && Extends(s, s')
  {
    var s' := s.(nodes := s.nodes[n := leaf], writer := w);
    assert n !in s.nodes;
    IndexedAfterAppend(s.nodes, s.rootCell, n, leaf);
    forall k: TreeKey, p: nat | p in s.nodes
      ensures Walk(s'.nodes, k.key1, k.key2, p, 0, Here) == Walk(s.nodes, k.key1, k.key2, p, 0, Here)
    {
      WalkFrame(s.nodes, s'.nodes, k.key1, k.key2, p, 0, Here);
    }
  }

  /** Storing the link: searches that fell off there now go on, the others stay. */
  lemma LinkExtends(s: State, n: nat, q: nat, d: Direction)
    requires Inv(s) && s.writer == NodePublished(n, q, d) && s.rootCell != 0
    ensures q in s.nodes
    ensures
      var s' := s.(nodes := WriteLink(s.nodes, q, d, n), writer := Idle);
      Indexed(s'.nodes, s.rootCell, {}) && Extends(s, s')
  {
    WalkEnds(s.nodes, s.nodes[n].key1, s.nodes[n].key2, s.rootCell, 0, Here);
    assert q != n;
    IndexedAfterLink(s.nodes, s.rootCell, q, d, n);
    var s' := s.(nodes := WriteLink(s.nodes, q, d, n), writer := Idle);
    forall k: TreeKey, p: nat | p in s.nodes && p !in Pending(s.writer)
      && Walk(s.nodes, k.key1, k.key2, p, 0, Here) == Search(s.nodes, s.rootCell, k.key1, k.key2)
      ensures p in s'.nodes
      ensures Walk(s'.nodes, k.key1, k.key2, p, 0, Here) == Search(s'.nodes, s'.rootCell, k.key1, k.key2)
    {
      WalkAfterLink(s.nodes, q, d, n, k.key1, k.key2, p, 0, Here);
      WalkAfterLink(s.nodes, q, d, n, k.key1, k.key2, s.rootCell, 0, Here);
    }
    forall k: TreeKey | Search(s.nodes, s.rootCell, k.key1, k.key2).Found?
      ensures Search(s'.nodes, s'.rootCell, k.key1, k.key2) == Search(s.nodes, s.rootCell, k.key1, k.key2)
    {
      WalkAfterLink(s.nodes, q, d, n, k.key1, k.key2, s.rootCell, 0, Here);
    }
  }

  /** Storing the root cell: the tree was empty until now. */
  lemma RootExtends(s: State, n: nat)
    requires Inv(s) && s.writer.NodePublished? && s.writer.node == n && s.rootCell == 0
    ensures Indexed(s.nodes, n, {}) && Extends(s, s.(rootCell := n, writer := Idle))
  {
    assert s.nodes == map[n := s.nodes[n]];
    IndexedSingleton(n, s.nodes[n]);
  }

  lemma ReadersKeep(s: State, s': State)
    requires Inv(s) && s'.readers == s.readers
    requires Forward(s'.nodes) && (s'.rootCell == 0 || s'.rootCell in s'.nodes)
    requires Extends(s, s')
    ensures forall i {:trigger s'.readers[i]} :: i in s'.readers ==> ReaderOk(s', s'.readers[i])
  {
    forall i | i in s'.readers ensures ReaderOk(s', s'.readers[i]) {
      ReaderOkExtends(s, s', s.readers[i]);
    }
  }

  lemma AppendNodeKeeps(s: State)
    requires Inv(s) && s.writer.WritingNode?
    ensures Inv(DoWriterStep(s))
  {
    var k := s.writer.key;
    var s' := DoWriterStep(s);
    AppendExtends(s, s.fileSize, Node(k.key1, k.key2, s.writer.value, 0, 0), s'.writer);
    assert s.fileSize !in s.nodes;
    forall p | p in s'.nodes
      ensures s'.nodes[p].less != s.fileSize && s'.nodes[p].more != s.fileSize
      ensures p != s.fileSize ==> p < s.fileSize
    {
      if p != s.fileSize {
        assert NodeOk(s.nodes, p);
      }
    }
    ReadersKeep(s, s');
  }

  lemma LinkNodeKeeps(s: State)
    requires Inv(s) && s.writer.NodePublished?
    ensures Inv(DoWriterStep(s))
  {
    var NodePublished(n, q, d) := s.writer;
    var s' := DoWriterStep(s);
    if s.rootCell == 0 {
      RootExtends(s, n);
    } else {
      WalkEnds(s.nodes, s.nodes[n].key1, s.nodes[n].key2, s.rootCell, 0, Here);
      LinkExtends(s, n, q, d);
    }
    ReadersKeep(s, s');
  }

  lemma WriterStepKeeps(s: State)
    requires Inv(s)
    ensures Inv(DoWriterStep(s))
  {
    match s.writer
    case WritingNode(k, v, q, d) => AppendNodeKeeps(s);
    case NodePublished(n, q, d) => LinkNodeKeeps(s);
    case _ => QuietStepKeeps(s);
  }

  /** A step that leaves the tree alone keeps every search as it is. */
  lemma SameTreeExtends(s: State, s': State)
    requires Forward(s.nodes) && (s.rootCell == 0 || s.rootCell in s.nodes)
    requires s'.nodes == s.nodes && s'.rootCell == s.rootCell && Pending(s'.writer) == Pending(s.writer)
    ensures Extends(s, s')
  {
  }

  lemma QuietStepKeeps(s: State)
    requires Inv(s) && !s.writer.WritingNode? && !s.writer.NodePublished?
    ensures Inv(DoWriterStep(s))
  {
    hide Extends, ReaderOk, Search;
    SameTreeExtends(s, DoWriterStep(s));
    ReadersKeep(s, DoWriterStep(s));
  }

  /** One load by a reader keeps it sound; a reader never meets an incomplete node, moves
      only forward through the file, and answers "not found" only when its key is not
      linked at that very load. */
  lemma ReaderStepKeeps(s: State, r: Reader)
    requires Inv(s) && ReaderOk(s, r)
    ensures ReaderOk(s, DoReaderStep(s, r))
    ensures (DoReaderStep(s, r).Finished? && !r.Finished? && DoReaderStep(s, r).answer == NotFound) ==>
              !Linked(s, r.key)
    ensures r.AtNode? && DoReaderStep(s, r).AtNode? ==>
              r.node < DoReaderStep(s, r).node < s.fileSize
  {
    if r.AtNode? {
      var k, p := r.key, r.node;
      WalkEnds(s.nodes, k.key1, k.key2, p, 0, Here);
      assert NodeOk(s.nodes, p);
      var c := Compare(k.key1, k.key2, s.nodes[p]);
      if c != Here {
        var nxt := Link(s.nodes[p], c);
        if nxt == 0 {
          assert Walk(s.nodes, k.key1, k.key2, 0, p, c) == Missing(p, c);
        } else {
          assert Walk(s.nodes, k.key1, k.key2, nxt, p, c) == Walk(s.nodes, k.key1, k.key2, nxt, 0, Here);
          LinkNotPending(s, p, c);
        }
      }
    } else if r.Started? && s.rootCell == 0 {
      assert Search(s.nodes, s.rootCell, r.key.key1, r.key.key2) == Missing(0, Here);
    }
  }

  /** No link reaches the pending node. */
  lemma LinkNotPending(s: State, p: nat, c: Direction)
    requires Inv(s) && s.rootCell != 0 && p in s.nodes && p !in Pending(s.writer)
    requires c != Here && Link(s.nodes[p], c) != 0
    ensures Link(s.nodes[p], c) !in Pending(s.writer)
  {
  }

  lemma ApplyKeeps(s: State, step: Step)
    requires Inv(s)
    ensures Inv(Apply(s, step))
  {
    match step
    case BeginAdd(k, simu) => BeginAddKeeps(s, k, simu);
    case WriterStep => WriterStepKeeps(s);
    case Scribble(v, simu) => ScribbleKeeps(s, v, simu);
    case ReaderStart(i, k) => ReaderStartKeeps(s, i, k);
    case ReaderStep(i) =>
      hide Inv, ReaderOk, DoReaderStep;
      if i in s.readers {
        ReaderIsOk(s, i);
        ReaderStepKeeps(s, s.readers[i]);
        OthersKeep(s, Apply(s, step), i);
      }
  }

  lemma ReaderIsOk(s: State, i: nat)
    requires Inv(s) && i in s.readers
    ensures ReaderOk(s, s.readers[i])
  {
  }

  lemma BeginAddKeeps(s: State, k: TreeKey, simu: InodeSimu)
    requires Inv(s)
    ensures Inv(DoBeginAdd(s, k, simu))
  {
    hide Extends, ReaderOk, Search;
    SameTreeExtends(s, DoBeginAdd(s, k, simu));
    ReadersKeep(s, DoBeginAdd(s, k, simu));
  }

  lemma ScribbleKeeps(s: State, v: nat, simu: InodeSimu)
    requires Inv(s)
    ensures Inv(Apply(s, Scribble(v, simu)))
  {
    hide Extends, ReaderOk, Search;
    SameTreeExtends(s, Apply(s, Scribble(v, simu)));
    ReadersKeep(s, Apply(s, Scribble(v, simu)));
  }

  lemma ReaderStartKeeps(s: State, i: nat, k: TreeKey)
    requires Inv(s)
    ensures Inv(Apply(s, ReaderStart(i, k)))
  {
    hide Search;
    OthersKeep(s, Apply(s, ReaderStart(i, k)), i);
  }

  /** Readers do not write: one reader's step leaves the others alone. */
  lemma OthersKeep(s: State, s': State, i: nat)
    requires Inv(s)
    requires i in s'.readers && s' == s.(readers := s.readers[i := s'.readers[i]])
    requires ReaderOk(s, s'.readers[i])
    ensures Inv(s')
  {
    forall j | j in s'.readers ensures ReaderOk(s', s'.readers[j]) {
      if j != i {
        ReaderOkExtends(s, s', s.readers[j]);
      } else {
        ReaderOkExtends(s, s', s'.readers[i]);
      }
    }
  }

  // ---------------------------------------------------------------- whole runs

  /** An empty tree in a file that already holds its header and catalogs. */
  const Init: State := State(map[], map[], 40, 0, Idle, map[])

  lemma InitInv()
    ensures Inv(Init)
  {
  }

  ghost function Next(s: State, step: Step): (r: State)
    requires Inv(s)
    ensures Inv(r)
  {
    ApplyKeeps(s, step);
    Apply(s, step)
  }

  /** The state after an arbitrary interleaving of writer and reader steps. */
  ghost function Exec(s: State, steps: seq<Step>): (r: State)
    requires Inv(s)
    ensures Inv(r)
    decreases |steps|
  {
    if steps == [] then s else Exec(Next(s, steps[0]), steps[1..])
  }

  lemma {:induction false} ExecAppend(s: State, xs: seq<Step>, ys: seq<Step>)
    requires Inv(s)
    ensures Exec(s, xs + ys) == Exec(Exec(s, xs), ys)
    decreases |xs|
  {
    if xs == [] {
      assert xs + ys == ys;
    } else {
      assert (xs + ys)[1..] == xs[1..] + ys;
      ExecAppend(Next(s, xs[0]), xs[1..], ys);
    }
  }

  lemma SearchContinuesOneStep(s: State, i: nat, step: Step)
    requires Inv(s) && i in s.readers
    requires !(step.ReaderStart? && step.reader == i)
    ensures i in Next(s, step).readers
    ensures Next(s, step).readers[i].key == s.readers[i].key
    ensures Next(s, step).readers[i].since == s.readers[i].since
  {
    hide Inv;
  }

  ghost function Run(steps: seq<Step>): (r: State)
    ensures Inv(r)
  {
    InitInv();
    Exec(Init, steps)
  }

  /** A search in progress keeps its key and its starting set until the reader starts anew. */
  lemma {:induction false} SearchContinues(s: State, i: nat, steps: seq<Step>)
    requires Inv(s) && i in s.readers
    requires forall x :: x in steps ==> !(x.ReaderStart? && x.reader == i)
    ensures i in Exec(s, steps).readers
    ensures Exec(s, steps).readers[i].key == s.readers[i].key
    ensures Exec(s, steps).readers[i].since == s.readers[i].since
    decreases |steps|
  {
    if steps != [] {
      assert steps[0] in steps;
      SearchContinuesOneStep(s, i, steps[0]);
      SearchContinues(Next(s, steps[0]), i, steps[1..]);
    }
  }

  ghost function PlaceOf(s: State, k: TreeKey): Place
    requires Inv(s)
  {
    Search(s.nodes, s.rootCell, k.key1, k.key2)
  }

  /** What is known of a search for a key that was linked when it began. */
  lemma SearchState(s: State, i: nat)
    requires Inv(s) && i in s.readers && s.readers[i].key in s.readers[i].since
    ensures
      var k := s.readers[i].key;
      match s.readers[i]
      case Started(_, _) => s.rootCell != 0
      case AtNode(_, _, p) => p in s.nodes && p < s.fileSize && s.nodes[p].value in s.records
      case Finished(_, _, answer) =>
        && answer.FoundAt? && answer.node in s.nodes && PlaceOf(s, k) == Found(answer.node)
        && KeyAt(s.nodes[answer.node]) == k && s.nodes[answer.node].value in s.records
  {
    var k := s.readers[i].key;
    assert ReaderOk(s, s.readers[i]) && Linked(s, k);
    if s.rootCell != 0 {
      WalkEnds(s.nodes, k.key1, k.key2, s.rootCell, 0, Here);
    }
  }

  lemma RunThen(before: seq<Step>, step: Step, after: seq<Step>)
    ensures Run(before + [step] + after) == Exec(Next(Run(before), step), after)
  {
    hide Inv;
    InitInv();
    ExecAppend(Init, before + [step], after);
    ExecAppend(Init, before, [step]);
    assert [step][1..] == [];
    assert Exec(Run(before), [step]) == Next(Run(before), step);
  }

  /** A search begins by noting which keys are linked. */
  lemma SearchBegins(s: State, i: nat, k: TreeKey)
    requires Inv(s)
    ensures
      var s' := Next(s, ReaderStart(i, k));
      && i in s'.readers && s'.readers[i].Started? && s'.readers[i].key == k
      && (PlaceOf(s, k).Found? ==> k in s'.readers[i].since)
  {
    assert PlaceOf(s, k).Found? == Linked(s, k);
  }

  /** In every interleaving, a reader that starts looking for a key that is linked finds it:
      it never dereferences a node or record that is not completely written and published,
      and it never answers "not found". */
  lemma LinkedKeyIsAlwaysFound(before: seq<Step>, i: nat, k: TreeKey, after: seq<Step>)
    requires Linked(Run(before), k)
    requires forall x :: x in after ==> !(x.ReaderStart? && x.reader == i)
    ensures
      var s := Run(before + [ReaderStart(i, k)] + after);
      && i in s.readers && s.readers[i].key == k
      && match s.readers[i]
         case Started(_, _) => s.rootCell != 0
         case AtNode(_, _, p) => p in s.nodes && p < s.fileSize && s.nodes[p].value in s.records
         case Finished(_, _, answer) =>
           && answer.FoundAt? && answer.node in s.nodes
           && KeyAt(s.nodes[answer.node]) == k && s.nodes[answer.node].value in s.records
  {
    assert PlaceOf(Run(before), k).Found?;
    hide Inv, PlaceOf, Linked, Apply, Run;
    var start := ReaderStart(i, k);
    RunThen(before, start, after);
    SearchBegins(Run(before), i, k);
    SearchContinues(Next(Run(before), start), i, after);
    SearchState(Run(before + [start] + after), i);
  }

  // ---------------------------------------------------------------- every search ends

  lemma FoundExtends(s: State, s': State, k: TreeKey)
    requires Inv(s) && Inv(s') && Extends(s, s') && PlaceOf(s, k).Found?
    ensures PlaceOf(s', k) == PlaceOf(s, k)
  {
  }

  /** What can be found stays where it is, whoever moves. */
  lemma FoundStays(s: State, step: Step, k: TreeKey)
    requires Inv(s) && PlaceOf(s, k).Found?
    ensures PlaceOf(Next(s, step), k) == PlaceOf(s, k)
  {
    hide Inv, Extends, Search, Indexed;
    if step.WriterStep? && s.writer.WritingNode? {
      FoundAfterAppend(s, k);
    } else if step.WriterStep? && s.writer.NodePublished? {
      FoundAfterLink(s, k);
    }
  }

  lemma FoundAfterAppend(s: State, k: TreeKey)
    requires Inv(s) && s.writer.WritingNode? && PlaceOf(s, k).Found?
    ensures PlaceOf(Next(s, WriterStep), k) == PlaceOf(s, k)
  {
    hide Search;
    var w := s.writer;
    AppendExtends(s, s.fileSize, Node(w.key.key1, w.key.key2, w.value, 0, 0), Next(s, WriterStep).writer);
    FoundExtends(s, Next(s, WriterStep), k);
  }

  lemma FoundAfterLink(s: State, k: TreeKey)
    requires Inv(s) && s.writer.NodePublished? && PlaceOf(s, k).Found?
    ensures PlaceOf(Next(s, WriterStep), k) == PlaceOf(s, k)
  {
    var NodePublished(n, q, d) := s.writer;
    WalkEnds(s.nodes, s.nodes[n].key1, s.nodes[n].key2, s.rootCell, 0, Here);
    LinkExtends(s, n, q, d);
    FoundExtends(s, Next(s, WriterStep), k);
  }

  /** How many loads a reader can still make before it is at node `n`. */
  function LoadsLeft(r: Reader, n: nat): int {
    match r
    case Started(_, _) => n + 2
    case AtNode(_, _, p) => n - p + 1
    case Finished(_, _, _) => 0
  }

  /** Each load of its own brings a reader nearer to the node of its key. */
  lemma LoadAdvances(s: State, i: nat, n: nat)
    requires Inv(s) && i in s.readers && PlaceOf(s, s.readers[i].key) == Found(n)
    ensures
      var r, r' := s.readers[i], DoReaderStep(s, s.readers[i]);
      && LoadsLeft(r, n) >= 0 && LoadsLeft(r', n) >= 0
      && LoadsLeft(r', n) <= (if LoadsLeft(r, n) > 0 then LoadsLeft(r, n) - 1 else 0)
      && (LoadsLeft(r, n) == 0 ==> r.Finished?)
  {
    var r := s.readers[i];
    assert ReaderOk(s, r);
    ReaderStepKeeps(s, r);
    var r' := DoReaderStep(s, r);
    StandsBefore(s, r, n);
    StandsBefore(s, r', n);
  }

  lemma StandsBefore(s: State, r: Reader, n: nat)
    requires Inv(s) && ReaderOk(s, r) && PlaceOf(s, r.key) == Found(n)
    ensures r.AtNode? ==> r.node <= n
  {
    if r.AtNode? {
      FoundIsAhead(s.nodes, r.key.key1, r.key.key2, r.node, 0, Here);
    }
  }

  /** The loads that reader `i` makes in a run. */
  function LoadsOf(steps: seq<Step>, i: nat): nat {
    if steps == [] then 0 else (if steps[0] == ReaderStep(i) then 1 else 0) + LoadsOf(steps[1..], i)
  }

  lemma {:induction false} SearchEnds(s: State, i: nat, n: nat, steps: seq<Step>)
    requires Inv(s) && i in s.readers && PlaceOf(s, s.readers[i].key) == Found(n)
    requires forall x :: x in steps ==> !(x.ReaderStart? && x.reader == i)
    requires LoadsOf(steps, i) >= LoadsLeft(s.readers[i], n)
    ensures i in Exec(s, steps).readers && Exec(s, steps).readers[i].Finished?
    ensures PlaceOf(Exec(s, steps), s.readers[i].key) == Found(n)
    decreases |steps|
  {
    hide Inv, LoadsLeft, DoReaderStep, PlaceOf;
    LoadAdvances(s, i, n);
    if steps != [] {
      var step, s' := steps[0], Next(s, steps[0]);
      assert step in steps;
      SearchContinuesOneStep(s, i, step);
      FoundStays(s, step, s.readers[i].key);
      OthersDoNotMove(s, i, step);
      SearchEnds(s', i, n, steps[1..]);
    }
  }

  lemma OthersDoNotMove(s: State, i: nat, step: Step)
    requires Inv(s) && i in s.readers && !(step.ReaderStart? && step.reader == i)
    ensures i in Next(s, step).readers
    ensures Next(s, step).readers[i] ==
            if step == ReaderStep(i) then DoReaderStep(s, s.readers[i]) else s.readers[i]
  {
    hide Inv, DoReaderStep;
  }

  /** Whatever the writer and the other readers do meanwhile, and however much the tree grows,
      a reader that looks for a key that is linked at node `n` has found it there after `n + 2`
      loads of its own. */
  lemma LinkedKeyIsFoundInTime(before: seq<Step>, i: nat, k: TreeKey, n: nat, after: seq<Step>)
    requires PlaceOf(Run(before), k) == Found(n)
    requires forall x :: x in after ==> !(x.ReaderStart? && x.reader == i)
    requires LoadsOf(after, i) >= n + 2
    ensures
      var s := Run(before + [ReaderStart(i, k)] + after);
      i in s.readers && s.readers[i].Finished? && s.readers[i].answer == FoundAt(n)
  {
    hide Inv, PlaceOf, LoadsOf, Apply, Run;
    var s0, start := Run(before), ReaderStart(i, k);
    RunThen(before, start, after);
    SearchBegins(s0, i, k);
    FoundStays(s0, start, k);
    SearchEnds(Next(s0, start), i, n, after);
    SearchContinues(Next(s0, start), i, after);
    SearchState(Run(before + [start] + after), i);
  }

  // ---------------------------------------------------------------- every insertion is completed

  /** The stores that an insertion still needs. */
  function StoresLeft(w: Writer): nat {
    match w
    case Idle => 0
    case WritingRecord(_, _, _, _) => 6
    case RecordWritten(_, _, _) => 5
    case RecordPublished(_, _, _, _) => 4
    case WritingNode(_, _, _, _) => 3
    case NodeWritten(_, _, _) => 2
    case NodePublished(_, _, _) => 1
  }

  ghost predicate Holds(s: State, v: nat, simu: InodeSimu) {
    v in s.records && s.records[v] == simu
  }

  /** The writer is about to add `k`. When records are not written in place meanwhile, it is
      with this record. */
  ghost predicate Adding(s: State, k: TreeKey, simu: InodeSimu, intact: bool) {
    match s.writer
    case Idle => false
    case WritingRecord(k', simu', _, _) => k' == k && simu' == simu
    case RecordWritten(k', _, _) => k' == k && (intact ==> Holds(s, s.fileSize, simu))
    case RecordPublished(k', v, _, _) => k' == k && (intact ==> Holds(s, v, simu))
    case WritingNode(k', v, _, _) => k' == k && (intact ==> Holds(s, v, simu))
    case NodeWritten(n, _, _) => n in s.nodes && KeyAt(s.nodes[n]) == k && (intact ==> Holds(s, s.nodes[n].value, simu))
    case NodePublished(n, _, _) => n in s.nodes && KeyAt(s.nodes[n]) == k && (intact ==> Holds(s, s.nodes[n].value, simu))
  }

  /** A search finds `k`, and with it the record. */
  ghost predicate Added(s: State, k: TreeKey, simu: InodeSimu, intact: bool)
    requires Inv(s)
  {
    var place := PlaceOf(s, k);
    place.Found? && place.node in s.nodes && (intact ==> Holds(s, s.nodes[place.node].value, simu))
  }

  ghost predicate Underway(s: State, k: TreeKey, simu: InodeSimu, intact: bool, stores: nat)
    requires Inv(s)
  {
    Added(s, k, simu, intact) || (Adding(s, k, simu, intact) && StoresLeft(s.writer) <= stores)
  }

  lemma FoundNode(s: State, k: TreeKey)
    requires Inv(s) && PlaceOf(s, k).Found?
    ensures
      var n := PlaceOf(s, k).node;
      && n in s.nodes && KeyAt(s.nodes[n]) == k
      && (s.writer.WritingRecord? ==> s.nodes[n].value < s.fileSize)
  {
    WalkEnds(s.nodes, k.key1, k.key2, s.rootCell, 0, Here);
  }

  /** A node keeps its record. */
  lemma NodeKeepsValue(s: State, step: Step, n: nat)
    requires Inv(s) && n in s.nodes
    ensures n in Next(s, step).nodes && Next(s, step).nodes[n].value == s.nodes[n].value
    ensures KeyAt(Next(s, step).nodes[n]) == KeyAt(s.nodes[n])
  {
    hide Indexed, ReaderOk, WriterOk, Search;
    if step.WriterStep? && s.writer.WritingNode? {
      assert s.fileSize !in s.nodes;
    }
  }

  lemma RecordStays(s: State, step: Step, v: nat, simu: InodeSimu)
    requires Inv(s) && Holds(s, v, simu) && !step.Scribble? && (s.writer.WritingRecord? ==> v != s.fileSize)
    ensures Holds(Next(s, step), v, simu)
  {
    hide Inv;
  }

  /** What was added stays added. */
  lemma AddedStays(s: State, step: Step, k: TreeKey, simu: InodeSimu, intact: bool)
    requires Inv(s) && Added(s, k, simu, intact) && (intact ==> !step.Scribble?)
    ensures Added(Next(s, step), k, simu, intact)
  {
    hide Inv, PlaceOf;
    FoundStays(s, step, k);
    FoundNode(s, k);
    var n := PlaceOf(s, k).node;
    NodeKeepsValue(s, step, n);
    if intact {
      RecordStays(s, step, s.nodes[n].value, simu);
    }
  }

  /** Storing the link, or the root cell, makes the new node the one that is found. */
  lemma LinkCompletes(s: State, k: TreeKey, simu: InodeSimu, intact: bool)
    requires Inv(s) && s.writer.NodePublished? && Adding(s, k, simu, intact)
    ensures Added(Next(s, WriterStep), k, simu, intact)
  {
    hide ReaderOk, WriterOk, Search;
    var s', n := Next(s, WriterStep), s.writer.node;
    NodeKeepsValue(s, WriterStep, n);
    assert s'.writer.Idle?;
    assert PlaceOf(s', KeyAt(s'.nodes[n])) == Found(n);
  }

  /** A store that is not the last one. */
  lemma StoreAdvances(s: State, k: TreeKey, simu: InodeSimu, intact: bool)
    requires Inv(s) && Adding(s, k, simu, intact) && !s.writer.NodePublished?
    ensures Adding(Next(s, WriterStep), k, simu, intact)
    ensures StoresLeft(Next(s, WriterStep).writer) + 1 == StoresLeft(s.writer)
  {
    hide Inv;
  }

  /** Whoever else moves, the writer is where it was. */
  lemma OthersLetAdd(s: State, step: Step, k: TreeKey, simu: InodeSimu, intact: bool)
    requires Inv(s) && Adding(s, k, simu, intact) && !step.WriterStep? && (intact ==> !step.Scribble?)
    ensures Adding(Next(s, step), k, simu, intact) && Next(s, step).writer == s.writer
  {
    hide Inv;
  }

  lemma UnderwayStep(s: State, step: Step, k: TreeKey, simu: InodeSimu, intact: bool, stores: nat)
    requires Inv(s) && Underway(s, k, simu, intact, stores) && (intact ==> !step.Scribble?)
    ensures Underway(Next(s, step), k, simu, intact,
                     if step.WriterStep? && stores > 0 then stores - 1 else stores)
  {
    hide Inv, Added, Adding;
    if Added(s, k, simu, intact) {
      AddedStays(s, step, k, simu, intact);
    } else {
      AddingIsBusy(s, k, simu, intact);
      if !step.WriterStep? {
        OthersLetAdd(s, step, k, simu, intact);
      } else if s.writer.NodePublished? {
        LinkCompletes(s, k, simu, intact);
      } else {
        StoreAdvances(s, k, simu, intact);
      }
    }
  }

  lemma AddingIsBusy(s: State, k: TreeKey, simu: InodeSimu, intact: bool)
    requires Adding(s, k, simu, intact)
    ensures StoresLeft(s.writer) > 0
  {
  }

  /** The stores that the writer makes in a run. */
  function StoresOf(steps: seq<Step>): nat {
    if steps == [] then 0 else (if steps[0].WriterStep? then 1 else 0) + StoresOf(steps[1..])
  }

  lemma {:induction false} AddingEnds(s: State, steps: seq<Step>, k: TreeKey, simu: InodeSimu, intact: bool, stores: nat)
    requires Inv(s) && Underway(s, k, simu, intact, stores) && StoresOf(steps) >= stores
    requires intact ==> forall x :: x in steps ==> !x.Scribble?
    ensures Added(Exec(s, steps), k, simu, intact)
    decreases |steps|
  {
    hide Inv, Added, Adding;
    if steps == [] {
      if !Added(s, k, simu, intact) {
        AddingIsBusy(s, k, simu, intact);
      }
    } else {
      var step := steps[0];
      assert step in steps;
      UnderwayStep(s, step, k, simu, intact, stores);
      AddingEnds(Next(s, step), steps[1..], k, simu, intact, if step.WriterStep? && stores > 0 then stores - 1 else stores);
    }
  }

  /** The first step of an insertion, by a writer that is not busy with another one. */
  lemma AddingBegins(s: State, k: TreeKey, simu: InodeSimu)
    requires Inv(s) && s.writer.Idle?
    ensures
      var s' := Next(s, BeginAdd(k, simu));
      if Linked(s, k) then Added(s', k, simu, false) else Adding(s', k, simu, true) && StoresLeft(s'.writer) == 6
  {
    if Linked(s, k) {
      FoundNode(s, k);
    }
  }

  /** From every state in which the writer is free, and in every interleaving with readers,
      in-place updates and later insertions: a key has been added after six stores of the
      writer. Its record is the one that was to be added, if it was not there before and no
      record has been updated meanwhile. */
  lemma InsertionIsCompleted(s: State, k: TreeKey, simu: InodeSimu, steps: seq<Step>)
    requires Inv(s) && s.writer.Idle? && StoresOf(steps) >= 6
    ensures
      var s' := Exec(Next(s, BeginAdd(k, simu)), steps);
      && Linked(s', k)
      && (!Linked(s, k) && (forall x :: x in steps ==> !x.Scribble?) ==> Added(s', k, simu, true))
  {
    var linked := Linked(s, k);
    hide Inv, Adding, Linked;
    AddingBegins(s, k, simu);
    var s1 := Next(s, BeginAdd(k, simu));
    var intact := !linked && forall x :: x in steps ==> !x.Scribble?;
    if !linked {
      AddingWithout(s1, k, simu);
    }
    AddingEnds(s1, steps, k, simu, intact, 6);
    AddedIsLinked(Exec(s1, steps), k, simu, intact);
  }

  lemma AddingWithout(s: State, k: TreeKey, simu: InodeSimu)
    requires Adding(s, k, simu, true)
    ensures Adding(s, k, simu, false)
  {
  }

  lemma AddedIsLinked(s: State, k: TreeKey, simu: InodeSimu, intact: bool)
    requires Inv(s) && Added(s, k, simu, intact)
    ensures Linked(s, k)
  {
  }

  /** Six stores after it began, with no other insertion begun meanwhile, the writer is free
      again. */
  lemma {:induction false} WriterIsFreeAgain(s: State, steps: seq<Step>)
    requires Inv(s) && StoresOf(steps) >= StoresLeft(s.writer) && forall x :: x in steps ==> !x.BeginAdd?
    ensures Exec(s, steps).writer.Idle?
    decreases |steps|
  {
    hide Inv;
    if steps != [] {
      var step := steps[0];
      assert step in steps;
      WriterMoves(s, step);
      WriterIsFreeAgain(Next(s, step), steps[1..]);
    }
  }

  lemma WriterMoves(s: State, step: Step)
    requires Inv(s) && !step.BeginAdd?
    ensures StoresLeft(Next(s, step).writer) ==
            if step.WriterStep? && StoresLeft(s.writer) > 0 then StoresLeft(s.writer) - 1 else StoresLeft(s.writer)
  {
    hide Inv;
  }

  /** Writer and reader together, over whole runs: a key that was added is found, with six
      stores in between and with as many loads as its place in the file requires, whatever
      else happens. */
  lemma AddedKeyIsFound(before: seq<Step>, k: TreeKey, simu: InodeSimu, between: seq<Step>, i: nat, after: seq<Step>)
    requires Run(before).writer.Idle? && StoresOf(between) >= 6
    requires forall x :: x in after ==> !(x.ReaderStart? && x.reader == i)
    ensures
      var adding := before + [BeginAdd(k, simu)] + between;
      var s := Run(adding + [ReaderStart(i, k)] + after);
      && PlaceOf(Run(adding), k).Found?
      && (LoadsOf(after, i) >= PlaceOf(Run(adding), k).node + 2 ==>
            i in s.readers && s.readers[i].Finished? && s.readers[i].answer.FoundAt?
            && s.readers[i].answer.node in s.nodes && KeyAt(s.nodes[s.readers[i].answer.node]) == k)
  {
    hide Inv, LoadsOf, Run, Added;
    var adding := before + [BeginAdd(k, simu)] + between;
    RunThen(before, BeginAdd(k, simu), between);
    InsertionIsCompleted(Run(before), k, simu, between);
    var n := PlaceOf(Run(adding), k).node;
    if LoadsOf(after, i) >= n + 2 {
      LinkedKeyIsFoundInTime(adding, i, k, n, after);
      LinkedKeyIsAlwaysFound(adding, i, k, after);
    }
  }

  /** Conversely a reader that gives up was right at the load on which it gave up, and one
      that finds a node finds the node of its key, whatever the writer was doing. */
  lemma AnswersAreCurrent(steps: seq<Step>, i: nat)
    requires i in Run(steps).readers
    ensures
      var s := Run(steps);
      var r, r' := s.readers[i], DoReaderStep(s, s.readers[i]);
      r'.Finished? && !r.Finished? ==>
        && (r'.answer == NotFound <==> !Linked(s, r.key))
        && (r'.answer.FoundAt? <==> Linked(s, r.key))
        && (r'.answer.FoundAt? ==> Search(s.nodes, s.rootCell, r.key.key1, r.key.key2) == Found(r'.answer.node))
  {
    var s := Run(steps);
    ReaderStepKeeps(s, s.readers[i]);
  }
}
