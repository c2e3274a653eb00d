/** The doubly linked lists on which the engine edits paths in place
    (pathmapping/pathlistutils.c, pathmapping/pathresolution.c). */
module PathLists {
  import opened Options
  import opened Resolution
  import opened DotDots

  class PathEntry {
    const comp: Comp
    var flagged: bool
    var prev: PathEntry?
    var next: PathEntry?

    constructor (comp: Comp)
      ensures this.comp == comp && !flagged && prev == null && next == null
    {
      this.comp := comp;
      flagged, prev, next := false, null, null;
    }
  }

  function At(nodes: seq<PathEntry>, i: int): PathEntry? {
    if 0 <= i < |nodes| then nodes[i] else null
  }

  ghost predicate Linked(nodes: seq<PathEntry>, i: nat)
    requires i < |nodes|
    reads nodes`prev, nodes`next
  {
    nodes[i].prev == At(nodes, i - 1) && nodes[i].next == At(nodes, i + 1)
  }

  /** The nodes are linked both ways, in this order, and none occurs twice. */
  ghost predicate Chain(nodes: seq<PathEntry>)
    reads nodes`prev, nodes`next
  {
    && (forall i :: 0 <= i < |nodes| ==> Linked(nodes, i))
    && (forall i, j :: 0 <= i < j < |nodes| ==> nodes[i] != nodes[j])
  }

  /** What the nodes hold. */
  ghost function Snapshot(nodes: seq<PathEntry>): (es: seq<Entry>)
    reads nodes`flagged
    ensures |es| == |nodes|
  {
    if nodes == [] then [] else [Entry(nodes[0].comp, nodes[0].flagged)] + Snapshot(nodes[1..])
  }

  lemma {:induction false} SnapshotAppend(a: seq<PathEntry>, b: seq<PathEntry>)
    ensures Snapshot(a + b) == Snapshot(a) + Snapshot(b)
  {
    if a == [] {
      assert a + b == b;
    } else {
      assert (a + b)[1..] == a[1..] + b;
      SnapshotAppend(a[1..], b);
    }
  }

  lemma {:induction false} SnapshotFrom(nodes: seq<PathEntry>, k: nat)
    requires k <= |nodes|
    ensures Snapshot(nodes[k..]) == Snapshot(nodes)[k..]
  {
    SnapshotAppend(nodes[..k], nodes[k..]);
    assert nodes[..k] + nodes[k..] == nodes;
  }

  lemma {:induction false} SnapshotAt(nodes: seq<PathEntry>, k: nat)
    requires k < |nodes|
    ensures Snapshot(nodes)[k] == Entry(nodes[k].comp, nodes[k].flagged)
  {
    if k > 0 {
      SnapshotAt(nodes[1..], k - 1);
    }
  }

  lemma {:induction false} SnapshotCut(nodes: seq<PathEntry>, k: nat)
    requires k < |nodes|
    ensures Snapshot(nodes[..k] + nodes[k + 1..]) == Snapshot(nodes)[..k] + Snapshot(nodes)[k + 1..]
  {
    var a, b := nodes[..k], nodes[k + 1..];
    SnapshotAppend(a, b);
    SnapshotAppend(a, [nodes[k]] + b);
    SnapshotAppend([nodes[k]], b);
    assert nodes == a + ([nodes[k]] + b);
    assert |Snapshot([nodes[k]])| == 1;
  }

  // ---------------------------------------------------------------- chains of entries

  lemma EmptyChain()
    ensures Chain([]) && Snapshot([]) == Mark([], 0)
  {
  }

  lemma {:induction false} SnapshotSnoc(a: seq<PathEntry>, e: PathEntry)
    ensures Snapshot(a + [e]) == Snapshot(a) + [Entry(e.comp, e.flagged)]
  {
    SnapshotAppend(a, [e]);
  }

  /** Links a new entry behind the last one of a chain. */
  method LinkLast(last: PathEntry?, entry: PathEntry, ghost chain: seq<PathEntry>)
    requires Chain(chain) && last == At(chain, |chain| - 1) && entry !in chain && entry.next == null
    modifies chain`next, entry`prev
    ensures Chain(chain + [entry])
  {
    entry.prev := last;
    if last != null {
      last.next := entry;
    }
    ghost var all := chain + [entry];
    forall i | 0 <= i < |all| ensures Linked(all, i) {
      if i < |chain| {
        assert old(Linked(chain, i));
      }
    }
  }

  /** split_path_to_path_entries, on components: a new chain, nothing flagged. */
  method NewEntries(names: seq<Comp>) returns (head: PathEntry?, ghost chain: seq<PathEntry>)
    ensures Chain(chain) && head == At(chain, 0)
    ensures Snapshot(chain) == Mark(names, 0)
    ensures forall i :: 0 <= i < |chain| ==> fresh(chain[i])
  {
    hide Chain, Snapshot, Mark;
    var last: PathEntry? := null;
    head, chain := null, [];
    var n := 0;
    assert names[..0] == [];
    EmptyChain();
    while n < |names|
      invariant n <= |names| && |chain| == n
      invariant Chain(chain) && head == At(chain, 0) && last == At(chain, n - 1)
      invariant Snapshot(chain) == Mark(names[..n], 0)
      invariant forall i :: 0 <= i < |chain| ==> fresh(chain[i])
    {
      var entry := new PathEntry(names[n]);
      SnapshotSnoc(chain, entry);
      LinkLast(last, entry, chain);
      if last == null {
        head := entry;
      }
      last := entry;
      chain := chain + [entry];
      assert names[..n + 1] == names[..n] + [names[n]];
      MarkSnoc(names[..n], names[n], 0);
      n := n + 1;
    }
    assert names[..n] == names;
  }

  lemma {:induction false} SnapshotFlagged(chain: seq<PathEntry>, names: seq<Comp>)
    requires |chain| == |names|
    requires forall i :: 0 <= i < |chain| ==> chain[i].comp == names[i] && chain[i].flagged
    ensures Snapshot(chain) == Flagged(names)
  {
    if chain != [] {
      SnapshotFlagged(chain[1..], names[1..]);
    }
  }

  lemma {:induction false} SnapshotComps(chain: seq<PathEntry>)
    ensures forall i :: 0 <= i < |chain| ==> chain[i].comp == Comps(Snapshot(chain))[i]
  {
    if chain != [] {
      SnapshotComps(chain[1..]);
    }
  }

  /** The components of a chain. */
  method NamesOf(head: PathEntry?, ghost chain: seq<PathEntry>) returns (names: seq<Comp>)
    requires Chain(chain) && head == At(chain, 0)
    ensures names == Comps(Snapshot(chain))
  {
    names := [];
    var work := head;
    SnapshotComps(chain);
    while work != null
      invariant |names| <= |chain| && work == At(chain, |names|)
      invariant forall i :: 0 <= i < |names| ==> names[i] == chain[i].comp
      decreases |chain| - |names|
    {
      assert Linked(chain, |names|);
      names, work := names + [work.comp], work.next;
    }
  }

  lemma OnePlace(nodes: seq<PathEntry>, i: nat, j: nat)
    requires Chain(nodes) && i <= j < |nodes| && nodes[i] == nodes[j]
    ensures i == j
  {
  }

  /** The next entry to be copied. */
  lemma CopyStep(nodes: seq<PathEntry>, n: nat)
    requires Chain(nodes) && n < |nodes|
    ensures nodes[n].next == At(nodes, n + 1)
    ensures Mark(Comps(Snapshot(nodes)[..n + 1]), 0) ==
            Mark(Comps(Snapshot(nodes)[..n]), 0) + [Entry(nodes[n].comp, false)]
  {
    hide Mark, Comps, Snapshot;
    assert Linked(nodes, n);
    SnapshotAt(nodes, n);
    var es := Snapshot(nodes);
    assert es[..n + 1] == es[..n] + [es[n]];
    CompsSnoc(es[..n], es[n]);
    MarkSnoc(Comps(es[..n]), es[n].comp, 0);
  }

  /** set_flags_in_path_entries */
  method SetFlags(head: PathEntry?, ghost chain: seq<PathEntry>)
    requires Chain(chain) && head == At(chain, 0)
    modifies chain`flagged
    ensures Snapshot(chain) == Flagged(old(Comps(Snapshot(chain))))
  {
    SnapshotComps(chain);
    ghost var names := Comps(Snapshot(chain));
    var work := head;
    ghost var n: nat := 0;
    while work != null
      invariant n <= |chain| && work == At(chain, n)
      invariant forall i :: 0 <= i < n ==> chain[i].flagged
      decreases |chain| - n
    {
      assert Linked(chain, n);
      work.flagged := true;
      work := work.next;
      n := n + 1;
    }
    SnapshotFlagged(chain, names);
  }

  /** A new chain for a path that resolution has returned: no entry is a link. */
  method RealEntries(names: seq<Comp>) returns (head: PathEntry?, ghost chain: seq<PathEntry>)
    ensures Chain(chain) && head == At(chain, 0) && Snapshot(chain) == Flagged(names)
    ensures forall i :: 0 <= i < |chain| ==> fresh(chain[i])
  {
    head, chain := NewEntries(names);
    MarkAll(names, 0);
    SetFlags(head, chain);
  }

  /** Takes one entry out of a chain. */
  method Unlink(entry: PathEntry, ghost nodes: seq<PathEntry>, ghost k: nat)
    requires Chain(nodes) && k < |nodes| && nodes[k] == entry
    modifies nodes`prev, nodes`next
    ensures Chain(nodes[..k] + nodes[k + 1..])
  {
    assert Linked(nodes, k);
    if entry.prev != null {
      entry.prev.next := entry.next;
    }
    if entry.next != null {
      entry.next.prev := entry.prev;
    }
    ghost var rest := nodes[..k] + nodes[k + 1..];
    forall i | 0 <= i < |rest| ensures Linked(rest, i) {
      assert old(Linked(nodes, if i < k then i else i + 1));
      CutAt(nodes, k, i - 1);
      CutAt(nodes, k, i);
      CutAt(nodes, k, i + 1);
    }
  }

  lemma CutAt(nodes: seq<PathEntry>, k: nat, i: int)
    requires k < |nodes|
    ensures At(nodes[..k] + nodes[k + 1..], i) == At(nodes, if i < k then i else i + 1)
  {
  }

  /** Cuts a chain in two. */
  method CutBefore(entry: PathEntry, ghost nodes: seq<PathEntry>, ghost k: nat)
    requires Chain(nodes) && 0 < k < |nodes| && nodes[k] == entry
    modifies nodes`prev, nodes`next
    ensures Chain(nodes[k..])
  {
    assert Linked(nodes, k);
    entry.prev.next := null;
    entry.prev := null;
    ghost var suffix := nodes[k..];
    forall i | 0 <= i < |suffix| ensures Linked(suffix, i) {
      assert old(Linked(nodes, i + k));
    }
  }

  /** append_path_entries: walks to the end of the first chain and links the second to it. */
  method AppendEntries(head: PathEntry?, tail: PathEntry?, ghost a: seq<PathEntry>, ghost b: seq<PathEntry>)
    returns (joined: PathEntry?)
    requires Chain(a) && Chain(b) && head == At(a, 0) && tail == At(b, 0)
    requires forall i, j :: 0 <= i < |a| && 0 <= j < |b| ==> a[i] != b[j]
    modifies a`next, b`prev
    ensures Chain(a + b) && joined == At(a + b, 0)
  {
    if head == null {
      joined := tail;
      assert a + b == b;
    } else {
      var work: PathEntry := head;
      ghost var n: nat := 0;
      assert Linked(a, 0);
      while work.next != null
        invariant n < |a| && work == a[n] && Linked(a, n)
        decreases |a| - n
      {
        work := work.next;
        n := n + 1;
        assert Linked(a, n);
      }
      work.next := tail;
      if tail != null {
        tail.prev := work;
      }
      joined := head;
      forall i | 0 <= i < |a + b| ensures Linked(a + b, i) {
        if i < |a| {
          assert old(Linked(a, i)) && (a + b)[i] == a[i];
        } else {
          assert old(Linked(b, i - |a|)) && (a + b)[i] == b[i - |a|];
        }
      }
    }
  }

  /** A chain in which other names, known to be real, stand in the place of all entries
      before the `k`-th. */
  method WithFront(names: seq<Comp>, entry: PathEntry, ghost nodes: seq<PathEntry>, ghost k: nat)
    returns (head: PathEntry?, ghost all: seq<PathEntry>)
    requires Chain(nodes) && 0 < k < |nodes| && nodes[k] == entry
    modifies nodes`prev, nodes`next
    ensures Chain(all) && head == At(all, 0)
    ensures Snapshot(all) == Flagged(names) + old(Snapshot(nodes))[k..]
    ensures forall i :: 0 <= i < |all| ==> all[i] in nodes || fresh(all[i])
  {
    hide Chain, Snapshot, Flagged;
    ghost var suffix, rest := nodes[k..], Snapshot(nodes)[k..];
    SnapshotFrom(nodes, k);
    var front, chain := RealEntries(names);
    assert Snapshot(suffix) == rest;
    CutBefore(entry, nodes, k);
    head := AppendEntries(front, entry, chain, suffix);
    all := chain + suffix;
    SnapshotAppend(chain, suffix);
  }

  class PathEntryList {
    var first: PathEntry?
    var slash: bool
    ghost var nodes: seq<PathEntry>
    ghost var repr: set<PathEntry>

    /** `nodes` is the list; `repr` also takes in what was unlinked. */
    ghost predicate Valid()
      reads this, nodes`prev, nodes`next
    {
      && first == At(nodes, 0) && Chain(nodes)
      && (forall i :: 0 <= i < |nodes| ==> nodes[i] in repr)
    }

    ghost function Entries(): (es: seq<Entry>)
      reads this, nodes`flagged
      ensures |es| == |nodes|
    {
      Snapshot(nodes)
    }

    /** A list with nothing flagged. */
    constructor (names: seq<Comp>, slash: bool)
      ensures Valid() && fresh(repr) && this.slash == slash && Entries() == Mark(names, 0)
    {
      var head, chain := NewEntries(names);
      first, this.slash, nodes, repr := head, slash, chain, set n | n in chain;
    }

    /** remove_path_entry: unlinks the `k`-th entry and returns the one behind it. */
    method Remove(entry: PathEntry, ghost k: nat) returns (next: PathEntry?)
      requires Valid() && k < |nodes| && nodes[k] == entry
      modifies this`first, this`nodes, repr`prev, repr`next
      ensures Valid() && next == At(nodes, k)
      ensures nodes == old(nodes[..k] + nodes[k + 1..])
      ensures Entries() == old(Entries()[..k] + Entries()[k + 1..])
    {
      assert Linked(nodes, k);
      SnapshotCut(nodes, k);
      next := entry.next;
      if entry.prev == null {
        first := entry.next;
      }
      Unlink(entry, nodes, k);
      nodes := nodes[..k] + nodes[k + 1..];
    }

    /** remove_dotdot_entry_and_prev_entry: unlinks a ".." and the entry before it, if any. */
    method RemoveWithPrev(entry: PathEntry, ghost k: nat) returns (next: PathEntry?)
      requires Valid() && k < |nodes| && nodes[k] == entry
      modifies this`first, this`nodes, repr`prev, repr`next
      ensures Valid() && next == At(nodes, if k == 0 then 0 else k - 1)
      ensures nodes == old(Init(nodes[..k]) + nodes[k + 1..])
      ensures Entries() == old(Init(Entries()[..k]) + Entries()[k + 1..])
    {
      assert Linked(nodes, k);
      ghost var was, es := nodes, Entries();
      hide Snapshot, Chain;
      if entry.prev != null {
        var work := Remove(entry.prev, k - 1);
        assert work == entry;
        next := Remove(entry, k - 1);
        assert nodes == was[..k - 1] + was[k + 1..] && Entries() == es[..k - 1] + es[k + 1..];
        assert Init(was[..k]) == was[..k - 1] && Init(es[..k]) == es[..k - 1];
      } else {
        next := Remove(entry, 0);
      }
    }

    // -------------------------------------------------------------- cleaning

    /** Step 1: ".." at the front of the list. */
    method DropUps() returns (work: PathEntry?)
      requires Valid()
      modifies this`first, this`nodes, this`slash, repr`prev, repr`next
      ensures Valid()
      ensures Entries() == Drop(old(Entries())) && slash == DropSlash(old(Entries()), old(slash))
      ensures work == first
    {
      work := first;
      while work != null && work.comp.Up?
        invariant Valid() && work == first
        invariant Drop(Entries()) == Drop(old(Entries()))
        invariant slash == (old(slash) || (old(Entries()) != [] && Entries() == []))
        decreases |nodes|
      {
        SnapshotAt(nodes, 0);
        assert Linked(nodes, 0);
        if work.next == null {
          slash := true;
        }
        ghost var es := Entries();
        work := Remove(work, 0);
        assert es[..0] + es[1..] == es[1..];
      }
      if work != null {
        SnapshotAt(nodes, 0);
      }
    }

    /** One round of step 2, at the `k`-th entry: `kept` tells of a ".." that has to stay. */
    method CancelAt(entry: PathEntry, ghost k: nat) returns (next: PathEntry?, ghost k': nat, kept: bool)
      requires Valid() && k < |nodes| && nodes[k] == entry && FlagsOnNames(Entries())
      modifies this`first, this`nodes, this`slash, repr`prev, repr`next
      ensures Valid() && k' <= |nodes| && |Entries()| == |nodes|
      ensures next == At(nodes, k') && |nodes| - k' < old(|nodes|) - k
      ensures FlagsOnNames(Entries())
      ensures Cancel(Entries()[..k'], Entries()[k'..], slash) == old(Cancel(Entries()[..k], Entries()[k..], slash))
      ensures Unclean(Entries()[..k']) <==> old(Unclean(Entries()[..k])) || kept
    {
      hide Cancel, Unclean, FlagsOnNames, Snapshot;
      assert Linked(nodes, k);
      SnapshotAt(nodes, k);
      CancelStep(Entries(), k, slash);
      if k > 0 {
        SnapshotAt(nodes, k - 1);
      }
      kept := false;
      if entry.comp.Up? && (entry.prev == null || entry.prev.flagged) {
        if entry.next == null {
          slash := true;
        }
        next := RemoveWithPrev(entry, k);
        k' := if k == 0 then 0 else k - 1;
      } else {
        kept := entry.comp.Up?;
        next := entry.next;
        k' := k + 1;
      }
    }

    /** Step 2: ".." behind an entry that is known not to be a link. Tells whether any other
        ".." is left. */
    method CancelUps() returns (nontrivial: bool)
      requires Valid() && FlagsOnNames(Entries())
      modifies this`first, this`nodes, this`slash, repr`prev, repr`next
      ensures Valid() && FlagsOnNames(Entries())
      ensures Cleaned(Entries(), slash) == Cancel([], old(Entries()), old(slash))
      ensures nontrivial <==> Unclean(Entries())
    {
      var work := first;
      ghost var k: nat := 0;
      nontrivial := false;
      assert Entries()[..0] == [] && Entries()[0..] == Entries();
      while work != null
        invariant Valid() && FlagsOnNames(Entries())
        invariant k <= |nodes| && work == At(nodes, k)
        invariant Cancel(Entries()[..k], Entries()[k..], slash) == Cancel([], old(Entries()), old(slash))
        invariant nontrivial <==> Unclean(Entries()[..k])
        decreases |nodes| - k
      {
        var kept;
        work, k, kept := CancelAt(work, k);
        nontrivial := nontrivial || kept;
      }
      assert Entries()[..k] == Entries();
    }

    /** duplicate_path_list_until: a new chain of the entries before the `k`-th, without their
        flags. */
    method DuplicateBefore(entry: PathEntry, ghost k: nat)
      returns (head: PathEntry?, ghost chain: seq<PathEntry>)
      requires Valid() && k < |nodes| && nodes[k] == entry
      ensures Valid() && unchanged(nodes) && Chain(chain) && head == At(chain, 0)
      ensures Snapshot(chain) == Mark(Comps(Entries()[..k]), 0)
      ensures forall i :: 0 <= i < |chain| ==> fresh(chain[i])
    {
      hide Chain, Snapshot, Mark;
      var work, last: PathEntry? := first, null;
      head, chain := null, [];
      EmptyChain();
      assert Entries()[..0] == [];
      while work != entry
        invariant |chain| <= k && work == nodes[|chain|]
        invariant Chain(chain) && head == At(chain, 0) && last == At(chain, |chain| - 1)
        invariant Snapshot(chain) == Mark(Comps(Entries()[..|chain|]), 0)
        invariant forall i :: 0 <= i < |chain| ==> fresh(chain[i])
        invariant Valid() && unchanged(nodes)
        decreases k - |chain|
      {
        CopyStep(nodes, |chain|);
        var copy := new PathEntry(work.comp);
        SnapshotSnoc(chain, copy);
        LinkLast(last, copy, chain);
        if last == null {
          head := copy;
        }
        last := copy;
        chain := chain + [copy];
        work := work.next;
      }
      OnePlace(nodes, |chain|, k);
    }

    /** The components before the `k`-th entry, as they are handed on for resolution. */
    method NamesBefore(entry: PathEntry, ghost k: nat) returns (names: seq<Comp>)
      requires Valid() && k < |nodes| && nodes[k] == entry
      ensures Valid() && unchanged(nodes) && names == Comps(Entries()[..k])
    {
      var head, chain := DuplicateBefore(entry, k);
      MarkAll(Comps(Entries()[..k]), 0);
      names := NamesOf(head, chain);
    }

    /** Puts other names, known to be real, in the place of all entries before the `k`-th. */
    method ReplaceFront(names: seq<Comp>, entry: PathEntry, ghost k: nat)
      requires Valid() && 0 < k < |nodes| && nodes[k] == entry
      modifies this`first, this`nodes, this`repr, repr`prev, repr`next
      ensures Valid() && fresh(repr - old(repr)) && old(repr) <= repr
      ensures Entries() == Flagged(names) + old(Entries())[k..]
    {
      hide Chain, Snapshot, Flagged;
      ghost var all;
      first, all := WithFront(names, entry, nodes, k);
      nodes := all;
      repr := repr + set n | n in all;
    }

    /** is_clean_path, as far as ".." goes. */
    method HasUps() returns (found: bool)
      requires Valid()
      ensures found == Unclean(Entries())
    {
      var work := first;
      ghost var k: nat := 0;
      while work != null
        invariant k <= |nodes| && work == At(nodes, k) && !Unclean(Entries()[..k])
        decreases |nodes| - k
      {
        assert Linked(nodes, k);
        SnapshotAt(nodes, k);
        if work.comp.Up? {
          assert Entries()[k].comp.Up?;
          return true;
        }
        assert Entries()[..k + 1] == Entries()[..k] + [Entries()[k]];
        work := work.next;
        k := k + 1;
      }
      assert Entries()[..k] == Entries();
      found := false;
    }

    /** Step 3 at a ".." whose parent is itself: both are unlinked. */
    method PopUp(entry: PathEntry, ghost k: nat) returns (next: PathEntry?)
      requires Valid() && k < |nodes| && nodes[k] == entry
      modifies this`first, this`nodes, this`slash, repr`prev, repr`next
      ensures Valid() && next == At(nodes, if k == 0 then 0 else k - 1)
      ensures Entries() == old(Init(Entries()[..k]) + Entries()[k + 1..])
      ensures slash == (old(slash) || k + 1 == old(|nodes|))
    {
      assert Linked(nodes, k);
      if entry.next == null {
        slash := true;
      }
      next := RemoveWithPrev(entry, k);
    }

    /** One round of step 3, at the `k`-th entry. */
    method SettleAt(entry: PathEntry, ghost k: nat, parent: Parent, ghost restarts: nat)
      returns (round: Round, next: PathEntry?, ghost k': nat)
      requires Valid() && k < |nodes| && nodes[k] == entry && FlagsOnNames(Entries())
      requires !Unclean(Entries()[..k]) && GoodParent(parent) && Ups(Entries()[k..]) <= restarts
      modifies this`first, this`nodes, this`slash, this`repr, repr`prev, repr`next
      ensures Valid() && FlagsOnNames(Entries()) && old(repr) <= repr && fresh(repr - old(repr))
      ensures
        RoundOk(parent, round, old(Entries()), k, old(slash), Entries(), k', slash, restarts)
      ensures round.Passed? ==> k' <= |nodes| && next == At(nodes, k') && |nodes| - k' < old(|nodes|) - k
    {
      assert Linked(nodes, k);
      SnapshotAt(nodes, k);
      hide Settle, CleanEntries, Unclean, FlagsOnNames, Snapshot, Ups, UpsLeft, Comps, Chain, GoodParent;
      SettleStep(Entries(), k, parent, slash, restarts);
      round, next, k' := Passed, entry.next, k + 1;
      if entry.comp.Up? {
        var names := NamesBefore(entry, k);
        var p := parent(names, slash);
        if !p.Resolved? {
          round := Failure(p);
        } else if PrintsSame(p.names, p.slash, names, slash) {
          next := PopUp(entry, k);
          k' := if k == 0 then 0 else k - 1;
        } else {
          round := Again;
          ReplaceFront(p.names, entry, k);
        }
      }
    }

    /** Step 3: resolves the parent of every ".." that is left. */
    method SettleUps(parent: Parent, ghost restarts: nat) returns (round: Round)
      requires Valid() && FlagsOnNames(Entries()) && GoodParent(parent) && Ups(Entries()) <= restarts
      modifies this`first, this`nodes, this`slash, this`repr, repr`prev, repr`next
      ensures Valid() && FlagsOnNames(Entries()) && old(repr) <= repr && fresh(repr - old(repr))
      ensures
        var whole := Settle(parent, [], old(Entries()), old(slash), restarts);
        match round
        case Passed => whole == Cleaned(Entries(), slash)
        case Failure(why) => whole == Stuck(why)
        case Again =>
          && UpsLeft(Entries()) < restarts
          && whole == CleanEntries(parent, Entries(), slash, restarts - 1)
    {
      var work := first;
      ghost var k: nat := 0;
      round := Passed;
      assert Entries()[..0] == [] && Entries()[0..] == Entries();
      while work != null
        invariant Valid() && FlagsOnNames(Entries()) && old(repr) <= repr && fresh(repr - old(repr))
        invariant round == Passed
        invariant k <= |nodes| && work == At(nodes, k) && !Unclean(Entries()[..k])
        invariant Ups(Entries()[k..]) <= restarts
        invariant Settle(parent, Entries()[..k], Entries()[k..], slash, restarts) ==
                  Settle(parent, [], old(Entries()), old(slash), restarts)
        decreases |nodes| - k
      {
        round, work, k := SettleAt(work, k, parent, restarts);
        if round != Passed {
          return;
        }
      }
      assert Entries()[..k] == Entries();
    }

    /** Steps 1 and 2. */
    method RemoveTrivialUps() returns (nontrivial: bool)
      requires Valid() && FlagsOnNames(Entries())
      modifies this`first, this`nodes, this`slash, repr`prev, repr`next
      ensures Valid() && FlagsOnNames(Entries())
      ensures Cleaned(Entries(), slash) == TrivialEntries(old(Entries()), old(slash))
      ensures nontrivial <==> Unclean(Entries())
    {
      var work := DropUps();
      DropFlags(old(Entries()));
      nontrivial := HasUps();
      if work != null && nontrivial {
        nontrivial := CancelUps();
      }
    }

    /** clean_dotdots_from_path, in place: None when the list is clean. */
    method CleanWithin(parent: Parent, ghost restarts: nat) returns (why: Option<Outcome>)
      requires Valid() && FlagsOnNames(Entries()) && GoodParent(parent) && UpsLeft(Entries()) <= restarts
      modifies this`first, this`nodes, this`slash, this`repr, repr`prev, repr`next
      ensures Valid() && old(repr) <= repr && fresh(repr - old(repr))
      ensures CleanEntries(parent, old(Entries()), old(slash), restarts) ==
              if why.Some? then Stuck(why.value) else Cleaned(Entries(), slash)
      decreases restarts
    {
      hide Settle, Ups, TrivialEntries, Unclean, Chain, FlagsOnNames, GoodParent, Snapshot;
      why := None;
      TrivialSlash(Entries(), slash);
      var nontrivial := RemoveTrivialUps();
      if nontrivial {
        var round := SettleUps(parent, restarts);
        if round.Failure? {
          why := Some(round.why);
        } else if round.Again? {
          why := CleanWithin(parent, restarts - 1);
        }
      }
    }

    /** Cleaning starts over no more often than there are "..", so nothing has to bound it. */
    method CleanDotdots(parent: Parent) returns (why: Option<Outcome>)
      requires Valid() && FlagsOnNames(Entries()) && GoodParent(parent)
      modifies this`first, this`nodes, this`slash, this`repr, repr`prev, repr`next
      ensures Valid() && old(repr) <= repr && fresh(repr - old(repr))
      ensures forall restarts: nat :: restarts >= Ups(old(Entries())) ==>
        CleanEntries(parent, old(Entries()), old(slash), restarts) ==
        if why.Some? then Stuck(why.value) else Cleaned(Entries(), slash)
    {
      ghost var es, enough := Entries(), Ups(Entries());
      FewerLeft(es);
      forall restarts: nat | restarts >= enough
        ensures CleanEntries(parent, es, slash, restarts) == CleanEntries(parent, es, slash, enough)
      {
        EnoughRestarts(parent, es, slash, enough, restarts);
      }
      why := CleanWithin(parent, enough);
    }
  }

  datatype Round = Passed | Failure(why: Outcome) | Again

  /** A round of step 3 leads to the same end: by going on, by failing, or by starting over. */
  ghost predicate RoundOk(parent: Parent, round: Round, es: seq<Entry>, k: nat, slash: bool,
                          es': seq<Entry>, k': nat, slash': bool, restarts: nat)
    requires k <= |es| && !Unclean(es[..k])
  {
    var before := Settle(parent, es[..k], es[k..], slash, restarts);
    match round
    case Passed =>
      && k' <= |es'| && !Unclean(es'[..k'])
      && before == Settle(parent, es'[..k'], es'[k'..], slash', restarts)
      && Ups(es'[k'..]) <= restarts
    case Failure(why) => before == Stuck(why)
    case Again => UpsLeft(es') < restarts && before == CleanEntries(parent, es', slash', restarts - 1)
  }

  /** What the list relies on: a clean path resolves to a clean path, and the root directory
      to itself. */
  ghost predicate GoodParent(parent: Parent) {
    && (forall p: seq<Comp>, slash: bool {:trigger parent(p, slash)} ::
          !HasUp(p) && parent(p, slash).Resolved? ==> !HasUp(parent(p, slash).names))
    && (forall slash: bool {:trigger parent([], slash)} ::
          parent([], slash).Resolved? ==> parent([], slash).names == [])
  }

  lemma {:induction false} EngineParentIsGood(sys: System, ctx: Context, depth: nat)
    requires 0 < depth
    ensures GoodParent(ParentOf(sys, ctx, depth))
  {
  }

  lemma {:induction false} DropFlags(es: seq<Entry>)
    requires FlagsOnNames(es)
    ensures FlagsOnNames(Drop(es))
  {
    if es != [] && es[0].comp.Up? {
      DropFlags(es[1..]);
    }
  }

  lemma {:induction false} CompsClean(es: seq<Entry>)
    ensures HasUp(Comps(es)) <==> Unclean(es)
    ensures forall i :: 0 <= i < |es| ==> Comps(es)[i] == es[i].comp
  {
    if es != [] {
      CompsClean(es[1..]);
      if Unclean(es) {
        var i :| 0 <= i < |es| && es[i].comp.Up?;
        assert Comps(es)[i].Up?;
      }
    }
  }

  lemma {:induction false} FlaggedNames(names: seq<Comp>)
    requires !HasUp(names)
    ensures FlagsOnNames(Flagged(names))
  {
    if names != [] {
      FlaggedNames(names[1..]);
    }
  }

  // ---------------------------------------------------------------- how often cleaning starts over

  function Ups(es: seq<Entry>): nat {
    if es == [] then 0 else (if es[0].comp.Up? then 1 else 0) + Ups(es[1..])
  }

  /** The ".." that the first two steps leave. */
  function UpsLeft(es: seq<Entry>): nat {
    Ups(TrivialEntries(es, false).entries)
  }

  lemma {:induction false} UpsAppend(a: seq<Entry>, b: seq<Entry>)
    ensures Ups(a + b) == Ups(a) + Ups(b)
  {
    if a == [] {
      assert a + b == b;
    } else {
      assert (a + b)[1..] == a[1..] + b;
      UpsAppend(a[1..], b);
    }
  }

  lemma UpsInit(a: seq<Entry>)
    ensures Ups(Init(a)) <= Ups(a)
  {
    if a != [] {
      assert a == Init(a) + [a[|a| - 1]];
      UpsAppend(Init(a), [a[|a| - 1]]);
    }
  }

  lemma {:induction false} UpsClean(names: seq<Comp>)
    requires !HasUp(names)
    ensures Ups(Flagged(names)) == 0
  {
    if names != [] {
      UpsClean(names[1..]);
    }
  }

  lemma {:induction false} UpsDrop(es: seq<Entry>)
    ensures Ups(Drop(es)) <= Ups(es)
    ensures es != [] && es[0].comp.Up? ==> Ups(Drop(es)) < Ups(es)
  {
    if es != [] && es[0].comp.Up? {
      UpsDrop(es[1..]);
    }
  }

  /** Step 2 removes a ".." that stands behind a flagged entry, and adds none. */
  lemma {:induction false} UpsCancel(done: seq<Entry>, todo: seq<Entry>, slash: bool)
    ensures Ups(Cancel(done, todo, slash).entries) <= Ups(done) + Ups(todo)
    ensures todo != [] && todo[0].comp.Up? && (done == [] || done[|done| - 1].flagged) ==>
            Ups(Cancel(done, todo, slash).entries) < Ups(done) + Ups(todo)
    decreases |todo|
  {
    if todo != [] {
      UpsInit(done);
      UpsCancel(Init(done), todo[1..], slash || |todo| == 1);
      UpsAppend(done, [todo[0]]);
      UpsCancel(done + [todo[0]], todo[1..], slash);
    }
  }

  lemma {:induction false} FlaggedLast(names: seq<Comp>)
    requires names != []
    ensures Flagged(names)[|names| - 1].flagged
  {
    if |names| > 1 {
      FlaggedLast(names[1..]);
    }
  }

  lemma FewerLeft(es: seq<Entry>)
    ensures UpsLeft(es) <= Ups(es)
  {
    UpsDrop(es);
    UpsCancel([], Drop(es), DropSlash(es, false));
  }

  /** Starting over at a "..", with the real path in front of it, removes it at once. */
  lemma RestartSpends(names: seq<Comp>, todo: seq<Entry>)
    requires !HasUp(names) && todo != [] && todo[0].comp.Up?
    ensures UpsLeft(Flagged(names) + todo) < Ups(todo)
  {
    var es := Flagged(names) + todo;
    UpsClean(names);
    UpsAppend(Flagged(names), todo);
    if names == [] {
      assert es == todo;
      UpsDrop(es);
      UpsCancel([], Drop(es), DropSlash(es, false));
    } else {
      assert es[|names|].comp.Up? && Unclean(es) && Drop(es) == es;
      FlaggedLast(names);
      CancelFront([], names, todo, DropSlash(es, false));
      assert [] + Flagged(names) == Flagged(names);
      UpsCancel(Flagged(names), todo, DropSlash(es, false));
    }
  }

  /** With as many restarts as ".." are left, more of them change nothing. */
  lemma {:induction false} EnoughRestarts(parent: Parent, es: seq<Entry>, slash: bool, enough: nat, restarts: nat)
    requires GoodParent(parent) && UpsLeft(es) <= enough <= restarts
    ensures CleanEntries(parent, es, slash, restarts) == CleanEntries(parent, es, slash, enough)
    decreases enough, 1, 0
  {
    var c := TrivialEntries(es, slash);
    TrivialSlash(es, slash);
    if Unclean(c.entries) {
      EnoughForSettle(parent, [], c.entries, c.slash, enough, restarts);
    }
  }

  lemma {:induction false} EnoughForSettle(parent: Parent, done: seq<Entry>, todo: seq<Entry>, slash: bool,
                                           enough: nat, restarts: nat)
    requires GoodParent(parent) && !Unclean(done) && Ups(todo) <= enough <= restarts
    ensures Settle(parent, done, todo, slash, restarts) == Settle(parent, done, todo, slash, enough)
    decreases enough, 0, |todo|
  {
    if todo != [] {
      if !todo[0].comp.Up? {
        EnoughForSettle(parent, done + [todo[0]], todo[1..], slash, enough, restarts);
      } else {
        CompsClean(done);
        var p := parent(Comps(done), slash);
        if p.Resolved? {
          if PrintsSame(p.names, p.slash, Comps(done), slash) {
            EnoughForSettle(parent, Init(done), todo[1..], slash || |todo| == 1, enough, restarts);
          } else {
            RestartSpends(p.names, todo);
            EnoughRestarts(parent, Flagged(p.names) + todo, slash, enough - 1, restarts - 1);
          }
        }
      }
    }
  }

  /** The slash does not matter for the entries. */
  lemma {:induction false} CancelIgnoresSlash(done: seq<Entry>, todo: seq<Entry>, slash: bool, slash': bool)
    ensures Cancel(done, todo, slash).entries == Cancel(done, todo, slash').entries
    decreases |todo|
  {
    if todo != [] {
      CancelIgnoresSlash(Init(done), todo[1..], slash || |todo| == 1, slash' || |todo| == 1);
      CancelIgnoresSlash(done + [todo[0]], todo[1..], slash, slash');
    }
  }

  lemma TrivialSlash(es: seq<Entry>, slash: bool)
    ensures TrivialEntries(es, slash).entries == TrivialEntries(es, false).entries
  {
    CancelIgnoresSlash([], Drop(es), DropSlash(es, slash), DropSlash(es, false));
  }

  lemma SettleHead(parent: Parent, done: seq<Entry>, todo: seq<Entry>, slash: bool, restarts: nat)
    requires todo != [] && !Unclean(done)
    ensures
      var r, p := Settle(parent, done, todo, slash, restarts), parent(Comps(done), slash);
      if !todo[0].comp.Up? then
        !Unclean(done + [todo[0]]) && r == Settle(parent, done + [todo[0]], todo[1..], slash, restarts)
      else if !p.Resolved? then r == Stuck(p)
      else if PrintsSame(p.names, p.slash, Comps(done), slash) then
        !Unclean(Init(done)) && r == Settle(parent, Init(done), todo[1..], slash || |todo| == 1, restarts)
      else if restarts == 0 then r == Stuck(OutOfStack)
      else r == CleanEntries(parent, Flagged(p.names) + todo, slash, restarts - 1)
  {
  }

  /** One round of step 3, on the entries. */
  lemma {:induction false} SettleStep(es: seq<Entry>, k: nat, parent: Parent, slash: bool, restarts: nat)
    requires k < |es| && FlagsOnNames(es) && !Unclean(es[..k]) && GoodParent(parent)
    requires Ups(es[k..]) <= restarts
    ensures
      var r, p := Settle(parent, es[..k], es[k..], slash, restarts), parent(Comps(es[..k]), slash);
      if !es[k].comp.Up? then
        && Ups(es[k + 1..]) <= restarts && !Unclean(es[..k + 1])
        && r == Settle(parent, es[..k + 1], es[k + 1..], slash, restarts)
      else if !p.Resolved? then r == Stuck(p)
      else if PrintsSame(p.names, p.slash, Comps(es[..k]), slash) then
        var es', k' := Init(es[..k]) + es[k + 1..], if k == 0 then 0 else k - 1;
        && FlagsOnNames(es') && !Unclean(es'[..k']) && Ups(es'[k'..]) <= restarts
        && r == Settle(parent, es'[..k'], es'[k'..], slash || k + 1 == |es|, restarts)
      else
        k > 0 && FlagsOnNames(Flagged(p.names) + es[k..]) && UpsLeft(Flagged(p.names) + es[k..]) < restarts
        && r == CleanEntries(parent, Flagged(p.names) + es[k..], slash, restarts - 1)
  {
    hide Settle, CleanEntries, UpsLeft, Comps;
    assert es[k..][0] == es[k] && es[k..][1..] == es[k + 1..];
    SettleHead(parent, es[..k], es[k..], slash, restarts);
    CompsClean(es[..k]);
    var p := parent(Comps(es[..k]), slash);
    if !es[k].comp.Up? {
      assert es[..k + 1] == es[..k] + [es[k]];
    } else if p.Resolved? {
      if PrintsSame(p.names, p.slash, Comps(es[..k]), slash) {
        CutTwo(es, k);
      } else {
        FlaggedNames(p.names);
        RestartSpends(p.names, es[k..]);
      }
    }
  }

  lemma UncleanSnoc(a: seq<Entry>, e: Entry)
    ensures Unclean(a + [e]) <==> Unclean(a) || e.comp.Up?
  {
    if Unclean(a) {
      var i :| 0 <= i < |a| && a[i].comp.Up?;
      assert (a + [e])[i].comp.Up?;
    }
    if e.comp.Up? {
      assert (a + [e])[|a|].comp.Up?;
    }
  }

  /** Unlinking the `k`-th entry and the one before it. */
  lemma CutTwo(es: seq<Entry>, k: nat)
    requires k < |es| && FlagsOnNames(es)
    ensures
      var es', k' := Init(es[..k]) + es[k + 1..], if k == 0 then 0 else k - 1;
      && es'[..k'] == Init(es[..k]) && es'[k'..] == es[k + 1..] && FlagsOnNames(es')
      && (k > 0 ==> es[..k] == Init(es[..k]) + [es[k - 1]])
  {
  }

  /** One round of step 2, on the entries. */
  lemma {:induction false} CancelStep(es: seq<Entry>, k: nat, slash: bool)
    requires k < |es| && FlagsOnNames(es)
    ensures
      if es[k].comp.Up? && (k == 0 || es[k - 1].flagged) then
        var es', k' := Init(es[..k]) + es[k + 1..], if k == 0 then 0 else k - 1;
        && Cancel(es[..k], es[k..], slash) == Cancel(es'[..k'], es'[k'..], slash || k + 1 == |es|)
        && FlagsOnNames(es')
        && (Unclean(es'[..k']) <==> Unclean(es[..k]))
      else
        && Cancel(es[..k], es[k..], slash) == Cancel(es[..k + 1], es[k + 1..], slash)
        && (Unclean(es[..k + 1]) <==> Unclean(es[..k]) || es[k].comp.Up?)
  {
    hide Cancel, Unclean;
    assert es[k..][0] == es[k] && es[k..][1..] == es[k + 1..];
    CancelHead(es[..k], es[k..], slash);
    if es[k].comp.Up? && (k == 0 || es[k - 1].flagged) {
      CutTwo(es, k);
      if k > 0 {
        UncleanSnoc(Init(es[..k]), es[k - 1]);
      }
    } else {
      assert es[..k + 1] == es[..k] + [es[k]];
      UncleanSnoc(es[..k], es[k]);
    }
  }

  // ---------------------------------------------------------------- the engine's cleaning, in place

  lemma {:induction false} CleanFront(sys: System, ctx: Context, l: PathList, depth: nat, restarts: nat)
    requires FrontIsNames(l)
    ensures
      var c := CleanDotdots(sys, ctx, l, depth, restarts);
      c.Clean? ==> FrontIsNames(c.list)
    decreases depth, restarts, 1, 0
  {
    hide Step3, TrivialUps;
    FrontStays(l);
    var l2 := TrivialUps(l);
    if HasUp(l2.names) {
      assert [] + l2.names == l2.names;
      Step3Front(sys, ctx, [], l2.known, l2.names, l2.slash, depth, restarts);
    }
  }

  lemma Step3Head(sys: System, ctx: Context, done: seq<Comp>, known: nat, todo: seq<Comp>,
                  slash: bool, depth: nat, restarts: nat)
    requires !HasUp(done) && todo != []
    ensures
      var c := Step3(sys, ctx, done, known, todo, slash, depth, restarts);
      if !todo[0].Up? then
        !HasUp(done + [todo[0]]) && c == Step3(sys, ctx, done + [todo[0]], known, todo[1..], slash, depth, restarts)
      else if depth == 0 then c == Dirty(OutOfStack)
      else
        var p := Resolve(sys, ParentContext(ctx), PathList(done, 0, slash), 0, depth - 1);
        && (p.Resolved? ==> !HasUp(p.names))
        && if !p.Resolved? then c == Dirty(p)
           else if PrintsSame(p.names, p.slash, done, slash) then
             && !HasUp(Init(done))
             && c == Step3(sys, ctx, Init(done), Min(known, |Init(done)|), todo[1..], slash || |todo| == 1, depth, restarts)
           else if restarts == 0 then c == Dirty(OutOfStack)
           else c == CleanDotdots(sys, ctx, PathList(p.names + todo, |p.names|, slash), depth, restarts - 1)
  {
    hide CleanDotdots;
  }

  lemma FrontAtEnd(sys: System, ctx: Context, done: seq<Comp>, known: nat, slash: bool, depth: nat, restarts: nat)
    requires !HasUp(done) && FrontIsNames(PathList(done + [], known, slash))
    ensures
      var c := Step3(sys, ctx, done, known, [], slash, depth, restarts);
      c.Clean? && FrontIsNames(c.list)
  {
    assert done + [] == done;
  }

  lemma FrontAfterPop(done: seq<Comp>, known: nat, todo: seq<Comp>, slash: bool, slash': bool)
    requires !HasUp(done) && todo != [] && todo[0].Up? && FrontIsNames(PathList(done + todo, known, slash))
    ensures FrontIsNames(PathList(Init(done) + todo[1..], Min(known, |Init(done)|), slash'))
  {
    UpIsBeyond(done, known, todo);
    PopMark(done, known, todo[1..]);
  }

  lemma FrontAfterRestart(names: seq<Comp>, todo: seq<Comp>, slash: bool)
    requires !HasUp(names)
    ensures FrontIsNames(PathList(names + todo, |names|, slash))
  {
    RestartMark(names, todo);
  }

  lemma {:induction false} Step3Front(sys: System, ctx: Context, done: seq<Comp>, known: nat, todo: seq<Comp>,
                                      slash: bool, depth: nat, restarts: nat)
    requires !HasUp(done) && FrontIsNames(PathList(done + todo, known, slash))
    ensures
      var c := Step3(sys, ctx, done, known, todo, slash, depth, restarts);
      c.Clean? ==> FrontIsNames(c.list)
    decreases depth, restarts, 0, |todo|
  {
    hide Resolve, CleanDotdots, Step3, HasUp, FrontIsNames, PrintsSame, Init, Min;
    if todo == [] {
      FrontAtEnd(sys, ctx, done, known, slash, depth, restarts);
    } else {
      Step3Head(sys, ctx, done, known, todo, slash, depth, restarts);
      if !todo[0].Up? {
        assert done + [todo[0]] + todo[1..] == done + todo;
        Step3Front(sys, ctx, done + [todo[0]], known, todo[1..], slash, depth, restarts);
      } else if depth > 0 {
        var p := Resolve(sys, ParentContext(ctx), PathList(done, 0, slash), 0, depth - 1);
        if p.Resolved? && PrintsSame(p.names, p.slash, done, slash) {
          FrontAfterPop(done, known, todo, slash, slash || |todo| == 1);
          Step3Front(sys, ctx, Init(done), Min(known, |Init(done)|), todo[1..], slash || |todo| == 1, depth, restarts);
        } else if p.Resolved? && restarts > 0 {
          FrontAfterRestart(p.names, todo, slash);
          CleanFront(sys, ctx, PathList(p.names + todo, |p.names|, slash), depth, restarts - 1);
        }
      }
    }
  }

  /** How many entries are flagged at the front. */
  method FlaggedFront(head: PathEntry?, ghost chain: seq<PathEntry>, ghost names: seq<Comp>, ghost known: nat)
    returns (n: nat)
    requires Chain(chain) && head == At(chain, 0)
    requires Snapshot(chain) == Mark(names, known) && known <= |names|
    ensures n == known
  {
    hide Mark, Snapshot;
    n := 0;
    var work := head;
    while work != null && work.flagged
      invariant n <= known && work == At(chain, n)
      decreases |chain| - n
    {
      assert Linked(chain, n);
      FlagAt(chain, names, known, n);
      work := work.next;
      n := n + 1;
    }
    if n < known {
      FlagAt(chain, names, known, n);
    }
  }

  lemma FlagAt(chain: seq<PathEntry>, names: seq<Comp>, known: nat, n: nat)
    requires n < |chain| && Snapshot(chain) == Mark(names, known)
    ensures chain[n].flagged == (n < known)
  {
    SnapshotAt(chain, n);
    MarkAt(names, known, n);
  }

  lemma {:induction false} MarkAt(names: seq<Comp>, known: nat, n: nat)
    requires n < |names|
    ensures Mark(names, known)[n] == Entry(names[n], n < known)
  {
    if n > 0 {
      MarkAt(names[1..], if known > 0 then known - 1 else 0, n - 1);
    }
  }

  lemma {:induction false} UpsOfMark(names: seq<Comp>, known: nat)
    ensures Ups(Mark(names, known)) == CountUps(names)
  {
    if names != [] {
      UpsOfMark(names[1..], if known > 0 then known - 1 else 0);
    }
  }

  /** The cleaning of "..", as the engine needs it, is done on a linked list. */
  method CleanInPlace(sys: System, ctx: Context, names: seq<Comp>, slash: bool, depth: nat) returns (c: CleanResult)
    requires 0 < depth
    ensures c == CleanDotdots(sys, ctx, PathList(names, 0, slash), depth, CountUps(names))
  {
    hide CleanDotdots, CleanEntries, Snapshot, Chain, Mark, GoodParent, FlagsOnNames, ParentOf, HasUp;
    ghost var l, restarts := PathList(names, 0, slash), CountUps(names);
    var list := new PathEntryList(names, slash);
    Prepared(sys, ctx, names, slash, depth);
    var why := list.CleanDotdots(ParentOf(sys, ctx, depth));
    ghost var c' := CleanDotdots(sys, ctx, l, depth, restarts);
    assert CleanEntries(ParentOf(sys, ctx, depth), Mark(names, 0), slash, restarts) == Marked(c');
    if why.Some? {
      return Dirty(why.value);
    }
    MarkAll(c'.list.names, c'.list.known);
    var left := NamesOf(list.first, list.nodes);
    var known := FlaggedFront(list.first, list.nodes, c'.list.names, c'.list.known);
    c := Clean(PathList(left, known, list.slash));
  }

  lemma Prepared(sys: System, ctx: Context, names: seq<Comp>, slash: bool, depth: nat)
    requires 0 < depth
    ensures
      var l, restarts := PathList(names, 0, slash), CountUps(names);
      var c := CleanDotdots(sys, ctx, l, depth, restarts);
      && GoodParent(ParentOf(sys, ctx, depth)) && FlagsOnNames(Mark(names, 0)) && Ups(Mark(names, 0)) == restarts
      && CleanEntries(ParentOf(sys, ctx, depth), Mark(names, 0), slash, restarts) == Marked(c)
      && (c.Clean? ==> c.list.known <= |c.list.names|)
  {
    hide CleanDotdots, CleanEntries, Mark;
    var l := PathList(names, 0, slash);
    assert names[..0] == [];
    EngineParentIsGood(sys, ctx, depth);
    MarkFlags(names, 0);
    UpsOfMark(names, 0);
    CleanMark(sys, ctx, l, depth, CountUps(names));
    CleanFront(sys, ctx, l, depth, CountUps(names));
  }
}
