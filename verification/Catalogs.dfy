/** Catalogs of the rule tree: linked lists of named entries whose values are offsets, of
    further catalogs or of other objects (rule_tree/rule_tree.c). */
module Catalogs {
  import opened Offsets

  datatype Name = Name(text: string)

  type Path = seq<Name>

  /** ruletree_catalog_entry_t */
  datatype CatEntry = CatEntry(name: Name, value: nat, next: nat)

  /** The catalog entries of the file by offset; every other offset holds something that is
      not a catalog entry, or nothing. */
  type Entries = map<nat, CatEntry>

  const ENTRY_SIZE: nat := 20
  const STRING_HEADER_SIZE: nat := 12

  function Init(p: Path): Path
    requires p != []
  {
    p[..|p| - 1]
  }

  function Last(p: Path): Name
    requires p != []
  {
    p[|p| - 1]
  }

  // ---------------------------------------------------------------- lists

  ghost predicate NextOk(m: Entries, e: nat)
    requires e in m
  {
    m[e].next != 0 ==> e < m[e].next && m[e].next in m
  }

  /** Lists are linked to larger offsets, so a scan of one ends. */
  ghost predicate Linear(m: Entries) {
    0 !in m && forall e {:trigger NextOk(m, e)} :: e in m ==> NextOk(m, e)
  }

  /** An entry at `e` in the catalog of path `home`: the next one belongs to the same catalog,
      a catalog that is its value is the one of its own path, and both lie behind it. */
  ghost predicate EntryOk(m: Entries, homes: map<nat, Path>, e: nat)
    requires e in m && m.Keys == homes.Keys
  {
    && (m[e].next != 0 ==> e < m[e].next && m[e].next in m && homes[m[e].next] == homes[e])
    && (m[e].value in m ==> e < m[e].value && homes[m[e].value] == homes[e] + [m[e].name])
  }

  /** All links point to larger offsets, and every entry belongs to one catalog only. */
  ghost predicate Ordered(m: Entries, homes: map<nat, Path>) {
    && m.Keys == homes.Keys && Linear(m)
    && forall e {:trigger EntryOk(m, homes, e)} :: e in m ==> EntryOk(m, homes, e)
  }

  /** ruletree_find_catalog_entry: the first entry of that name, from `e` on; 0 if none. */
  ghost function Find(m: Entries, e: nat, name: Name): (r: nat)
    requires Linear(m)
    ensures r != 0 ==> r in m && e in m && m[r].name == name
    decreases if e in m then Above(m, e) else {}
  {
    if e !in m then 0
    else
      assert NextOk(m, e);
      if m[e].name == name then e
      else if m[e].next == 0 then 0
      else
        AboveShrinks(m, e, m[e].next);
        Find(m, m[e].next, name)
  }

  /** find_last_catalog_entry */
  ghost function LastOf(m: Entries, e: nat): (r: nat)
    requires Linear(m) && e in m
    ensures r in m && m[r].next == 0
    decreases Above(m, e)
  {
    assert NextOk(m, e);
    if m[e].next == 0 then e
    else
      AboveShrinks(m, e, m[e].next);
      LastOf(m, m[e].next)
  }

  /** The value at a path: what ruletree_catalog_vget returns. For the empty path it is the
      root catalog. */
  ghost function Value(m: Entries, root: nat, p: Path): nat
    requires Linear(m)
    decreases |p|
  {
    if p == [] then root
    else
      var e := Find(m, Value(m, root, Init(p)), Last(p));
      if e == 0 then 0 else m[e].value
  }

  ghost predicate RootOk(m: Entries, homes: map<nat, Path>, root: nat) {
    root != 0 ==> root in m && root in homes && homes[root] == []
  }

  /** The entry that holds the value of a path; 0 if there is none. */
  ghost function EntryAt(m: Entries, root: nat, p: Path): nat
    requires Linear(m) && p != []
  {
    Find(m, Value(m, root, Init(p)), Last(p))
  }

  lemma {:induction false} FindHome(m: Entries, homes: map<nat, Path>, e: nat, x: Name)
    requires Ordered(m, homes)
    ensures
      var r := Find(m, e, x);
      r != 0 ==> r in m && e in m && homes[r] == homes[e]
    decreases if e in m then Above(m, e) else {}
  {
    if e in m {
      assert EntryOk(m, homes, e);
      if m[e].name != x && m[e].next != 0 {
        AboveShrinks(m, e, m[e].next);
        FindHome(m, homes, m[e].next, x);
      }
    }
  }

  lemma {:induction false} LastHome(m: Entries, homes: map<nat, Path>, e: nat)
    requires Ordered(m, homes) && e in m
    ensures homes[LastOf(m, e)] == homes[e]
    decreases Above(m, e)
  {
    assert EntryOk(m, homes, e);
    if m[e].next != 0 {
      AboveShrinks(m, e, m[e].next);
      LastHome(m, homes, m[e].next);
    }
  }

  /** A catalog found at a path is the catalog of that path, so an entry is found at one path
      only. */
  lemma {:induction false} ValueHome(m: Entries, homes: map<nat, Path>, root: nat, p: Path)
    requires Ordered(m, homes) && RootOk(m, homes, root)
    ensures Value(m, root, p) in m ==> homes[Value(m, root, p)] == p
    decreases |p|
  {
    if p != [] {
      ValueHome(m, homes, root, Init(p));
      var e := EntryAt(m, root, p);
      FindHome(m, homes, Value(m, root, Init(p)), Last(p));
      assert Init(p) + [Last(p)] == p;
      if e != 0 {
        assert EntryOk(m, homes, e);
      }
    }
  }

  lemma {:induction false} EntryHome(m: Entries, homes: map<nat, Path>, root: nat, p: Path)
    requires Ordered(m, homes) && RootOk(m, homes, root) && p != []
    ensures
      var e := EntryAt(m, root, p);
      e != 0 ==> e in m && homes[e] == Init(p) && m[e].name == Last(p)
  {
    ValueHome(m, homes, root, Init(p));
    FindHome(m, homes, Value(m, root, Init(p)), Last(p));
  }

  predicate IsPrefix(p: Path, q: Path) {
    |p| <= |q| && q[..|p|] == p
  }

  /** Where there is no catalog there is nothing below. */
  lemma {:induction false} NothingBelow(m: Entries, root: nat, p: Path, q: Path)
    requires Linear(m) && IsPrefix(p, q) && p != q
    requires Value(m, root, p) !in m
    ensures Value(m, root, q) == 0
    decreases |q|
  {
    if |q| == |p| + 1 {
      assert Init(q) == p;
    } else {
      assert Init(q)[..|p|] == q[..|p|];
      NothingBelow(m, root, p, Init(q));
      assert Value(m, root, Init(q)) == 0;
    }
  }

  // ---------------------------------------------------------------- what updates change

  /** Nothing refers to `n`. */
  ghost predicate Unused(m: Entries, root: nat, n: nat) {
    n != 0 && n != root && forall e :: e in m ==> m[e].next != n && m[e].value != n
  }

  function WithEntry(m: Entries, n: nat, name: Name): Entries {
    m[n := CatEntry(name, 0, 0)]
  }

  /** A new entry that is not linked yet. */
  lemma AddOrdered(m: Entries, homes: map<nat, Path>, root: nat, n: nat, name: Name, home: Path)
    requires Ordered(m, homes) && n !in m && Unused(m, root, n)
    ensures Ordered(WithEntry(m, n, name), homes[n := home])
  {
    var m', homes' := WithEntry(m, n, name), homes[n := home];
    forall e | e in m' ensures EntryOk(m', homes', e) && NextOk(m', e) {
      assert e != n ==> EntryOk(m, homes, e);
    }
  }

  lemma {:induction false} AddFind(m: Entries, root: nat, n: nat, name: Name, e: nat, x: Name)
    requires Linear(m) && n !in m && Unused(m, root, n) && e != n && Linear(WithEntry(m, n, name))
    ensures Find(WithEntry(m, n, name), e, x) == Find(m, e, x)
    decreases if e in m then Above(m, e) else {}
  {
    if e in m {
      assert NextOk(m, e);
      if m[e].name != x && m[e].next != 0 {
        AboveShrinks(m, e, m[e].next);
        AddFind(m, root, n, name, m[e].next, x);
      }
    }
  }

  lemma {:induction false} AddValue(m: Entries, root: nat, n: nat, name: Name, q: Path)
    requires Linear(m) && n !in m && Unused(m, root, n) && Linear(WithEntry(m, n, name))
    ensures Value(WithEntry(m, n, name), root, q) == Value(m, root, q) != n
    decreases |q|
  {
    if q != [] {
      AddValue(m, root, n, name, Init(q));
      AddFind(m, root, n, name, Value(m, root, Init(q)), Last(q));
    }
  }

  /** An entry without value that is not linked from anywhere. */
  ghost predicate Loose(m: Entries, root: nat, n: nat) {
    n in m && m[n].value == 0 && m[n].next == 0 && Unused(m, root, n)
  }

  function Linked(m: Entries, last: nat, n: nat): Entries
    requires last in m
  {
    m[last := m[last].(next := n)]
  }

  /** A loose entry may be linked behind the last one of its catalog. */
  ghost predicate CanLink(m: Entries, homes: map<nat, Path>, root: nat, last: nat, n: nat) {
    && Ordered(m, homes) && Loose(m, root, n)
    && last in m && last < n && m[last].next == 0 && homes[last] == homes[n]
  }

  lemma LinkOrdered(m: Entries, homes: map<nat, Path>, root: nat, last: nat, n: nat)
    requires CanLink(m, homes, root, last, n)
    ensures Ordered(Linked(m, last, n), homes)
  {
    var m' := Linked(m, last, n);
    forall e | e in m' ensures EntryOk(m', homes, e) && NextOk(m', e) {
      assert EntryOk(m, homes, e);
    }
  }

  lemma {:induction false} LastIsNotLoose(m: Entries, homes: map<nat, Path>, root: nat, n: nat, e: nat)
    requires Ordered(m, homes) && Unused(m, root, n) && e in m && e != n
    ensures LastOf(m, e) != n
    decreases Above(m, e)
  {
    assert EntryOk(m, homes, e);
    if m[e].next != 0 {
      AboveShrinks(m, e, m[e].next);
      LastIsNotLoose(m, homes, root, n, m[e].next);
    }
  }

  /** After linking, a search from `e` finds what it found before; where it found nothing it
      may now find the new entry. */
  lemma {:induction false} LinkFind(m: Entries, homes: map<nat, Path>, root: nat, last: nat, n: nat, e: nat, x: Name)
    requires CanLink(m, homes, root, last, n) && Ordered(Linked(m, last, n), homes) && e != n
    ensures
      var r := Find(m, e, x);
      Find(Linked(m, last, n), e, x) ==
      if r == 0 && e in m && LastOf(m, e) == last && m[n].name == x then n else r
    decreases if e in m then Above(m, e) else {}
  {
    var m' := Linked(m, last, n);
    if e in m {
      assert EntryOk(m, homes, e) && EntryOk(m', homes, e) && EntryOk(m', homes, n);
      if m[e].name != x {
        if m[e].next != 0 {
          AboveShrinks(m, e, m[e].next);
          LinkFind(m, homes, root, last, n, m[e].next, x);
        } else if e == last {
          assert Find(m', n, x) == if m[n].name == x then n else 0;
        }
      }
    }
  }

  lemma {:induction false} LinkValue(m: Entries, homes: map<nat, Path>, root: nat, last: nat, n: nat, q: Path)
    requires CanLink(m, homes, root, last, n) && Ordered(Linked(m, last, n), homes)
    ensures Value(Linked(m, last, n), root, q) == Value(m, root, q) != n
    decreases |q|
  {
    if q != [] {
      LinkValue(m, homes, root, last, n, Init(q));
      LinkFind(m, homes, root, last, n, Value(m, root, Init(q)), Last(q));
    }
  }

  function Set(m: Entries, e: nat, v: nat): Entries
    requires e in m
  {
    m[e := m[e].(value := v)]
  }

  /** A value may be set to the catalog of the entry's own path, or to what is no catalog. */
  ghost predicate CanSet(m: Entries, homes: map<nat, Path>, root: nat, e: nat, v: nat) {
    && Ordered(m, homes) && RootOk(m, homes, root) && e in m
    && (v in m ==> e < v && homes[v] == homes[e] + [m[e].name])
  }

  lemma SetOrdered(m: Entries, homes: map<nat, Path>, root: nat, e: nat, v: nat)
    requires CanSet(m, homes, root, e, v)
    ensures Ordered(Set(m, e, v), homes)
  {
    var m' := Set(m, e, v);
    forall k | k in m' ensures EntryOk(m', homes, k) && NextOk(m', k) {
      assert EntryOk(m, homes, k);
    }
  }

  lemma {:induction false} SetFind(m: Entries, e: nat, v: nat, k: nat, x: Name)
    requires Linear(m) && e in m && Linear(Set(m, e, v))
    ensures Find(Set(m, e, v), k, x) == Find(m, k, x)
    decreases if k in m then Above(m, k) else {}
  {
    if k in m {
      assert NextOk(m, k) && NextOk(Set(m, e, v), k);
      if m[k].name != x && m[k].next != 0 {
        AboveShrinks(m, k, m[k].next);
        SetFind(m, e, v, m[k].next, x);
      }
    }
  }

  /** Setting the value of an entry changes what is found at its path, if it is found there,
      and below it; nothing else. */
  lemma {:induction false} SetValue(m: Entries, homes: map<nat, Path>, root: nat, e: nat, v: nat, q: Path)
    requires Ordered(m, homes) && RootOk(m, homes, root) && e in m && Linear(Set(m, e, v))
    ensures
      var p, m' := homes[e] + [m[e].name], Set(m, e, v);
      && (EntryAt(m, root, p) != e || !IsPrefix(p, q) ==>
            Value(m', root, q) == Value(m, root, q))
      && (EntryAt(m, root, p) == e && q == p ==> Value(m', root, q) == v)
    decreases |q|
  {
    hide Find;
    var p := homes[e] + [m[e].name];
    if q != [] {
      SetValue(m, homes, root, e, v, Init(q));
      SetFind(m, e, v, Value(m, root, Init(q)), Last(q));
      EntryHome(m, homes, root, q);
      assert Init(q) + [Last(q)] == q;
      if IsPrefix(p, Init(q)) {
        assert q[..|p|] == Init(q)[..|p|];
      }
      if q == p {
        assert !IsPrefix(p, Init(q));
      }
    }
  }

  /** Below a catalog whose only entry has no value there is nothing. */
  lemma {:induction false} BelowNew(m: Entries, root: nat, p: Path, q: Path)
    requires Linear(m) && IsPrefix(p, q) && p != q
    requires
      var n := Value(m, root, p);
      n in m && m[n].value == 0 && m[n].next == 0
    ensures Value(m, root, q) == 0
  {
    var r := q[..|p| + 1];
    assert Init(r) == p;
    if r != q {
      NothingBelow(m, root, r, q);
    }
  }

  // ---------------------------------------------------------------- the store

  /** The object at a path, as far as it is not a catalog itself: 0 when there is none. */
  ghost function Leaf(m: Entries, root: nat, p: Path): nat
    requires Linear(m)
  {
    var v := Value(m, root, p);
    if v in m then 0 else v
  }

  /** Giving an empty catalog its first entry, which has no value, changes what is found at its
      own path only, where nothing was found before; and no object. */
  lemma {:induction false} FirstValue(m: Entries, homes: map<nat, Path>, root: nat, parent: nat, n: nat,
                                      p: Path, q: Path)
    requires CanSet(m, homes, root, parent, n) && Loose(m, root, n) && m[parent].value == 0
    requires p == homes[parent] + [m[parent].name] && Linear(Set(m, parent, n))
    ensures
      var was, now := Value(m, root, q), Value(Set(m, parent, n), root, q);
      now == was || (q == p && was == 0 && now == n)
  {
    SetValue(m, homes, root, parent, n, q);
    if EntryAt(m, root, p) == parent && IsPrefix(p, q) {
      SetValue(m, homes, root, parent, n, p);
      assert Value(m, root, p) == 0;
      if p != q {
        NothingBelow(m, root, p, q);
        BelowNew(Set(m, parent, n), root, p, q);
      }
    }
  }

  lemma {:induction false} FirstEntry(m: Entries, homes: map<nat, Path>, root: nat, parent: nat, n: nat, p: Path)
    requires CanSet(m, homes, root, parent, n) && Loose(m, root, n)
    requires p == homes[parent] + [m[parent].name] && Ordered(Set(m, parent, n), homes)
    ensures EntryAt(m, root, p) == parent ==>
            EntryAt(Set(m, parent, n), root, p + [m[n].name]) == n
  {
    var p' := p + [m[n].name];
    assert Init(p') == p && Last(p') == m[n].name;
    SetValue(m, homes, root, parent, n, p);
  }

  /** A state of the catalogs. */
  datatype State = State(m: Entries, homes: map<nat, Path>, root: nat)

  ghost predicate Sound(s: State) {
    Ordered(s.m, s.homes) && RootOk(s.m, s.homes, s.root)
  }

  ghost function ValueIn(s: State, p: Path): nat
    requires Linear(s.m)
  {
    Value(s.m, s.root, p)
  }

  ghost function LeafIn(s: State, p: Path): nat
    requires Linear(s.m)
  {
    Leaf(s.m, s.root, p)
  }

  ghost function EntryIn(s: State, p: Path): nat
    requires Linear(s.m) && p != []
  {
    EntryAt(s.m, s.root, p)
  }

  ghost predicate SameValues(s: State, s': State)
    requires Sound(s) && Sound(s')
  {
    forall q {:trigger ValueIn(s', q)} :: ValueIn(s', q) == ValueIn(s, q)
  }

  /** Nothing is changed but the value at `p`, and that only if there was none. */
  ghost predicate OnlyFills(s: State, s': State, p: Path)
    requires Sound(s) && Sound(s')
  {
    forall q {:trigger ValueIn(s', q)} :: ValueIn(s', q) == ValueIn(s, q) || (q == p && ValueIn(s, q) == 0)
  }

  /** Every value stays, except that catalogs may have been added on the way to `p`. */
  ghost predicate Keeps(s: State, s': State, p: Path)
    requires Linear(s.m) && Linear(s'.m)
  {
    forall q {:trigger ValueIn(s', q)} ::
      ValueIn(s, q) != 0 || !IsPrefix(q, p) ==> ValueIn(s', q) == ValueIn(s, q)
  }

  lemma SameValuesTrans(s: State, mid: State, s': State)
    requires Sound(s) && Sound(mid) && Sound(s') && SameValues(s, mid) && SameValues(mid, s')
    ensures SameValues(s, s')
  {
    forall q ensures ValueIn(s', q) == ValueIn(s, q) {
      assert ValueIn(mid, q) == ValueIn(s, q);
    }
  }

  lemma FillsAfterSame(s: State, mid: State, s': State, p: Path)
    requires Sound(s) && Sound(mid) && Sound(s') && SameValues(s, mid) && OnlyFills(mid, s', p)
    ensures OnlyFills(s, s', p)
  {
    forall q ensures ValueIn(s', q) == ValueIn(s, q) || (q == p && ValueIn(s, q) == 0) {
      assert ValueIn(mid, q) == ValueIn(s, q);
    }
  }

  lemma KeepsTrans(s: State, mid: State, s': State, p: Path, i: nat)
    requires Sound(s) && Sound(mid) && Sound(s') && i <= |p|
    requires Keeps(s, mid, p) && OnlyFills(mid, s', p[..i])
    ensures Keeps(s, s', p)
  {
    forall q | ValueIn(s, q) != 0 || !IsPrefix(q, p) ensures ValueIn(s', q) == ValueIn(s, q) {
      assert ValueIn(mid, q) == ValueIn(s, q);
    }
  }

  ghost predicate SameLeaves(s: State, s': State)
    requires Sound(s) && Sound(s')
  {
    forall q {:trigger LeafIn(s', q)} :: q != [] ==> LeafIn(s', q) == LeafIn(s, q)
  }

  lemma CreateStep(s: State, n: nat, name: Name, home: Path)
    requires Sound(s) && n !in s.m && Unused(s.m, s.root, n)
    ensures
      var s' := State(WithEntry(s.m, n, name), s.homes[n := home], s.root);
      && Sound(s') && SameValues(s, s') && SameLeaves(s, s')
      && (forall p :: p != [] ==> EntryIn(s', p) == EntryIn(s, p))
      && (forall e :: e != n ==> Find(s'.m, e, name) == Find(s.m, e, name))
  {
    var s' := State(WithEntry(s.m, n, name), s.homes[n := home], s.root);
    AddOrdered(s.m, s.homes, s.root, n, name, home);
    forall q ensures ValueIn(s', q) == ValueIn(s, q) != n && LeafIn(s', q) == LeafIn(s, q) {
      AddValue(s.m, s.root, n, name, q);
    }
    forall p | p != [] ensures EntryIn(s', p) == EntryIn(s, p) {
      AddValue(s.m, s.root, n, name, Init(p));
      AddFind(s.m, s.root, n, name, ValueIn(s, Init(p)), Last(p));
    }
    forall e | e != n ensures Find(s'.m, e, name) == Find(s.m, e, name) {
      AddFind(s.m, s.root, n, name, e, name);
    }
  }

  lemma LinkStep(s: State, last: nat, n: nat, start: nat)
    requires Sound(s) && CanLink(s.m, s.homes, s.root, last, n) && start in s.m && start != n
    requires LastOf(s.m, start) == last
    ensures
      var s' := State(Linked(s.m, last, n), s.homes, s.root);
      && Sound(s') && SameValues(s, s') && SameLeaves(s, s')
      && Find(s'.m, start, s.m[n].name) ==
         (var r := Find(s.m, start, s.m[n].name); if r == 0 then n else r)
  {
    var s' := State(Linked(s.m, last, n), s.homes, s.root);
    LinkOrdered(s.m, s.homes, s.root, last, n);
    LinkFind(s.m, s.homes, s.root, last, n, start, s.m[n].name);
    forall q ensures ValueIn(s', q) == ValueIn(s, q) && LeafIn(s', q) == LeafIn(s, q) {
      LinkValue(s.m, s.homes, s.root, last, n, q);
    }
  }

  lemma FirstStep(s: State, parent: nat, n: nat, p: Path)
    requires Sound(s) && CanSet(s.m, s.homes, s.root, parent, n) && Loose(s.m, s.root, n)
    requires s.m[parent].value == 0 && p == s.homes[parent] + [s.m[parent].name]
    ensures
      var s' := State(Set(s.m, parent, n), s.homes, s.root);
      && Sound(s') && SameLeaves(s, s') && OnlyFills(s, s', p)
      && (EntryIn(s, p) == parent ==> EntryIn(s', p + [s.m[n].name]) == n)
  {
    var s' := State(Set(s.m, parent, n), s.homes, s.root);
    SetOrdered(s.m, s.homes, s.root, parent, n);
    FirstEntry(s.m, s.homes, s.root, parent, n, p);
    forall q
      ensures ValueIn(s', q) == ValueIn(s, q) || (q == p && ValueIn(s, q) == 0)
      ensures LeafIn(s', q) == LeafIn(s, q)
    {
      FirstValue(s.m, s.homes, s.root, parent, n, p, q);
    }
  }

  lemma RootStep(s: State, n: nat)
    requires Sound(s) && Loose(s.m, s.root, n) && s.root == 0 && s.homes[n] == []
    ensures
      var s' := s.(root := n);
      && Sound(s') && SameLeaves(s, s') && OnlyFills(s, s', []) && EntryIn(s', [s.m[n].name]) == n
  {
    var s', p := s.(root := n), [s.m[n].name];
    assert Init(p) == [];
    forall q | q != [] ensures ValueIn(s', q) == ValueIn(s, q) && LeafIn(s', q) == LeafIn(s, q) {
      NothingBelow(s.m, 0, [], q);
      BelowNew(s.m, n, [], q);
    }
  }

  /** What setting a path to an object means for the objects at all paths: nothing when an
      object stands in the way; else the path gets the object, and what was below is gone. */
  ghost predicate Blocked(s: State, p: Path)
    requires Sound(s)
  {
    exists k {:trigger p[..k]} :: 0 < k < |p| && LeafIn(s, p[..k]) != 0
  }

  ghost predicate IsSet(s: State, s': State, p: Path, v: nat)
    requires Sound(s) && Sound(s')
  {
    forall q {:trigger LeafIn(s', q)} :: q != [] ==>
      LeafIn(s', q) ==
      if Blocked(s, p) then LeafIn(s, q)
      else if q == p then v
      else if IsPrefix(p, q) then 0
      else LeafIn(s, q)
  }

  /** Behind an object there is no entry. */
  lemma BlockedEntry(s: State, p: Path)
    requires Sound(s) && p != [] && Blocked(s, p)
    ensures EntryIn(s, p) == 0
  {
    var k :| 0 < k < |p| && LeafIn(s, p[..k]) != 0;
    assert Init(p)[..k] == p[..k];
    if k < |p| - 1 {
      NothingBelow(s.m, s.root, p[..k], Init(p));
    } else {
      assert Init(p) == p[..k];
    }
  }

  /** What setting a path means for the values at all paths: the path gets the value, unless an
      object stands in the way; and whatever is not below it keeps its own, except that
      catalogs may have been added on the way. */
  ghost predicate ValueIsSet(s: State, s': State, p: Path, v: nat)
    requires Sound(s) && Linear(s'.m)
  {
    && (Blocked(s, p) ==> Keeps(s, s', p))
    && (!Blocked(s, p) ==> ValueIn(s', p) == v)
    && (forall q {:trigger ValueIn(s', q)} ::
          !IsPrefix(p, q) && (ValueIn(s, q) != 0 || !IsPrefix(q, p)) ==> ValueIn(s', q) == ValueIn(s, q))
  }

  /** Any value may be set, also a catalog that has another path already. */
  lemma SetAny(s: State, mid: State, e: nat, v: nat, p: Path)
    requires Sound(s) && Sound(mid) && SameLeaves(s, mid) && Keeps(s, mid, p)
    requires e in mid.m && p == mid.homes[e] + [mid.m[e].name] && (Blocked(mid, p) || EntryIn(mid, p) == e)
    ensures
      var s' := State(Set(mid.m, e, v), mid.homes, mid.root);
      Linear(s'.m) && ValueIsSet(s, s', p, v)
  {
    hide Blocked, Keeps;
    var s' := State(Set(mid.m, e, v), mid.homes, mid.root);
    SetLinear(mid.m, e, v);
    SameBlocked(s, mid, p);
    if Blocked(mid, p) {
      BlockedEntry(mid, p);
    }
    forall q
      ensures Blocked(mid, p) || !IsPrefix(p, q) ==> ValueIn(s', q) == ValueIn(mid, q)
      ensures !Blocked(mid, p) && q == p ==> ValueIn(s', q) == v
    {
      SetValue(mid.m, mid.homes, mid.root, e, v, q);
    }
    ValuesAfter(s, mid, s', p, v);
  }

  lemma ValuesAfter(s: State, mid: State, s': State, p: Path, v: nat)
    requires Sound(s) && Sound(mid) && Linear(s'.m) && Keeps(s, mid, p) && (Blocked(s, p) <==> Blocked(mid, p))
    requires forall q {:trigger ValueIn(s', q)} ::
      && (Blocked(mid, p) || !IsPrefix(p, q) ==> ValueIn(s', q) == ValueIn(mid, q))
      && (!Blocked(mid, p) && q == p ==> ValueIn(s', q) == v)
    ensures ValueIsSet(s, s', p, v)
  {
    hide Blocked;
    forall q | ValueIn(s, q) != 0 || !IsPrefix(q, p)
      ensures Blocked(s, p) || !IsPrefix(p, q) ==> ValueIn(s', q) == ValueIn(s, q)
    {
      assert ValueIn(mid, q) == ValueIn(s, q);
    }
  }

  lemma SetLinear(m: Entries, e: nat, v: nat)
    requires Linear(m) && e in m
    ensures Linear(Set(m, e, v))
  {
    forall k | k in m ensures NextOk(Set(m, e, v), k) {
      assert NextOk(m, k);
    }
  }

  lemma SetStep(s: State, e: nat, v: nat, p: Path)
    requires Sound(s) && e in s.m && v !in s.m && p == s.homes[e] + [s.m[e].name]
    requires Blocked(s, p) || EntryIn(s, p) == e
    ensures
      var s' := State(Set(s.m, e, v), s.homes, s.root);
      Sound(s') && IsSet(s, s', p, v)
  {
    var s' := State(Set(s.m, e, v), s.homes, s.root);
    SetOrdered(s.m, s.homes, s.root, e, v);
    if Blocked(s, p) {
      BlockedEntry(s, p);
    }
    forall q | q != []
      ensures LeafIn(s', q) == if Blocked(s, p) then LeafIn(s, q)
                               else if q == p then v
                               else if IsPrefix(p, q) then 0
                               else LeafIn(s, q)
    {
      SetValue(s.m, s.homes, s.root, e, v, q);
      if !Blocked(s, p) && IsPrefix(p, q) && p != q {
        SetValue(s.m, s.homes, s.root, e, v, p);
        NothingBelow(s'.m, s.root, p, q);
      }
    }
  }

  lemma ValueSnoc(s: State, p: Path, i: nat)
    requires Linear(s.m) && i < |p|
    ensures
      var e := Find(s.m, ValueIn(s, p[..i]), p[i]);
      ValueIn(s, p[..i + 1]) == if e == 0 then 0 else s.m[e].value
  {
    assert Init(p[..i + 1]) == p[..i] && Last(p[..i + 1]) == p[i];
  }

  lemma SameLeavesTrans(s: State, mid: State, s': State)
    requires Sound(s) && Sound(mid) && Sound(s') && SameLeaves(s, mid) && SameLeaves(mid, s')
    ensures SameLeaves(s, s')
  {
    forall q | q != [] ensures LeafIn(s', q) == LeafIn(s, q) {
      assert LeafIn(mid, q) == LeafIn(s, q);
    }
  }

  lemma SameBlocked(s: State, s': State, p: Path)
    requires Sound(s) && Sound(s') && SameLeaves(s, s')
    ensures Blocked(s, p) <==> Blocked(s', p)
  {
    assert forall k :: 0 < k < |p| ==> LeafIn(s', p[..k]) == LeafIn(s, p[..k]);
  }

  lemma SetAfterSame(s: State, mid: State, s': State, p: Path, v: nat)
    requires Sound(s) && Sound(mid) && Sound(s') && SameLeaves(s, mid) && IsSet(mid, s', p, v)
    ensures IsSet(s, s', p, v)
  {
    SameBlocked(s, mid, p);
    forall q | q != []
      ensures LeafIn(s', q) == if Blocked(s, p) then LeafIn(s, q)
                               else if q == p then v
                               else if IsPrefix(p, q) then 0
                               else LeafIn(s, q)
    {
      assert LeafIn(mid, q) == LeafIn(s, q);
    }
  }

  /** An object at a path, or in the way to it, is in the way to whatever lies below. */
  lemma BlocksBelow(s: State, s': State, p: Path, name: Name)
    requires Sound(s) && Sound(s') && SameLeaves(s, s')
    ensures Blocked(s, p) || (p != [] && LeafIn(s, p) != 0) ==> Blocked(s', p + [name])
  {
    var p' := p + [name];
    SameBlocked(s, s', p);
    assert forall k :: 0 < k <= |p| ==> p'[..k] == p[..k];
    if p != [] && LeafIn(s, p) != 0 {
      assert p[..|p|] == p && p'[..|p|] == p && LeafIn(s', p) != 0;
    }
    if Blocked(s', p) {
      var k :| 0 < k < |p| && LeafIn(s', p[..k]) != 0;
      assert LeafIn(s', p'[..k]) != 0;
    }
  }

  /** Entries are only ever added behind the end of the file. */
  ghost predicate Grown(m: Entries, size: nat, m': Entries) {
    forall e :: e in m' ==> e in m || size <= e
  }

  lemma GrownTrans(m: Entries, size: nat, mid: Entries, midSize: nat, m': Entries)
    requires Grown(m, size, mid) && Grown(mid, midSize, m') && size <= midSize
    ensures Grown(m, size, m')
  {
  }

  lemma Unchanged(s: State, size: nat, p: Path)
    requires Sound(s)
    ensures SameLeaves(s, s) && Keeps(s, s, p) && Grown(s.m, size, s.m)
  {
  }

  /** Where a path goes on: below a catalog, or below nothing, or behind an object. */
  lemma StillOpen(s: State, s': State, p: Path, name: Name, start: nat)
    requires Sound(s) && Sound(s') && SameLeaves(s, s')
    ensures Blocked(s, p) ==> Blocked(s', p + [name])
    ensures p != [] && EntryIn(s, p) != 0 && start == s.m[EntryIn(s, p)].value && start != 0 && start !in s.m ==>
            Blocked(s', p + [name])
  {
    BlocksBelow(s, s', p, name);
    if p != [] && EntryIn(s, p) != 0 {
      assert ValueIn(s, p) == s.m[EntryIn(s, p)].value;
    }
  }

  class CatalogStore {
    var entries: Entries
    var root: nat
    var fileSize: nat
    ghost var homes: map<nat, Path>

    ghost function Now(): State
      reads this
    {
      State(entries, homes, root)
    }

    ghost predicate Valid()
      reads this
    {
      && Sound(Now())
      && root < fileSize
      && forall e :: e in entries ==> e < fileSize && entries[e].value < fileSize
    }

    constructor ()
      ensures Valid() && forall p {:trigger ValueIn(Now(), p)} :: ValueIn(Now(), p) == 0
    {
      entries, root, fileSize, homes := map[], 0, 1, map[];
      new;
      forall p ensures ValueIn(Now(), p) == 0 {
        if p != [] {
          NothingBelow(entries, root, [], p);
        }
      }
    }

    method FindEntry(start: nat, name: Name) returns (e: nat)
      requires Linear(entries)
      ensures e == Find(entries, start, name)
    {
      e := start;
      while e in entries && entries[e].name != name
        invariant Find(entries, e, name) == Find(entries, start, name)
        decreases if e in entries then Above(entries, e) else {}
      {
        assert NextOk(entries, e) && e in Above(entries, e);
        if entries[e].next != 0 {
          AboveShrinks(entries, e, entries[e].next);
        }
        e := entries[e].next;
      }
      if e !in entries {
        e := 0;
      }
    }

    method FindLast(start: nat) returns (last: nat)
      requires Linear(entries) && start in entries
      ensures last == LastOf(entries, start)
    {
      last := start;
      while entries[last].next != 0
        invariant last in entries && LastOf(entries, last) == LastOf(entries, start)
        decreases Above(entries, last)
      {
        assert NextOk(entries, last);
        AboveShrinks(entries, last, entries[last].next);
        last := entries[last].next;
      }
    }

    /** ruletree_catalog_vget */
    method VGet(path: Path) returns (v: nat)
      requires Linear(entries)
      ensures v == if path == [] then 0 else ValueIn(Now(), path)
    {
      v := 0;
      var i := 0;
      while i < |path|
        invariant i <= |path| && v == if i == 0 then 0 else ValueIn(Now(), path[..i])
        invariant i > 0 ==> v != 0
      {
        var start := if v == 0 then root else v;
        ValueSnoc(Now(), path, i);
        var e := FindEntry(start, path[i]);
        v := if e == 0 then 0 else entries[e].value;
        i := i + 1;
        if v == 0 {
          if i < |path| {
            assert path[..i] == path[..i][..i];
            NothingBelow(entries, root, path[..i], path);
          } else {
            assert path[..i] == path;
          }
          return;
        }
      }
      assert path[..i] == path;
    }

    /** ruletree_create_catalog_entry: the name, and then the entry, at the end of the file. */
    method CreateEntry(name: Name, ghost home: Path) returns (n: nat)
      requires Valid()
      modifies this
      ensures old(fileSize) <= fileSize && Grown(old(entries), old(fileSize), entries)
      ensures Valid() && old(fileSize) <= n && n !in old(entries) && Unused(old(entries), old(root), n)
      ensures Now() == State(WithEntry(old(entries), n, name), old(homes)[n := home], old(root))
    {
      fileSize := fileSize + STRING_HEADER_SIZE + |name.text| + 1;
      n := fileSize;
      fileSize := fileSize + ENTRY_SIZE;
      forall e | e in entries ensures entries[e].next != n && entries[e].value != n {
        assert EntryOk(entries, homes, e);
      }
      CreateStep(Now(), n, name, home);
      entries := WithEntry(entries, n, name);
      homes := homes[n := home];
    }

    /** add_entry_to_ruletree_catalog: to the list at `start`, 0 being the root catalog. An
        entry of the same name that is there already hides the new one; when `start` is not a
        catalog the new entry is not linked to anything. */
    method AddToCatalog(start: nat, name: Name, ghost home: Path) returns (n: nat)
      requires Valid() && start < fileSize
      requires
        var list := if start == 0 then root else start;
        if list in entries then homes[list] == home else list == 0 ==> home == []
      modifies this
      ensures old(fileSize) <= fileSize && Grown(old(entries), old(fileSize), entries)
      ensures Valid() && n in entries && homes[n] == home && entries[n].name == name
      ensures SameLeaves(old(Now()), Now())
      ensures
        var list := if start == 0 then old(root) else start;
        if list == 0 then root == n && EntryIn(Now(), [name]) == n && OnlyFills(old(Now()), Now(), [])
        else
          root == old(root) && SameValues(old(Now()), Now()) &&
          (list in old(entries) ==>
             Find(entries, list, name) ==
             var was := Find(old(entries), list, name); if was == 0 then n else was)
    {
      assert 0 !in entries;
      hide SameLeaves, SameValues, OnlyFills, Ordered;
      var list := if start == 0 then root else start;
      n := CreateEntry(name, home);
      ghost var before := Now();
      CreateStep(old(Now()), n, name, home);
      if list == 0 {
        RootStep(before, n);
        root := n;
        FillsAfterSame(old(Now()), before, Now(), []);
        SameLeavesTrans(old(Now()), before, Now());
      } else if list in entries {
        LinkEntry(list, n);
        SameLeavesTrans(old(Now()), before, Now());
        SameValuesTrans(old(Now()), before, Now());
      }
    }

    /** link_entry_to_ruletree_catalog, for a list that is not empty. */
    method LinkEntry(start: nat, n: nat)
      requires Valid() && start in entries && Loose(entries, root, n) && start != n
      requires homes[start] == homes[n] && forall e :: e in entries ==> e <= n
      modifies this`entries
      ensures Valid() && entries.Keys == old(entries.Keys) && entries[n] == old(entries[n])
      ensures SameValues(old(Now()), Now()) && SameLeaves(old(Now()), Now())
      ensures
        var was := Find(old(entries), start, entries[n].name);
        Find(entries, start, entries[n].name) == if was == 0 then n else was
    {
      var last := FindLast(start);
      LastIsNotLoose(entries, homes, root, n, start);
      LastHome(entries, homes, start);
      LinkStep(Now(), last, n, start);
      entries := Linked(entries, last, n);
    }

    /** The first entry of a catalog below an entry that has no value yet. */
    method AddFirst(parent: nat, name: Name, ghost p: Path) returns (n: nat)
      requires Valid() && parent in entries && entries[parent].value == 0
      requires p == homes[parent] + [entries[parent].name]
      modifies this
      ensures old(fileSize) <= fileSize && Grown(old(entries), old(fileSize), entries)
      ensures Valid() && n in entries && homes[n] == p && entries[n].name == name
      ensures SameLeaves(old(Now()), Now()) && OnlyFills(old(Now()), Now(), p)
      ensures EntryIn(old(Now()), p) == parent ==> EntryIn(Now(), p + [name]) == n
    {
      hide SameLeaves, SameValues, OnlyFills, Ordered;
      n := CreateEntry(name, p);
      ghost var before := Now();
      CreateStep(old(Now()), n, name, p);
      FirstStep(before, parent, n, p);
      entries := Set(entries, parent, n);
      SameLeavesTrans(old(Now()), before, Now());
      FillsAfterSame(old(Now()), before, Now(), p);
    }

    /** ruletree_catalog_add_or_find_object: the entry `name` of the catalog `p`, whose first
        entry is at `start` and whose own entry is `parent`; 0 stands for the root. */
    method AddOrFind(start: nat, name: Name, parent: nat, ghost p: Path) returns (e: nat)
      requires Valid()
      requires if parent == 0 then p == [] && start == root
               else parent in entries && start == entries[parent].value
                    && p == homes[parent] + [entries[parent].name]
      modifies this
      ensures old(fileSize) <= fileSize && Grown(old(entries), old(fileSize), entries)
      ensures Valid() && e in entries && homes[e] == p && entries[e].name == name
      ensures SameLeaves(old(Now()), Now()) && OnlyFills(old(Now()), Now(), p)
      ensures (p == [] || EntryIn(old(Now()), p) == parent) && (start == 0 || start in old(entries)) ==>
              EntryIn(Now(), p + [name]) == e
    {
      assert Init(p + [name]) == p && Last(p + [name]) == name;
      if parent != 0 {
        assert EntryOk(entries, homes, parent);
      }
      if start != 0 {
        e := FindEntry(start, name);
        FindHome(entries, homes, start, name);
        if e == 0 {
          e := AddToCatalog(start, name, p);
          assert p != [] ==> ValueIn(Now(), p) == ValueIn(old(Now()), p);
        }
      } else if parent != 0 {
        e := AddFirst(parent, name, p);
      } else {
        e := AddToCatalog(0, name, []);
        assert p + [name] == [name];
      }
    }

    /** The entry of a path, added with all catalogs on the way as far as they are missing. No
        object is changed by that. */
    method AddPath(path: Path) returns (e: nat)
      requires Valid() && path != []
      modifies this
      ensures old(fileSize) <= fileSize && Grown(old(entries), old(fileSize), entries)
      ensures Valid() && e in entries && homes[e] + [entries[e].name] == path
      ensures SameLeaves(old(Now()), Now()) && Keeps(old(Now()), Now(), path)
      ensures Blocked(Now(), path) || EntryIn(Now(), path) == e
    {
      hide SameLeaves, LeafIn, EntryIn, Blocked, Grown, Keeps, OnlyFills;
      var start, i := root, 0;
      e := 0;
      Unchanged(Now(), fileSize, path);
      while i < |path|
        invariant i <= |path| && Valid()
        invariant if i == 0 then e == 0 && start == root
                  else e in entries && homes[e] + [entries[e].name] == path[..i] && start == entries[e].value
        invariant SameLeaves(old(Now()), Now()) && Keeps(old(Now()), Now(), path)
        invariant i > 0 ==> Blocked(Now(), path[..i]) || EntryIn(Now(), path[..i]) == e
        invariant old(fileSize) <= fileSize && Grown(old(entries), old(fileSize), entries)
      {
        ghost var before, size := Now(), fileSize;
        e := AddOrFind(start, path[i], e, path[..i]);
        SameLeavesTrans(old(Now()), before, Now());
        KeepsTrans(old(Now()), before, Now(), path, i);
        GrownTrans(old(entries), old(fileSize), before.m, size, entries);
        StillOpen(before, Now(), path[..i], path[i], start);
        assert path[..i + 1] == path[..i] + [path[i]];
        start := entries[e].value;
        i := i + 1;
      }
      assert path[..i] == path;
    }

    /** ruletree_catalog_vset. A value that is a catalog has then more than one path, so that
        only an object leaves the store as it was in this respect. */
    method VSet(path: Path, v: nat) returns (ok: bool)
      requires Valid() && v < fileSize
      modifies this
      ensures ok <==> path != []
      ensures Linear(entries) && (v !in old(entries) ==> Valid())
      ensures
        if path == [] then Now() == old(Now())
        else
          && ValueIsSet(old(Now()), Now(), path, v)
          && (v !in old(entries) ==> IsSet(old(Now()), Now(), path, v))
    {
      if path == [] {
        return false;
      }
      var e := AddPath(path);
      ghost var before := Now();
      SetAny(old(Now()), before, e, v, path);
      entries := Set(entries, e, v);
      if v !in old(entries) {
        SetStep(before, e, v, path);
        SetAfterSame(old(Now()), before, Now(), path, v);
      }
      ok := true;
    }
  }

  /** What was set is read back exactly when no object stood in the way, or nothing was set. */
  lemma ReadBackIff(s: State, s': State, p: Path, v: nat)
    requires Sound(s) && Sound(s') && p != [] && v !in s'.m && IsSet(s, s', p, v)
    ensures LeafIn(s', p) == v <==> v == 0 || !Blocked(s, p)
    ensures v != 0 && !Blocked(s, p) ==> ValueIn(s', p) == v
    ensures forall q :: q != [] && !IsPrefix(p, q) ==> LeafIn(s', q) == LeafIn(s, q)
  {
    if Blocked(s, p) {
      BlockedEntry(s, p);
    }
  }

  /** A catalog with one entry, whose value is an object at offset 5. */
  function OneObject(a: Name): State {
    State(map[10 := CatEntry(a, 5, 0)], map[10 := []], 10)
  }

  /** Below an object a value can be set, with success, but not read back. */
  lemma ObjectInTheWay(a: Name, b: Name, s': State, v: nat)
    requires Sound(s')
    ensures Sound(OneObject(a)) && LeafIn(OneObject(a), [a]) == 5
    ensures IsSet(OneObject(a), s', [a, b], v) ==> LeafIn(s', [a, b]) == 0
  {
    var s, p := OneObject(a), [a, b];
    assert EntryOk(s.m, s.homes, 10);
    assert Sound(s);
    assert Init([a]) == [] && Last([a]) == a;
    assert Find(s.m, 10, a) == 10 && Value(s.m, s.root, []) == 10;
    assert EntryAt(s.m, s.root, [a]) == 10;
    assert p[..1] == [a] && LeafIn(s, p[..1]) == 5;
    assert Blocked(s, p);
    BlockedEntry(s, p);
  }
}
