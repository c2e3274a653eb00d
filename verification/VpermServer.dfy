/** sb2d's commands on the inode records, and the counter of active records that clients
    use to skip lookups (sb2d/ruletree_server.c, rule_tree/rule_tree_utils.c). */
module VpermServer {
  import opened RuleTreeStore
  import opened InodeTree

  const UINT32_MAX: nat := 0xFFFF_FFFF
  const RECORD_COST: nat := INODESTAT_SIZE + BINTREE_SIZE

  datatype Command =
    | SetFileInfo(info: InodeSimu)
    | ReleaseFileInfo(info: InodeSimu)
    | ClearFileInfo(info: InodeSimu)

  function CommandKey(c: Command): TreeKey {
    KeyFor(c.info.dev, c.info.ino)
  }

  /** The database as a client can observe it, and the size of the file that holds it. */
  datatype Db = Db(contents: map<TreeKey, InodeSimu>, counter: nat, size: nat)

  // ---------------------------------------------------------------- what the commands mean

  /** SETFILEINFO on a known inode: the fields named by the message's mask are replaced. A
      message that names either mode bit replaces both and turns the mode simulation on. */
  function Merge(r: InodeSimu, m: InodeSimu): InodeSimu {
    var f, a := m.active, r.active;
    var modes := f.mode || f.suidSgid;
    InodeSimu(
      r.dev, r.ino,
      if f.devNode then m.rdev else r.rdev,
      if f.devNode then m.devmode else r.devmode,
      if f.uid then m.uid else r.uid,
      if f.gid then m.gid else r.gid,
      if modes then m.mode else r.mode,
      if modes then m.suidsgid else r.suidsgid,
      Mask(a.uid || f.uid, a.gid || f.gid, a.mode || modes, a.devNode || f.devNode,
           if modes then f.suidSgid else a.suidSgid, a.rest))
  }

  /** RELEASEFILEINFO stops simulating uid, gid, mode and device; there is no code that
      releases SUIDSGID. */
  function Released(a: Mask, m: Mask): Mask {
    Mask(a.uid && !m.uid, a.gid && !m.gid, a.mode && !m.mode, a.devNode && !m.devNode, a.suidSgid, a.rest)
  }

  function Inc(n: nat): nat { if n < UINT32_MAX then n + 1 else n }
  function Dec(n: nat): nat { if n > 0 then n - 1 else n }

  function DoSet(db: Db, k: TreeKey, m: InodeSimu): Db {
    if k !in db.contents then
      Db(db.contents[k := m], Inc(db.counter), db.size + RECORD_COST)
    else
      var r := Merge(db.contents[k], m);
      Db(db.contents[k := r],
         if db.contents[k].active == NO_FIELDS && r.active != NO_FIELDS then Inc(db.counter) else db.counter,
         db.size)
  }

  function DoRelease(db: Db, k: TreeKey, m: InodeSimu): Db {
    if k !in db.contents then db
    else
      var r := db.contents[k].(active := Released(db.contents[k].active, m.active));
      Db(db.contents[k := r],
         if db.contents[k].active != NO_FIELDS && r.active == NO_FIELDS then Dec(db.counter) else db.counter,
         db.size)
  }

  function DoClear(db: Db, k: TreeKey): Db {
    if k !in db.contents || db.contents[k].active == NO_FIELDS then db
    else Db(db.contents[k := db.contents[k].(active := NO_FIELDS)], Dec(db.counter), db.size)
  }

  function Do(db: Db, c: Command): Db {
    match c
    case SetFileInfo(m) => DoSet(db, CommandKey(c), m)
    case ReleaseFileInfo(m) => DoRelease(db, CommandKey(c), m)
    case ClearFileInfo(m) => DoClear(db, CommandKey(c))
  }

  /** The database after a whole run of commands. */
  function RunAll(db: Db, cs: seq<Command>): Db {
    if cs == [] then db else Do(RunAll(db, cs[..|cs| - 1]), cs[|cs| - 1])
  }

  const EmptyDb: Db := Db(map[], 0, 40)

  // ---------------------------------------------------------------- the counter

  function ActiveKeys(contents: map<TreeKey, InodeSimu>): set<TreeKey> {
    set k | k in contents && contents[k].active != NO_FIELDS
  }

  /** A SET that names no field, for an inode that has no record: the server counts it as an
      active record although nothing is simulated. */
  predicate IsBlankSet(db: Db, c: Command) {
    c.SetFileInfo? && c.info.active == NO_FIELDS && CommandKey(c) !in db.contents
  }

  function BlankSets(db: Db, cs: seq<Command>): nat {
    if cs == [] then 0
    else
      var before := cs[..|cs| - 1];
      BlankSets(db, before) + (if IsBlankSet(RunAll(db, before), cs[|cs| - 1]) then 1 else 0)
  }

  /** The counter counts the active records and, forever, the blank SETs. */
  ghost predicate Accounted(db: Db, blanks: nat) {
    && db.counter == |ActiveKeys(db.contents)| + blanks
    && blanks <= |db.contents|
    && RECORD_COST * |db.contents| <= db.size
  }

  lemma ActiveAfterWrite(c: map<TreeKey, InodeSimu>, k: TreeKey, r: InodeSimu)
    ensures |ActiveKeys(c[k := r])| == |ActiveKeys(c)|
      + (if r.active != NO_FIELDS && k !in ActiveKeys(c) then 1 else 0)
      - (if r.active == NO_FIELDS && k in ActiveKeys(c) then 1 else 0)
  {
    var a, a' := ActiveKeys(c), ActiveKeys(c[k := r]);
    if r.active != NO_FIELDS {
      assert a' == a + {k};
    } else {
      assert a' == a - {k};
    }
  }

  lemma SizeAfterWrite(c: map<TreeKey, InodeSimu>, k: TreeKey, r: InodeSimu)
    ensures |c[k := r]| == |c| + if k in c then 0 else 1
    ensures |ActiveKeys(c)| <= |c|
  {
    assert c[k := r].Keys == c.Keys + {k};
    SubsetSize(ActiveKeys(c), c.Keys);
  }

  lemma SubsetSize<T>(a: set<T>, b: set<T>)
    requires a <= b
    ensures |a| <= |b|
  {
    if a != {} {
      var x :| x in a;
      SubsetSize(a - {x}, b - {x});
    }
  }

  lemma MergeActivates(r: InodeSimu, m: InodeSimu)
    ensures r.active != NO_FIELDS ==> Merge(r, m).active != NO_FIELDS
  {
  }

  lemma SetAccounts(db: Db, k: TreeKey, m: InodeSimu, blanks: nat)
    requires Accounted(db, blanks)
    requires DoSet(db, k, m).size <= UINT32_MAX + 1
    ensures Accounted(DoSet(db, k, m), blanks + if m.active == NO_FIELDS && k !in db.contents then 1 else 0)
  {
    var r := DoSet(db, k, m).contents[k];
    ActiveAfterWrite(db.contents, k, r);
    SizeAfterWrite(db.contents, k, r);
    if k in db.contents {
      MergeActivates(db.contents[k], m);
    }
  }

  lemma ReleaseAccounts(db: Db, k: TreeKey, m: InodeSimu, blanks: nat)
    requires Accounted(db, blanks)
    ensures Accounted(DoRelease(db, k, m), blanks)
  {
    if k in db.contents {
      var r := DoRelease(db, k, m).contents[k];
      ActiveAfterWrite(db.contents, k, r);
      SizeAfterWrite(db.contents, k, r);
    }
  }

  lemma ClearAccounts(db: Db, k: TreeKey, blanks: nat)
    requires Accounted(db, blanks)
    ensures Accounted(DoClear(db, k), blanks)
  {
    if k in db.contents {
      var r := db.contents[k].(active := NO_FIELDS);
      ActiveAfterWrite(db.contents, k, r);
      SizeAfterWrite(db.contents, k, r);
    }
  }

  /** One command moves the count of active records and the counter in step, unless it is a
      blank SET. */
  lemma StepAccounts(db: Db, c: Command, blanks: nat)
    requires Accounted(db, blanks)
    requires Do(db, c).size <= UINT32_MAX + 1
    ensures Accounted(Do(db, c), blanks + if IsBlankSet(db, c) then 1 else 0)
  {
    match c
    case SetFileInfo(m) => SetAccounts(db, CommandKey(c), m, blanks);
    case ReleaseFileInfo(m) => ReleaseAccounts(db, CommandKey(c), m, blanks);
    case ClearFileInfo(m) => ClearAccounts(db, CommandKey(c), blanks);
  }

  lemma SizeGrows(db: Db, c: Command)
    ensures db.size <= Do(db, c).size
  {
  }

  lemma {:induction false} RunAppend(db: Db, xs: seq<Command>, ys: seq<Command>)
    ensures RunAll(db, xs + ys) == RunAll(RunAll(db, xs), ys)
    ensures RunAll(db, xs).size <= RunAll(db, xs + ys).size
    decreases |ys|
  {
    if ys == [] {
      assert xs + ys == xs;
    } else {
      var ys', c := ys[..|ys| - 1], ys[|ys| - 1];
      assert (xs + ys)[..|xs + ys| - 1] == xs + ys';
      RunAppend(db, xs, ys');
      SizeGrows(RunAll(db, xs + ys'), c);
    }
  }

  lemma AccountedBound(db: Db, blanks: nat)
    requires Accounted(db, blanks) && db.size <= UINT32_MAX + 1
    ensures db.counter < UINT32_MAX
  {
    SubsetSize(ActiveKeys(db.contents), db.contents.Keys);
  }

  lemma {:induction false} AccountedAfterRun(cs: seq<Command>)
    requires RunAll(EmptyDb, cs).size <= UINT32_MAX + 1
    ensures Accounted(RunAll(EmptyDb, cs), BlankSets(EmptyDb, cs))
    decreases |cs|
  {
    if cs == [] {
      assert ActiveKeys(EmptyDb.contents) == {};
    } else {
      var before, c := cs[..|cs| - 1], cs[|cs| - 1];
      var db := RunAll(EmptyDb, before);
      assert RunAll(EmptyDb, cs) == Do(db, c);
      SizeGrows(db, c);
      AccountedAfterRun(before);
      StepAccounts(db, c, BlankSets(EmptyDb, before));
    }
  }

  /** After every run the counter is the number of active records plus the number of blank
      SETs; so the two agree exactly when no blank SET was ever received. 32-bit file
      offsets keep the counter far away from the saturation test in its increment. */
  lemma {:induction false} CounterAfterRun(cs: seq<Command>)
    requires RunAll(EmptyDb, cs).size <= UINT32_MAX + 1
    ensures
      var db := RunAll(EmptyDb, cs);
      && db.counter == |ActiveKeys(db.contents)| + BlankSets(EmptyDb, cs)
      && (db.counter == |ActiveKeys(db.contents)| <==> BlankSets(EmptyDb, cs) == 0)
      && db.counter < UINT32_MAX
  {
    AccountedAfterRun(cs);
    AccountedBound(RunAll(EmptyDb, cs), BlankSets(EmptyDb, cs));
  }

  /** Some SET in the run is for this inode. */
  predicate WasSet(cs: seq<Command>, k: TreeKey) {
    exists i :: 0 <= i < |cs| && cs[i].SetFileInfo? && CommandKey(cs[i]) == k
  }

  /** Every SET without fields comes after another SET for the same inode. */
  predicate NoneStartsBlank(cs: seq<Command>) {
    forall i :: 0 <= i < |cs| && cs[i].SetFileInfo? && cs[i].info.active == NO_FIELDS ==>
      WasSet(cs[..i], CommandKey(cs[i]))
  }

  /** An inode has a record exactly when a SET for it was received. */
  lemma {:induction false} RecordsAreSet(cs: seq<Command>, k: TreeKey)
    ensures k in RunAll(EmptyDb, cs).contents <==> WasSet(cs, k)
    decreases |cs|
  {
    hide CommandKey;
    if cs != [] {
      var before, c := cs[..|cs| - 1], cs[|cs| - 1];
      RecordsAreSet(before, k);
      assert forall i :: 0 <= i < |before| ==> before[i] == cs[i];
      assert WasSet(cs, k) <==> WasSet(before, k) || (c.SetFileInfo? && CommandKey(c) == k);
    }
  }

  lemma {:induction false} NoBlankSetsIff(cs: seq<Command>)
    ensures BlankSets(EmptyDb, cs) == 0 <==> NoneStartsBlank(cs)
    decreases |cs|
  {
    hide CommandKey, RunAll, WasSet;
    if cs != [] {
      var before, c := cs[..|cs| - 1], cs[|cs| - 1];
      NoBlankSetsIff(before);
      RecordsAreSet(before, CommandKey(c));
      assert forall i :: 0 <= i < |before| ==> before[i] == cs[i] && before[..i] == cs[..i];
      var late := c.SetFileInfo? && c.info.active == NO_FIELDS ==> WasSet(before, CommandKey(c));
      assert NoneStartsBlank(cs) <==> NoneStartsBlank(before) && late;
    }
  }

  /** Told from the messages alone: the counter is the number of active records if and only
      if no inode's first SET is without fields. */
  lemma CounterIsExactIff(cs: seq<Command>)
    requires RunAll(EmptyDb, cs).size <= UINT32_MAX + 1
    ensures RunAll(EmptyDb, cs).counter == |ActiveKeys(RunAll(EmptyDb, cs).contents)| <==> NoneStartsBlank(cs)
  {
    hide NoneStartsBlank, RunAll, BlankSets;
    CounterAfterRun(cs);
    NoBlankSetsIff(cs);
  }

  /** The blank SET that breaks the agreement exists: one message to an empty database. */
  lemma BlankSetMiscounts(m: InodeSimu)
    requires m.active == NO_FIELDS
    ensures RunAll(EmptyDb, [SetFileInfo(m)]).counter == 1
    ensures ActiveKeys(RunAll(EmptyDb, [SetFileInfo(m)]).contents) == {}
  {
    var cs := [SetFileInfo(m)];
    assert cs[..|cs| - 1] == [];
    assert RunAll(EmptyDb, []) == EmptyDb;
    assert RunAll(EmptyDb, cs) == Do(EmptyDb, cs[0]);
  }

  // ---------------------------------------------------------------- the server process

  /** The field-by-field update of a record that SETFILEINFO found. */
  method MergeFields(was: InodeSimu, m: InodeSimu) returns (r: InodeSimu)
    ensures r == Merge(was, m)
  {
    var a, f := was.active, m.active;
    var uid, gid, mode, suidsgid := was.uid, was.gid, was.mode, was.suidsgid;
    var devmode, rdev := was.devmode, was.rdev;
    if f.uid {
      uid, a := m.uid, a.(uid := true);
    }
    if f.gid {
      gid, a := m.gid, a.(gid := true);
    }
    if f.mode || f.suidSgid {
      mode, suidsgid := m.mode, m.suidsgid;
      a := a.(mode := false, suidSgid := false);
      a := a.(mode := f.mode, suidSgid := f.suidSgid);
      a := a.(mode := true);
    }
    if f.devNode {
      devmode, rdev, a := m.devmode, m.rdev, a.(devNode := true);
    }
    r := InodeSimu(was.dev, was.ino, rdev, devmode, uid, gid, mode, suidsgid, a);
  }

  /** The bit-by-bit release of a record's mask. */
  method ReleaseFields(was: Mask, m: Mask) returns (r: Mask)
    ensures r == Released(was, m)
  {
    r := was;
    if m != NO_FIELDS {
      if m.uid {
        r := r.(uid := false);
      }
      if m.gid {
        r := r.(gid := false);
      }
      if m.mode {
        r := r.(mode := false);
      }
      if m.devNode {
        r := r.(devNode := false);
      }
    }
  }

  class Server {
    const tree: RuleTree
    var numActive: nat  // the uint32 object vperm::num_active_inodestats

    ghost predicate Valid()
      reads this, tree
    {
      tree.Valid()
    }

    ghost function Abs(): Db
      reads this, tree
    {
      Db(tree.contents, numActive, tree.fileSize)
    }

    constructor ()
      ensures Valid() && fresh(tree) && Abs() == EmptyDb
    {
      tree := new RuleTree(40);
      numActive := 0;
    }

    method IncNumActive()
      modifies `numActive
      ensures numActive == Inc(old(numActive))
    {
      if numActive < UINT32_MAX {
        numActive := numActive + 1;
      }
    }

    method DecNumActive()
      modifies `numActive
      ensures numActive == Dec(old(numActive))
    {
      if numActive > 0 {
        numActive := numActive - 1;
      }
    }

    method ClearInfo(k: TreeKey)
      requires Valid()
      modifies this, tree
      ensures Valid() && Abs() == DoClear(old(Abs()), k)
    {
      var h, found, r := tree.FindInodestat(k);
      if found && r.active != NO_FIELDS {
        tree.SetInodestat(h, r.(active := NO_FIELDS));
        DecNumActive();
      }
    }

    method SetInfo(k: TreeKey, m: InodeSimu)
      requires Valid()
      modifies this, tree
      ensures Valid() && Abs() == DoSet(old(Abs()), k, m)
    {
      var h, found, r := tree.FindInodestat(k);
      if !found {
        tree.SetInodestat(h, m);
        IncNumActive();
      } else {
        var merged := MergeFields(r, m);
        tree.SetInodestat(h, merged);
        if r.active == NO_FIELDS && merged.active != NO_FIELDS {
          IncNumActive();
        }
      }
    }

    method ReleaseInfo(k: TreeKey, m: InodeSimu)
      requires Valid()
      modifies this, tree
      ensures Valid() && Abs() == DoRelease(old(Abs()), k, m)
    {
      var h, found, r := tree.FindInodestat(k);
      if found {
        var active := ReleaseFields(r.active, m.active);
        tree.SetInodestat(h, r.(active := active));
        if r.active != NO_FIELDS && active == NO_FIELDS {
          DecNumActive();
        }
      }
    }

    /** One turn of the server loop. */
    method Handle(c: Command)
      requires Valid()
      modifies this, tree
      ensures Valid() && Abs() == Do(old(Abs()), c)
    {
      var k := CommandKey(c);
      match c {
        case SetFileInfo(m) => SetInfo(k, m);
        case ReleaseFileInfo(m) => ReleaseInfo(k, m);
        case ClearFileInfo(_) => ClearInfo(k);
      }
    }
  }
}
