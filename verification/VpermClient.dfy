/** The client side of the permission simulation: the command builders
    (rule_tree/rule_tree_rpc_client.c), the decision chown makes
    (preload/vperm_filestatgates.c) and the virtualization of stat results
    (preload/vperm_statfuncts.c). */
module VpermClient {
  import opened Options
  import opened RuleTreeStore
  import opened VpermServer

  /** (uid_t)-1: leave this id alone. */
  const NO_ID: nat := 0xFFFF_FFFF

  datatype Stat = Stat(dev: nat, ino: bv64, uid: nat, gid: nat, mode: Mode, rdev: nat)

  /** The owner and group shown for files the database does not know, if that is enabled. */
  datatype Ids = Ids(uid: nat, gid: nat)

  // ---------------------------------------------------------------- command builders

  function SetIds(dev: nat, ino: bv64, setUid: bool, uid: nat, setGid: bool, gid: nat): Command {
    SetFileInfo(ZERO.(dev := dev, ino := ino, uid := uid, gid := gid,
                      active := NO_FIELDS.(uid := setUid, gid := setGid)))
  }

  function ReleaseIds(dev: nat, ino: bv64, releaseUid: bool, releaseGid: bool): Command {
    ReleaseFileInfo(ZERO.(dev := dev, ino := ino,
                          active := NO_FIELDS.(uid := releaseUid, gid := releaseGid)))
  }

  function SetMode(dev: nat, ino: bv64, realMode: Mode, virtMode: Mode, suidSgid: Mode): Command {
    SetFileInfo(ZERO.(dev := dev, ino := ino, mode := virtMode, suidsgid := suidSgid,
                      active := NO_FIELDS.(
                        mode := realMode.(suidSgid := 0) != virtMode.(suidSgid := 0),
                        suidSgid := suidSgid != Mode(0, realMode.suidSgid, 0))))
  }

  function SetDevNode(dev: nat, ino: bv64, mode: Mode, rdev: nat): Command {
    SetFileInfo(ZERO.(dev := dev, ino := ino, mode := mode.(fmt := 0), devmode := Mode(mode.fmt, 0, 0),
                      rdev := rdev, active := NO_FIELDS.(mode := true, devNode := true)))
  }

  // ---------------------------------------------------------------- chmod

  function Chmod(buf: Stat, virtMode: Mode, suidSgid: Mode): Command {
    if buf.mode.rest != virtMode.rest || Mode(0, buf.mode.suidSgid, 0) != suidSgid
    then SetMode(buf.dev, buf.ino, buf.mode, Mode(0, 0, virtMode.rest), Mode(0, suidSgid.suidSgid, 0))
    else ReleaseFileInfo(ZERO.(dev := buf.dev, ino := buf.ino,
                               active := NO_FIELDS.(mode := true, suidSgid := true)))
  }

  /** vperm_chmod never sends a blank SET for an inode that has a file type. */
  lemma ChmodIsNeverBlank(buf: Stat, virtMode: Mode, suidSgid: Mode)
    requires buf.mode.fmt != 0
    ensures Chmod(buf, virtMode, suidSgid).SetFileInfo? ==>
            Chmod(buf, virtMode, suidSgid).info.active != NO_FIELDS
  {
  }

  // ---------------------------------------------------------------- stat

  /** Which source each group of mode bits comes from. */
  function VirtualMode(mode: Mode, r: InodeSimu): Mode {
    Mode(if r.active.devNode then r.devmode.fmt else mode.fmt,
         if r.active.suidSgid then r.suidsgid.suidSgid
         else if r.active.mode then r.mode.suidSgid
         else mode.suidSgid,
         if r.active.mode then r.mode.rest else mode.rest)
  }

  function Count(b: bool): nat { if b then 1 else 0 }

  /** What stat shows for an inode with the given record, and how many fields changed. */
  function Shown(buf: Stat, r: InodeSimu, unknown: Option<Ids>): (Stat, nat) {
    var a := r.active;
    (Stat(buf.dev, buf.ino,
          if a.uid then r.uid else if unknown.Some? then unknown.value.uid else buf.uid,
          if a.gid then r.gid else if unknown.Some? then unknown.value.gid else buf.gid,
          VirtualMode(buf.mode, r),
          if a.devNode then r.rdev else buf.rdev),
     Count(a.uid || unknown.Some?) + Count(a.gid || unknown.Some?)
       + Count(a.mode) + Count(a.suidSgid) + Count(a.devNode))
  }

  /** The record of an inode; an inode without one shows as if its record were inactive. */
  function RecordOf(db: Db, dev: nat, ino: bv64): InodeSimu {
    var k := KeyFor(dev, ino);
    if k in db.contents then db.contents[k] else ZERO
  }

  /** stat with the lookup always made. */
  function View(db: Db, buf: Stat, unknown: Option<Ids>): (Stat, nat) {
    Shown(buf, RecordOf(db, buf.dev, buf.ino), unknown)
  }

  /** stat as it is: no lookup when the counter says that nothing is simulated anywhere. */
  function GuardedView(db: Db, buf: Stat, unknown: Option<Ids>): (Stat, nat) {
    var k := KeyFor(buf.dev, buf.ino);
    if db.counter > 0 && k in db.contents then Shown(buf, db.contents[k], unknown)
    else if unknown.Some? then (buf.(uid := unknown.value.uid, gid := unknown.value.gid), 2)
    else (buf, 0)
  }

  predicate GuardSound(db: Db) {
    db.counter == 0 ==> forall k :: k in db.contents ==> db.contents[k].active == NO_FIELDS
  }

  lemma GuardSoundAfterRun(cs: seq<Command>)
    requires RunAll(EmptyDb, cs).size <= UINT32_MAX + 1
    ensures GuardSound(RunAll(EmptyDb, cs))
  {
    CounterAfterRun(cs);
    var db := RunAll(EmptyDb, cs);
    if db.counter == 0 {
      forall k | k in db.contents ensures db.contents[k].active == NO_FIELDS {
        assert k !in ActiveKeys(db.contents);
      }
    }
  }

  lemma GuardIsInvisible(db: Db, buf: Stat, unknown: Option<Ids>)
    requires GuardSound(db)
    ensures GuardedView(db, buf, unknown) == View(db, buf, unknown)
  {
  }

  /** The fast path never changes an answer: after every run of commands, blank SETs
      included, skipping the lookup yields the same stat buffer and the same count as
      always looking up. */
  lemma GuardNeverChangesAnswer(cs: seq<Command>, buf: Stat, unknown: Option<Ids>)
    requires RunAll(EmptyDb, cs).size <= UINT32_MAX + 1
    ensures GuardedView(RunAll(EmptyDb, cs), buf, unknown) == View(RunAll(EmptyDb, cs), buf, unknown)
  {
    GuardSoundAfterRun(cs);
    GuardIsInvisible(RunAll(EmptyDb, cs), buf, unknown);
  }

  /** i_virtualize_struct_stat_internal, step by step on the caller's buffer. */
  method VirtualizeStat(server: Server, actual: Stat, unknown: Option<Ids>) returns (buf: Stat, res: nat)
    requires server.Valid()
    modifies server.tree
    ensures server.Valid() && server.Abs() == old(server.Abs())
    ensures (buf, res) == GuardedView(server.Abs(), actual, unknown)
  {
    buf, res := actual, 0;
    var found, r := false, ZERO;
    if server.numActive > 0 {
      var h;
      h, found, r := server.tree.FindInodestat(KeyFor(buf.dev, buf.ino));
    }
    if found {
      buf, res := ApplyRecord(actual, r, unknown);
    } else if unknown.Some? {
      buf := buf.(uid := unknown.value.uid);
      buf := buf.(gid := unknown.value.gid);
      res := res + 2;
    }
  }

  method ApplyRecord(actual: Stat, r: InodeSimu, unknown: Option<Ids>) returns (buf: Stat, res: nat)
    ensures (buf, res) == Shown(actual, r, unknown)
  {
    var uid, n1 := VirtualId(actual.uid, r.active.uid, r.uid, unknown.Some?, if unknown.Some? then unknown.value.uid else 0);
    var gid, n2 := VirtualId(actual.gid, r.active.gid, r.gid, unknown.Some?, if unknown.Some? then unknown.value.gid else 0);
    var mode, rdev := actual.mode, actual.rdev;
    res := n1 + n2;
    if r.active.mode {
      mode, res := r.mode.(fmt := mode.fmt), res + 1;
    }
    if r.active.suidSgid {
      mode, res := mode.(suidSgid := r.suidsgid.suidSgid), res + 1;
    }
    if r.active.devNode {
      mode, rdev, res := mode.(fmt := r.devmode.fmt), r.rdev, res + 1;
    }
    buf := Stat(actual.dev, actual.ino, uid, gid, mode, rdev);
  }

  /** The uid branch and the gid branch of the virtualization. */
  method VirtualId(id: nat, simulated: bool, virtualId: nat, isUnknown: bool, unknownId: nat)
    returns (shown: nat, changes: nat)
    ensures shown == if simulated then virtualId else if isUnknown then unknownId else id
    ensures changes == Count(simulated || isUnknown)
  {
    shown, changes := id, 0;
    if simulated {
      shown, changes := virtualId, 1;
    } else if isUnknown {
      shown, changes := unknownId, 1;
    }
  }

  // ---------------------------------------------------------------- chown

  /** The commands vperm_chown sends for an inode whose real status is `buf`: an id that
      differs from the real one is simulated, one that equals it is released. */
  function Chown(buf: Stat, owner: nat, group: nat): seq<Command> {
    var setUid, setGid := owner != NO_ID && buf.uid != owner, group != NO_ID && buf.gid != group;
    var relUid, relGid := owner != NO_ID && buf.uid == owner, group != NO_ID && buf.gid == group;
    (if setUid || setGid then [SetIds(buf.dev, buf.ino, setUid, owner, setGid, group)] else [])
      + (if relUid || relGid then [ReleaseIds(buf.dev, buf.ino, relUid, relGid)] else [])
  }

  /** vperm_chown: two flags per id, then at most one SET and one RELEASE. */
  method VpermChown(server: Server, buf: Stat, owner: nat, group: nat)
    requires server.Valid()
    modifies server, server.tree
    ensures server.Valid() && server.Abs() == RunAll(old(server.Abs()), Chown(buf, owner, group))
  {
    var setUid, setGid, relUid, relGid := false, false, false, false;
    if owner != NO_ID {
      if buf.uid != owner {
        setUid := true;
      } else {
        relUid := true;
      }
    }
    if group != NO_ID {
      if buf.gid != group {
        setGid := true;
      } else {
        relGid := true;
      }
    }
    var c1, c2 := SetIds(buf.dev, buf.ino, setUid, owner, setGid, group),
                  ReleaseIds(buf.dev, buf.ino, relUid, relGid);
    RunShort(server.Abs(), c1, c2);
    if setUid || setGid {
      server.Handle(c1);
    }
    if relUid || relGid {
      server.Handle(c2);
    }
  }

  /** Everything of a record except the ownership. */
  predicate SameButIds(r: InodeSimu, r': InodeSimu) {
    && r'.active == r.active.(uid := r'.active.uid, gid := r'.active.gid)
    && r'.rdev == r.rdev && r'.devmode == r.devmode && r'.mode == r.mode && r'.suidsgid == r.suidsgid
  }

  /** The id a record simulates, if it does. */
  predicate Simulates(active: bool, id: nat, want: bool, wanted: nat) {
    active == want && (want ==> id == wanted)
  }

  lemma SetIdsRecord(db: Db, dev: nat, ino: bv64, setUid: bool, uid: nat, setGid: bool, gid: nat)
    ensures
      var db' := Do(db, SetIds(dev, ino, setUid, uid, setGid, gid));
      var r, r' := RecordOf(db, dev, ino), RecordOf(db', dev, ino);
      && SameButIds(r, r')
      && (if setUid then r'.active.uid && r'.uid == uid
          else r'.active.uid == r.active.uid && (r.active.uid ==> r'.uid == r.uid))
      && (if setGid then r'.active.gid && r'.gid == gid
          else r'.active.gid == r.active.gid && (r.active.gid ==> r'.gid == r.gid))
      && db'.contents == db.contents[KeyFor(dev, ino) := r']
  {
  }

  lemma ReleaseIdsRecord(db: Db, dev: nat, ino: bv64, relUid: bool, relGid: bool)
    ensures
      var db' := Do(db, ReleaseIds(dev, ino, relUid, relGid));
      var r, r' := RecordOf(db, dev, ino), RecordOf(db', dev, ino);
      && SameButIds(r, r') && r'.uid == r.uid && r'.gid == r.gid
      && r'.active.uid == (r.active.uid && !relUid)
      && r'.active.gid == (r.active.gid && !relGid)
      && (db'.contents == db.contents || db'.contents == db.contents[KeyFor(dev, ino) := r'])
  {
  }

  /** What the one or two commands of a chown leave in the database. */
  lemma ChownRecord(db: Db, buf: Stat, owner: nat, group: nat)
    ensures
      var db' := RunAll(db, Chown(buf, owner, group));
      var r, r' := RecordOf(db, buf.dev, buf.ino), RecordOf(db', buf.dev, buf.ino);
      && SameButIds(r, r')
      && Simulates(r'.active.uid, r'.uid, if owner == NO_ID then r.active.uid else buf.uid != owner,
                   if owner == NO_ID then r.uid else owner)
      && Simulates(r'.active.gid, r'.gid, if group == NO_ID then r.active.gid else buf.gid != group,
                   if group == NO_ID then r.gid else group)
      && forall k :: k != KeyFor(buf.dev, buf.ino) ==>
           (k in db'.contents <==> k in db.contents) && (k in db.contents ==> db'.contents[k] == db.contents[k])
  {
    var setUid, setGid := owner != NO_ID && buf.uid != owner, group != NO_ID && buf.gid != group;
    var relUid, relGid := owner != NO_ID && buf.uid == owner, group != NO_ID && buf.gid == group;
    var c1, c2 := SetIds(buf.dev, buf.ino, setUid, owner, setGid, group),
                  ReleaseIds(buf.dev, buf.ino, relUid, relGid);
    var db1 := if setUid || setGid then Do(db, c1) else db;
    SetIdsRecord(db, buf.dev, buf.ino, setUid, owner, setGid, group);
    ReleaseIdsRecord(db1, buf.dev, buf.ino, relUid, relGid);
    RunShort(db, c1, c2);
  }

  lemma RunShort(db: Db, c1: Command, c2: Command)
    ensures RunAll(db, []) == db
    ensures RunAll(db, [] + []) == db
    ensures RunAll(db, [c1] + []) == Do(db, c1)
    ensures RunAll(db, [] + [c2]) == Do(db, c2)
    ensures RunAll(db, [c1] + [c2]) == Do(Do(db, c1), c2)
  {
    assert [c1] + [] == [c1] && [] + [c2] == [c2];
    assert ([c1] + [c2])[..1] == [c1] && [c1][..0] == [] && [c2][..0] == [];
  }

  /** Chown, then stat, from any reachable database: an id that was not asked for is shown as
      before, and nothing but the ids changes. An id that was asked for is shown exactly as
      asked, unless it equals the real id (so that its simulation was released) while the
      unknown-owner override is on and says something else. */
  lemma ChownThenStat(cs: seq<Command>, buf: Stat, owner: nat, group: nat, unknown: Option<Ids>)
    requires RunAll(EmptyDb, cs + Chown(buf, owner, group)).size <= UINT32_MAX + 1
    ensures
      var before := GuardedView(RunAll(EmptyDb, cs), buf, unknown).0;
      var after := GuardedView(RunAll(EmptyDb, cs + Chown(buf, owner, group)), buf, unknown).0;
      && (owner == NO_ID ==> after.uid == before.uid)
      && (group == NO_ID ==> after.gid == before.gid)
      && (owner != NO_ID ==>
            (after.uid == owner <==> unknown.None? || buf.uid != owner || unknown.value.uid == owner))
      && (group != NO_ID ==>
            (after.gid == group <==> unknown.None? || buf.gid != group || unknown.value.gid == group))
      && after == before.(uid := after.uid, gid := after.gid)
  {
    var cmds := Chown(buf, owner, group);
    RunAppend(EmptyDb, cs, cmds);
    GuardNeverChangesAnswer(cs, buf, unknown);
    GuardNeverChangesAnswer(cs + cmds, buf, unknown);
    ChownRecord(RunAll(EmptyDb, cs), buf, owner, group);
  }

  /** A chown is invisible on every other inode. */
  lemma ChownLeavesOthers(cs: seq<Command>, buf: Stat, owner: nat, group: nat,
                          other: Stat, unknown: Option<Ids>)
    requires RunAll(EmptyDb, cs + Chown(buf, owner, group)).size <= UINT32_MAX + 1
    requires other.dev != buf.dev || other.ino != buf.ino
    ensures GuardedView(RunAll(EmptyDb, cs + Chown(buf, owner, group)), other, unknown)
         == GuardedView(RunAll(EmptyDb, cs), other, unknown)
  {
    hide KeyFor, InoToKey, Chown, RunAll, Shown, GuardedView;
    var cmds := Chown(buf, owner, group);
    RunAppend(EmptyDb, cs, cmds);
    GuardNeverChangesAnswer(cs, other, unknown);
    GuardNeverChangesAnswer(cs + cmds, other, unknown);
    ChownRecord(RunAll(EmptyDb, cs), buf, owner, group);
    KeyForInjective(buf.dev, buf.ino, other.dev, other.ino);
  }

  /** The file was really created by another user than the one it is given to, so the
      simulation is released; the override then shows a third one. */
  lemma ChownToRealOwnerIsHidden(buf: Stat, unknown: Ids)
    requires buf.uid != NO_ID && unknown.uid != buf.uid
    ensures GuardedView(RunAll(EmptyDb, Chown(buf, buf.uid, NO_ID)), buf, Some(unknown)).0.uid != buf.uid
  {
    hide KeyFor, RunAll, GuardedView, Chown;
    var cmds := Chown(buf, buf.uid, NO_ID);
    assert [] + cmds == cmds;
    ChownIsSmall(buf, buf.uid, NO_ID);
    ChownThenStat([], buf, buf.uid, NO_ID, Some(unknown));
  }

  lemma ChownIsSmall(buf: Stat, owner: nat, group: nat)
    ensures RunAll(EmptyDb, Chown(buf, owner, group)).size <= EmptyDb.size + RECORD_COST
  {
    hide KeyFor;
    var setUid, setGid := owner != NO_ID && buf.uid != owner, group != NO_ID && buf.gid != group;
    var relUid, relGid := owner != NO_ID && buf.uid == owner, group != NO_ID && buf.gid == group;
    RunShort(EmptyDb, SetIds(buf.dev, buf.ino, setUid, owner, setGid, group),
             ReleaseIds(buf.dev, buf.ino, relUid, relGid));
  }

  // ---------------------------------------------------------------- what clients send

  /** The calls that lead to commands; removing a file clears its record. */
  datatype Call =
    | ChownCall(buf: Stat, owner: nat, group: nat)
    | ChmodCall(buf: Stat, virtMode: Mode, suidSgid: Mode)
    | MknodCall(buf: Stat, mode: Mode, rdev: nat)
    | RemoveCall(buf: Stat)

  function Sends(c: Call): seq<Command> {
    match c
    case ChownCall(buf, owner, group) => Chown(buf, owner, group)
    case ChmodCall(buf, virtMode, suidSgid) => [Chmod(buf, virtMode, suidSgid)]
    case MknodCall(buf, mode, rdev) => [SetDevNode(buf.dev, buf.ino, mode, rdev)]
    case RemoveCall(buf) => [ClearFileInfo(ZERO.(dev := buf.dev, ino := buf.ino))]
  }

  function AllSent(calls: seq<Call>): seq<Command> {
    if calls == [] then [] else AllSent(calls[..|calls| - 1]) + Sends(calls[|calls| - 1])
  }

  predicate NamesFields(c: Command) {
    c.SetFileInfo? ==> c.info.active != NO_FIELDS
  }

  lemma CallNamesFields(c: Call)
    requires c.buf.mode.fmt != 0
    ensures forall x :: x in Sends(c) ==> NamesFields(x)
  {
    match c
    case ChmodCall(buf, virtMode, suidSgid) => ChmodIsNeverBlank(buf, virtMode, suidSgid);
    case _ =>
  }

  lemma {:induction false} CallsNameFields(calls: seq<Call>)
    requires forall c :: c in calls ==> c.buf.mode.fmt != 0
    ensures forall x :: x in AllSent(calls) ==> NamesFields(x)
    decreases |calls|
  {
    hide Sends, NamesFields;
    if calls != [] {
      CallsNameFields(calls[..|calls| - 1]);
      CallNamesFields(calls[|calls| - 1]);
    }
  }

  /** As long as the files have a file type, whatever sequence of calls clients make, the
      server's counter is the number of inodes for which something is simulated. */
  lemma ClientsAreCounted(calls: seq<Call>)
    requires forall c :: c in calls ==> c.buf.mode.fmt != 0
    requires RunAll(EmptyDb, AllSent(calls)).size <= UINT32_MAX + 1
    ensures
      var db := RunAll(EmptyDb, AllSent(calls));
      db.counter == |ActiveKeys(db.contents)|
  {
    hide RunAll, AllSent, WasSet;
    CallsNameFields(calls);
    var cs := AllSent(calls);
    assert forall i :: 0 <= i < |cs| ==> NamesFields(cs[i]);
    CounterIsExactIff(cs);
  }
}
