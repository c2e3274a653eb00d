/** What stat shows after each of the commands that clients send (preload/vperm_filestatgates.c,
    sb2d/ruletree_server.c, preload/vperm_statfuncts.c). */
module StatLaws {
  import opened Options
  import opened RuleTreeStore
  import opened VpermServer
  import opened VpermClient

  // ---------------------------------------------------------------- records after a command

  lemma SetRecord(db: Db, m: InodeSimu)
    ensures
      var r, r' := RecordOf(db, m.dev, m.ino), RecordOf(Do(db, SetFileInfo(m)), m.dev, m.ino);
      if KeyFor(m.dev, m.ino) in db.contents then r' == Merge(r, m) else r == ZERO && r' == m
  {
    hide KeyFor, Merge;
  }

  lemma ReleasedRecord(db: Db, m: InodeSimu)
    ensures
      var r, r' := RecordOf(db, m.dev, m.ino), RecordOf(Do(db, ReleaseFileInfo(m)), m.dev, m.ino);
      r' == r.(active := Released(r.active, m.active))
  {
    hide KeyFor;
  }

  lemma ClearedRecord(db: Db, m: InodeSimu)
    ensures RecordOf(Do(db, ClearFileInfo(m)), m.dev, m.ino).active == NO_FIELDS
  {
    hide KeyFor;
  }

  lemma OtherRecord(db: Db, c: Command, dev: nat, ino: bv64)
    requires KeyFor(dev, ino) != CommandKey(c)
    ensures RecordOf(Do(db, c), dev, ino) == RecordOf(db, dev, ino)
  {
    hide KeyFor, Merge, Released;
  }

  /** The state after one more command, seen by stat. */
  lemma AfterCommand(cs: seq<Command>, c: Command, buf: Stat, unknown: Option<Ids>)
    requires RunAll(EmptyDb, cs + [c]).size <= UINT32_MAX + 1
    ensures RunAll(EmptyDb, cs + [c]) == Do(RunAll(EmptyDb, cs), c)
    ensures GuardedView(RunAll(EmptyDb, cs + [c]), buf, unknown) == View(Do(RunAll(EmptyDb, cs), c), buf, unknown)
    ensures GuardedView(RunAll(EmptyDb, cs), buf, unknown) == View(RunAll(EmptyDb, cs), buf, unknown)
  {
    hide Do, GuardedView, View;
    var all := cs + [c];
    assert all[..|all| - 1] == cs && all[|all| - 1] == c;
    RunAppend(EmptyDb, cs, [c]);
    GuardNeverChangesAnswer(cs, buf, unknown);
    GuardNeverChangesAnswer(all, buf, unknown);
  }

  // ---------------------------------------------------------------- every command

  /** Whatever command is sent, other inodes are shown as before. */
  lemma CommandLeavesOthers(cs: seq<Command>, c: Command, other: Stat, unknown: Option<Ids>)
    requires RunAll(EmptyDb, cs + [c]).size <= UINT32_MAX + 1
    requires other.dev != c.info.dev || other.ino != c.info.ino
    ensures GuardedView(RunAll(EmptyDb, cs + [c]), other, unknown) == GuardedView(RunAll(EmptyDb, cs), other, unknown)
  {
    hide KeyFor, InoToKey, RunAll, GuardedView, Do, Shown, RecordOf;
    AfterCommand(cs, c, other, unknown);
    KeyForInjective(c.info.dev, c.info.ino, other.dev, other.ino);
    OtherRecord(RunAll(EmptyDb, cs), c, other.dev, other.ino);
  }

  /** Nothing simulated is shown as it really is, and counted as nothing; only the override for
      unknown files has its say. The count tells whether anything was changed. */
  lemma ShownInactive(buf: Stat, r: InodeSimu, unknown: Option<Ids>)
    ensures r.active == NO_FIELDS ==>
            Shown(buf, r, unknown) ==
            if unknown.None? then (buf, 0) else (buf.(uid := unknown.value.uid, gid := unknown.value.gid), 2)
    ensures Shown(buf, r, unknown).1 == 0 ==> Shown(buf, r, unknown).0 == buf
    ensures unknown.None? ==>
      (Shown(buf, r, unknown).1 == 0 <==>
       !r.active.uid && !r.active.gid && !r.active.mode && !r.active.suidSgid && !r.active.devNode)
  {
  }

  /** After a CLEAR the file is shown as it really is, whatever was simulated before: a new file
      in its place does not inherit anything. */
  lemma ClearThenStat(cs: seq<Command>, buf: Stat, unknown: Option<Ids>)
    requires RunAll(EmptyDb, cs + Sends(RemoveCall(buf))).size <= UINT32_MAX + 1
    ensures GuardedView(RunAll(EmptyDb, cs + Sends(RemoveCall(buf))), buf, unknown) ==
            if unknown.None? then (buf, 0) else (buf.(uid := unknown.value.uid, gid := unknown.value.gid), 2)
  {
    hide KeyFor, InoToKey, RunAll, GuardedView, Do, Shown, RecordOf;
    var m := ZERO.(dev := buf.dev, ino := buf.ino);
    AfterCommand(cs, ClearFileInfo(m), buf, unknown);
    ClearedRecord(RunAll(EmptyDb, cs), m);
    ShownInactive(buf, RecordOf(Do(RunAll(EmptyDb, cs), ClearFileInfo(m)), buf.dev, buf.ino), unknown);
  }

  /** A RELEASE brings back the real values of the fields that it names, and of no others; bits
      for set-user-id and set-group-id are never released. */
  lemma ReleaseThenStat(cs: seq<Command>, buf: Stat, fields: Mask)
    requires
      var m := ZERO.(dev := buf.dev, ino := buf.ino, active := fields);
      RunAll(EmptyDb, cs + [ReleaseFileInfo(m)]).size <= UINT32_MAX + 1
    ensures
      var m := ZERO.(dev := buf.dev, ino := buf.ino, active := fields);
      var before := GuardedView(RunAll(EmptyDb, cs), buf, None).0;
      var after := GuardedView(RunAll(EmptyDb, cs + [ReleaseFileInfo(m)]), buf, None).0;
      && after.uid == (if fields.uid then buf.uid else before.uid)
      && after.gid == (if fields.gid then buf.gid else before.gid)
      && after.mode.rest == (if fields.mode then buf.mode.rest else before.mode.rest)
      && after.mode.fmt == (if fields.devNode then buf.mode.fmt else before.mode.fmt)
      && after.rdev == (if fields.devNode then buf.rdev else before.rdev)
      && (RecordOf(RunAll(EmptyDb, cs), buf.dev, buf.ino).active.suidSgid ==> after.mode.suidSgid == before.mode.suidSgid)
  {
    hide KeyFor, InoToKey, RunAll, GuardedView, Do, RecordOf;
    var m := ZERO.(dev := buf.dev, ino := buf.ino, active := fields);
    AfterCommand(cs, ReleaseFileInfo(m), buf, None);
    ReleasedRecord(RunAll(EmptyDb, cs), m);
  }

  /** A chown to (uid_t)-1 and (gid_t)-1 asks for nothing. */
  lemma MinusOneAsksNothing(buf: Stat)
    ensures Sends(ChownCall(buf, 0xFFFF_FFFF, 0xFFFF_FFFF)) == []
  {
  }

  // ---------------------------------------------------------------- devices

  /** A device node that was simulated is shown as the device that was asked for: type,
      permissions and number. */
  lemma MknodThenStat(cs: seq<Command>, buf: Stat, mode: Mode, rdev: nat, unknown: Option<Ids>)
    requires RunAll(EmptyDb, cs + Sends(MknodCall(buf, mode, rdev))).size <= UINT32_MAX + 1
    ensures
      var before := GuardedView(RunAll(EmptyDb, cs), buf, unknown).0;
      var after := GuardedView(RunAll(EmptyDb, cs + Sends(MknodCall(buf, mode, rdev))), buf, unknown).0;
      after == before.(mode := mode, rdev := rdev)
  {
    hide KeyFor, InoToKey, RunAll, GuardedView, Do, RecordOf;
    var c := SetDevNode(buf.dev, buf.ino, mode, rdev);
    AfterCommand(cs, c, buf, unknown);
    SetRecord(RunAll(EmptyDb, cs), c.info);
  }

  // ---------------------------------------------------------------- chmod

  /** When the bits for set-user-id and set-group-id are shown as they were asked for. It is up
      to the real mode of the file, and, for a chmod to that very mode, to bits that are
      simulated already. */
  predicate SuidIsShown(buf: Stat, rest: nat, bits: nat, r: InodeSimu) {
    if buf.mode.suidSgid != bits then true
    else if buf.mode.rest != rest then bits == 0
    else !r.active.suidSgid || r.suidsgid.suidSgid == bits
  }

  /** Chmod, then stat, from any reachable database: the permissions are shown as they were asked
      for; file type, device number and ids as before; and the set-id bits exactly under that
      condition. */
  lemma ChmodThenStat(cs: seq<Command>, buf: Stat, rest: nat, bits: nat, unknown: Option<Ids>)
    requires buf.mode.fmt != 0
    requires RunAll(EmptyDb, cs + Sends(ChmodCall(buf, Mode(0, 0, rest), Mode(0, bits, 0)))).size <= UINT32_MAX + 1
    ensures
      var before := GuardedView(RunAll(EmptyDb, cs), buf, unknown).0;
      var sent := Sends(ChmodCall(buf, Mode(0, 0, rest), Mode(0, bits, 0)));
      var after := GuardedView(RunAll(EmptyDb, cs + sent), buf, unknown).0;
      && after == before.(mode := after.mode)
      && after.mode.rest == rest && after.mode.fmt == before.mode.fmt
      && (after.mode.suidSgid == bits <==>
          SuidIsShown(buf, rest, bits, RecordOf(RunAll(EmptyDb, cs), buf.dev, buf.ino)))
  {
    hide KeyFor, InoToKey, RunAll, GuardedView, Do, RecordOf;
    var c := Chmod(buf, Mode(0, 0, rest), Mode(0, bits, 0));
    AfterCommand(cs, c, buf, unknown);
    if c.SetFileInfo? {
      SetRecord(RunAll(EmptyDb, cs), c.info);
    } else {
      ReleasedRecord(RunAll(EmptyDb, cs), c.info);
    }
  }

  /** Setting the set-user-id bit, and then taking it away again, leaves it on show: the second
      chmod is to the real mode, so the simulation is released, and with it all but these
      bits. */
  lemma SetIdBitSticks(buf: Stat, bits: nat)
    requires buf.mode.fmt != 0 && buf.mode.suidSgid == 0 && bits != 0
    ensures
      var plain := Mode(0, 0, buf.mode.rest);
      var cs := Sends(ChmodCall(buf, plain, Mode(0, bits, 0)));
      GuardedView(RunAll(EmptyDb, cs + Sends(ChmodCall(buf, plain, Mode(0, 0, 0)))), buf, None).0.mode.suidSgid == bits
  {
    hide KeyFor, InoToKey, RunAll, GuardedView, RecordOf, Do;
    var plain := Mode(0, 0, buf.mode.rest);
    var c1, c2 := Chmod(buf, plain, Mode(0, bits, 0)), Chmod(buf, plain, Mode(0, 0, 0));
    TwoCommands(c1, c2);
    AfterCommand([c1], c2, buf, None);
    SetRecord(EmptyDb, c1.info);
    ReleasedRecord(Do(EmptyDb, c1), c2.info);
  }

  lemma TwoCommands(c1: Command, c2: Command)
    ensures RunAll(EmptyDb, [c1]) == Do(EmptyDb, c1)
    ensures RunAll(EmptyDb, [c1] + [c2]).size <= EmptyDb.size + 2 * RECORD_COST
  {
    hide KeyFor, Merge, Released;
    RunShort(EmptyDb, c1, c2);
    assert [c1] + [] == [c1];
  }
}
