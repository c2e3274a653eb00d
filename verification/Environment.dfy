/** The environment that a program sees after exec: the user's LD_PRELOAD and LD_LIBRARY_PATH
    are renamed (execs/sb_exec.c), replaced by those of the exec policy
    (execs/exec_postprocess.c), and restored by the started program (preload/libsb2.c). */
module Environment {
  import opened Options

  /** The names that the code tells apart, by the prefixes that it compares. `Sb2` is any
      other name that starts with __SB2_, and `Session` any other that starts with
      SBOX_SESSION_. */
  datatype Name =
    | LdPreload | LdLibraryPath
    | NlsPath | LocPath | GconvPath
    | Sb2LdPreload | Sb2LdLibraryPath | Sb2(text: string)
    | SessionDir | SessionMode | Session(text: string)
    | MappingMethod | VpermRequest | VpermIds | Sigtrap
    | Other(text: string)

  predicate IsSb2(n: Name) {
    n.Sb2LdPreload? || n.Sb2LdLibraryPath? || n.Sb2?
  }

  datatype Var = Var(name: Name, value: string)

  type Env = seq<Var>

  /** getenv: the first variable of that name. */
  function Getenv(env: Env, n: Name): Option<string> {
    if env == [] then None else if env[0].name == n then Some(env[0].value) else Getenv(env[1..], n)
  }

  /** The last one, when there are several. */
  function LastValue(env: Env, n: Name): Option<string> {
    if env == [] then None
    else if env[|env| - 1].name == n then Some(env[|env| - 1].value)
    else LastValue(env[..|env| - 1], n)
  }

  function Count(env: Env, n: Name): nat {
    if env == [] then 0 else (if env[0].name == n then 1 else 0) + Count(env[1..], n)
  }

  function Single(n: Name, value: Option<string>): Env {
    if value.Some? then [Var(n, value.value)] else []
  }

  // ---------------------------------------------------------------- prepare_envp_for_do_exec

  /** What belongs to the session of the running process. `readable`: there are rules for a
      mode; `vpermIds`: the ids handed over, on a user's request or without one. */
  datatype SessionInfo = SessionInfo(
    dir: string,
    mode: Option<string>,
    mappingMethod: Option<string>,
    sigtrap: Option<string>,
    chroot: Option<string>,
    readable: string -> bool,
    vpermIds: Option<string> -> string)

  /** Has a change of mode been accepted, after this variable? */
  predicate Accepts(s: SessionInfo, v: Var, accepted: bool) {
    accepted || (v.name.SessionMode? && s.mode != Some(v.value) && s.readable(v.value))
  }

  /** Is this variable relayed? `accepted`: a change of mode has been accepted before. */
  predicate Relays(s: SessionInfo, v: Var, accepted: bool) {
    match v.name
    case LdPreload => false
    case LdLibraryPath => false
    case NlsPath => false
    case LocPath => false
    case Sb2LdPreload => false
    case Sb2LdLibraryPath => false
    case Sb2(_) => false
    case SessionMode => s.mode != Some(v.value) && Accepts(s, v, accepted)
    case SessionDir => false
    case Session(_) => false
    case MappingMethod => s.mappingMethod.None?
    case VpermRequest => false
    case VpermIds => false
    case _ => true
  }

  function AcceptedAfter(s: SessionInfo, env: Env): bool {
    env != [] && Accepts(s, env[|env| - 1], AcceptedAfter(s, env[..|env| - 1]))
  }

  function Relayed(s: SessionInfo, env: Env): Env {
    if env == [] then []
    else
      var init, v := env[..|env| - 1], env[|env| - 1];
      Relayed(s, init) + if Relays(s, v, AcceptedAfter(s, init)) then [v] else []
  }

  /** The variables added behind the relayed ones, part by part. */
  function Parts(s: SessionInfo, file: string, binary: string, env: Env): seq<Env> {
    [ Single(SessionDir, Some(s.dir)),
      Single(MappingMethod, s.mappingMethod),
      Single(SessionMode, if AcceptedAfter(s, env) then None else s.mode),
      Single(VpermIds, Some(s.vpermIds(LastValue(env, VpermRequest)))),
      Single(Sigtrap, if Getenv(env, Sigtrap).Some? then None else s.sigtrap),
      Single(Sb2("BINARYNAME"), Some(binary)),
      Single(Sb2("ORIG_BINARYNAME"), Some(file)),
      Single(Sb2("EXEC_BINARYNAME"), Some(file)),
      Single(Sb2("REAL_BINARYNAME"), Some("")),
      Single(Sb2LdPreload, LastValue(env, LdPreload)),
      Single(Sb2LdLibraryPath, LastValue(env, LdLibraryPath)),
      Single(Sb2("CHROOT_PATH"), s.chroot) ]
  }

  function Added(s: SessionInfo, file: string, binary: string, env: Env): Env {
    Flat(Parts(s, file, binary, env))
  }

  function Prepared(s: SessionInfo, file: string, binary: string, env: Env): Env {
    Relayed(s, env) + Added(s, file, binary, env)
  }

  // ---------------------------------------------------------------- native exec and start-up

  /** What the exec policy sets for a native program. */
  datatype Policy = Policy(
    name: string,
    ldLibraryPath: string,
    ldPreload: string,
    localePath: Option<string>,
    gconvPath: Option<string>)

  predicate IsLd(n: Name) {
    n.LdPreload? || n.LdLibraryPath?
  }

  function WithoutLd(env: Env): Env {
    if env == [] then [] else (if IsLd(env[0].name) then [] else [env[0]]) + WithoutLd(env[1..])
  }

  function PolicyVars(p: Policy): Env {
    [Var(Sb2("EXEC_POLICY_NAME"), p.name), Var(LdLibraryPath, p.ldLibraryPath), Var(LdPreload, p.ldPreload)]
    + (Single(LocPath, p.localePath) + Single(NlsPath, p.localePath) + Single(GconvPath, p.gconvPath))
  }

  /** exec_postprocess_native_executable, the environment. */
  function NativeEnv(p: Policy, env: Env): Env {
    PolicyVars(p) + WithoutLd(env)
  }

  /** The five slots for the policy, and the one for its name, are enough. */
  lemma {:induction false} NativeEnvFits(p: Policy, env: Env)
    ensures |NativeEnv(p, env)| <= |env| + 1 + 5
  {
    WithoutLdLength(env);
  }

  lemma {:induction false} WithoutLdLength(env: Env)
    ensures |WithoutLd(env)| <= |env|
  {
    if env != [] {
      WithoutLdLength(env[1..]);
    }
  }

  function Setenv(env: Env, n: Name, value: string): Env {
    if env == [] then [Var(n, value)]
    else if env[0].name == n then [Var(n, value)] + env[1..]
    else [env[0]] + Setenv(env[1..], n, value)
  }

  function Unsetenv(env: Env, n: Name): Env {
    if env == [] then [] else (if env[0].name == n then [] else [env[0]]) + Unsetenv(env[1..], n)
  }

  /** revert_to_user_version_of_env_var */
  function Revert(env: Env, n: Name, wrapped: Name): Env {
    match Getenv(env, wrapped)
    case Some(value) => Setenv(env, n, value)
    case None => Unsetenv(env, n)
  }

  /** The environment of a started native program once it has initialized itself. */
  function Child(s: SessionInfo, p: Policy, file: string, binary: string, env: Env): Env {
    var started := NativeEnv(p, Prepared(s, file, binary, env));
    Revert(Revert(started, LdPreload, Sb2LdPreload), LdLibraryPath, Sb2LdLibraryPath)
  }

  // ---------------------------------------------------------------- lookups

  lemma {:induction false} GetenvAppend(a: Env, b: Env, n: Name)
    ensures Getenv(a + b, n) == if Getenv(a, n).Some? then Getenv(a, n) else Getenv(b, n)
    decreases |a|
  {
    if a == [] {
      assert a + b == b;
    } else {
      assert (a + b)[1..] == a[1..] + b;
      GetenvAppend(a[1..], b, n);
    }
  }

  lemma {:induction false} CountAppend(a: Env, b: Env, n: Name)
    ensures Count(a + b, n) == Count(a, n) + Count(b, n)
    decreases |a|
  {
    if a == [] {
      assert a + b == b;
    } else {
      assert (a + b)[1..] == a[1..] + b;
      CountAppend(a[1..], b, n);
    }
  }

  lemma {:induction false} CountZero(env: Env, n: Name)
    ensures Count(env, n) == 0 <==> Getenv(env, n).None?
  {
    if env != [] {
      CountZero(env[1..], n);
    }
  }

  lemma LookupNone(n: Name)
    ensures Getenv([], n) == None && Count([], n) == 0
  {
  }

  lemma LookupCons(v: Var, env: Env, n: Name)
    ensures Getenv([v] + env, n) == if v.name == n then Some(v.value) else Getenv(env, n)
    ensures Count([v] + env, n) == (if v.name == n then 1 else 0) + Count(env, n)
  {
    assert ([v] + env)[1..] == env;
  }

  lemma {:induction false} SetenvLookup(env: Env, n: Name, value: string, m: Name)
    ensures
      var after := Setenv(env, n, value);
      if m == n then Getenv(after, m) == Some(value)
      else Getenv(after, m) == Getenv(env, m) && Count(after, m) == Count(env, m)
  {
    hide Getenv, Count;
    var made := Var(n, value);
    if env == [] {
      LookupNone(m);
      LookupCons(made, [], m);
      assert [made] + [] == [made];
    } else {
      var v, rest := env[0], env[1..];
      assert env == [v] + rest;
      LookupCons(v, rest, m);
      if v.name == n {
        LookupCons(made, rest, m);
      } else {
        SetenvLookup(rest, n, value, m);
        LookupCons(v, Setenv(rest, n, value), m);
      }
    }
  }

  lemma {:induction false} GetenvUnsetenv(env: Env, n: Name, m: Name)
    ensures Getenv(Unsetenv(env, n), m) == if m == n then None else Getenv(env, m)
    ensures m != n ==> Count(Unsetenv(env, n), m) == Count(env, m)
  {
    hide Getenv, Count;
    LookupNone(m);
    if env != [] {
      var v, rest := env[0], env[1..];
      assert env == [v] + rest && [] + Unsetenv(rest, n) == Unsetenv(rest, n);
      GetenvUnsetenv(rest, n, m);
      LookupCons(v, rest, m);
      LookupCons(v, Unsetenv(rest, n), m);
    }
  }

  lemma {:induction false} GetenvWithoutLd(env: Env, m: Name)
    ensures Getenv(WithoutLd(env), m) == if IsLd(m) then None else Getenv(env, m)
    ensures Count(WithoutLd(env), m) == if IsLd(m) then 0 else Count(env, m)
  {
    hide Getenv, Count, IsLd;
    LookupNone(m);
    if env != [] {
      var v, rest := env[0], env[1..];
      assert env == [v] + rest && [] + WithoutLd(rest) == WithoutLd(rest);
      GetenvWithoutLd(rest, m);
      LookupCons(v, rest, m);
      LookupCons(v, WithoutLd(rest), m);
    }
  }

  lemma {:induction false} GetenvRevert(env: Env, n: Name, wrapped: Name, m: Name)
    ensures Getenv(Revert(env, n, wrapped), m) == if m == n then Getenv(env, wrapped) else Getenv(env, m)
    ensures m != n ==> Count(Revert(env, n, wrapped), m) == Count(env, m)
  {
    match Getenv(env, wrapped)
    case Some(value) =>
      SetenvLookup(env, n, value, m);
    case None => GetenvUnsetenv(env, n, m);
  }

  // ---------------------------------------------------------------- what is relayed and added

  /** Names that the user cannot hand on. */
  predicate NeverRelayed(n: Name) {
    IsLd(n) || IsSb2(n) || n.NlsPath? || n.LocPath? || n.SessionDir? || n.Session? || n.VpermRequest? || n.VpermIds?
  }

  predicate AlwaysRelayed(n: Name) {
    n.GconvPath? || n.Sigtrap? || n.Other?
  }

  lemma RelaysByName(s: SessionInfo, v: Var, accepted: bool)
    ensures NeverRelayed(v.name) ==> !Relays(s, v, accepted)
    ensures AlwaysRelayed(v.name) ==> Relays(s, v, accepted)
  {
  }

  lemma OneLookup(v: Var, n: Name)
    ensures Getenv([v], n) == if v.name == n then Some(v.value) else None
  {
    LookupCons(v, [], n);
    assert [v] + [] == [v];
  }

  lemma {:induction false} RelayedLookup(s: SessionInfo, env: Env, n: Name)
    requires NeverRelayed(n) || AlwaysRelayed(n)
    ensures Getenv(Relayed(s, env), n) == if NeverRelayed(n) then None else Getenv(env, n)
  {
    hide Getenv, Relays, AcceptedAfter, NeverRelayed, AlwaysRelayed;
    LookupNone(n);
    if env != [] {
      var init, v := env[..|env| - 1], env[|env| - 1];
      RelayedLookup(s, init, n);
      RelaysByName(s, v, AcceptedAfter(s, init));
      var tail := if Relays(s, v, AcceptedAfter(s, init)) then [v] else [];
      assert env == init + [v];
      GetenvAppend(init, [v], n);
      GetenvAppend(Relayed(s, init), tail, n);
      OneLookup(v, n);
    }
  }

  function Flat(parts: seq<Env>): Env {
    if parts == [] then [] else parts[0] + Flat(parts[1..])
  }

  /** One part only has variables of a name. */
  lemma {:induction false} FlatLookup(parts: seq<Env>, n: Name, k: nat)
    requires k < |parts| && forall j :: 0 <= j < |parts| && j != k ==> Getenv(parts[j], n) == None
    ensures Getenv(Flat(parts), n) == Getenv(parts[k], n)
    ensures Count(Flat(parts), n) == Count(parts[k], n)
    decreases |parts|
  {
    var rest := parts[1..];
    GetenvAppend(parts[0], Flat(rest), n);
    CountAppend(parts[0], Flat(rest), n);
    CountZero(parts[0], n);
    if k > 0 {
      FlatLookup(rest, n, k - 1);
    } else {
      FlatNothing(rest, n);
    }
  }

  lemma {:induction false} FlatNothing(parts: seq<Env>, n: Name)
    requires forall j :: 0 <= j < |parts| ==> Getenv(parts[j], n) == None
    ensures Getenv(Flat(parts), n) == None && Count(Flat(parts), n) == 0
  {
    CountZero(Flat(parts), n);
    if parts != [] {
      FlatNothing(parts[1..], n);
      GetenvAppend(parts[0], Flat(parts[1..]), n);
    }
  }

  lemma SingleLookup(n: Name, value: Option<string>, m: Name)
    ensures Getenv(Single(n, value), m) == if m == n then value else None
    ensures Count(Single(n, value), m) == if m == n && value.Some? then 1 else 0
  {
    if value.Some? {
      LookupCons(Var(n, value.value), [], m);
      assert [Var(n, value.value)] + [] == [Var(n, value.value)];
    }
  }

  /** The names of the parts, in order. */
  function PartNames(): seq<Name> {
    [ SessionDir, MappingMethod, SessionMode, VpermIds, Sigtrap,
      Sb2("BINARYNAME"), Sb2("ORIG_BINARYNAME"), Sb2("EXEC_BINARYNAME"), Sb2("REAL_BINARYNAME"),
      Sb2LdPreload, Sb2LdLibraryPath, Sb2("CHROOT_PATH") ]
  }

  lemma PartLookup(s: SessionInfo, file: string, binary: string, env: Env, n: Name, j: nat)
    requires j < 12
    ensures PartNames()[j] != n ==> Getenv(Parts(s, file, binary, env)[j], n) == None
  {
    var name := PartNames()[j];
    var part := Parts(s, file, binary, env)[j];
    assert part == [] || (|part| == 1 && part[0].name == name);
    if part != [] {
      assert part[1..] == [];
    }
  }

  lemma AddedLookup(s: SessionInfo, file: string, binary: string, env: Env, n: Name, k: nat)
    requires k < 12 && PartNames()[k] == n
    ensures Getenv(Added(s, file, binary, env), n) == Getenv(Parts(s, file, binary, env)[k], n)
    ensures Count(Added(s, file, binary, env), n) == Count(Parts(s, file, binary, env)[k], n)
  {
    hide Getenv, Count, Flat;
    forall j: nat | j < 12 && j != k ensures Getenv(Parts(s, file, binary, env)[j], n) == None {
      PartsDiffer(j, k);
      PartLookup(s, file, binary, env, n, j);
    }
    FlatLookup(Parts(s, file, binary, env), n, k);
  }

  lemma PartsDiffer(j: nat, k: nat)
    requires j < 12 && k < 12 && j != k
    ensures PartNames()[j] != PartNames()[k]
  {
    var a, b, c, d, e := "BINARYNAME", "ORIG_BINARYNAME", "EXEC_BINARYNAME", "REAL_BINARYNAME", "CHROOT_PATH";
    assert |a| == 10 && |b| == 15 && |c| == 15 && |d| == 15 && |e| == 11;
    assert b[0] == 'O' && c[0] == 'E' && d[0] == 'R';
  }

  lemma AddedNothing(s: SessionInfo, file: string, binary: string, env: Env, n: Name)
    requires n !in PartNames()
    ensures Getenv(Added(s, file, binary, env), n) == None
  {
    hide Getenv, Count, Flat;
    forall j: nat | j < 12 ensures Getenv(Parts(s, file, binary, env)[j], n) == None {
      assert PartNames()[j] in PartNames();
      PartLookup(s, file, binary, env, n, j);
    }
    FlatNothing(Parts(s, file, binary, env), n);
  }

  // ---------------------------------------------------------------- the round trip

  /** A look into the environment of the started program. */
  lemma ChildLookup(s: SessionInfo, p: Policy, file: string, binary: string, env: Env, n: Name)
    ensures
      var started := NativeEnv(p, Prepared(s, file, binary, env));
      Getenv(Child(s, p, file, binary, env), n) ==
      if n == LdPreload then Getenv(started, Sb2LdPreload)
      else if n == LdLibraryPath then Getenv(started, Sb2LdLibraryPath)
      else Getenv(started, n)
  {
    hide Getenv, Count, Revert, NativeEnv, Prepared;
    var started := NativeEnv(p, Prepared(s, file, binary, env));
    var reverted := Revert(started, LdPreload, Sb2LdPreload);
    GetenvRevert(reverted, LdLibraryPath, Sb2LdLibraryPath, n);
    GetenvRevert(started, LdPreload, Sb2LdPreload, n);
    GetenvRevert(started, LdPreload, Sb2LdPreload, Sb2LdLibraryPath);
  }

  lemma PolicyLookup(p: Policy, n: Name)
    requires !IsLd(n) && n != LocPath && n != NlsPath && n != GconvPath && n != Sb2("EXEC_POLICY_NAME")
    ensures Getenv(PolicyVars(p), n) == None && Count(PolicyVars(p), n) == 0
  {
    hide Getenv, Count, PolicyVars;
    PolicyHas(p, n);
    CountZero(PolicyVars(p), n);
  }

  lemma StartedLookup(s: SessionInfo, p: Policy, file: string, binary: string, env: Env, n: Name)
    requires !IsLd(n) && n != LocPath && n != NlsPath && n != GconvPath && n != Sb2("EXEC_POLICY_NAME")
    ensures
      var started := NativeEnv(p, Prepared(s, file, binary, env));
      && Getenv(started, n) == (if Getenv(Relayed(s, env), n).Some? then Getenv(Relayed(s, env), n)
                                else Getenv(Added(s, file, binary, env), n))
      && Count(started, n) == Count(Relayed(s, env), n) + Count(Added(s, file, binary, env), n)
  {
    hide Getenv, Count, Relayed, Added, WithoutLd, PolicyVars;
    var prepared := Prepared(s, file, binary, env);
    PolicyLookup(p, n);
    GetenvAppend(PolicyVars(p), WithoutLd(prepared), n);
    CountAppend(PolicyVars(p), WithoutLd(prepared), n);
    GetenvWithoutLd(prepared, n);
    GetenvAppend(Relayed(s, env), Added(s, file, binary, env), n);
    CountAppend(Relayed(s, env), Added(s, file, binary, env), n);
  }

  /** A native program finds the LD_PRELOAD and the LD_LIBRARY_PATH that the user had set last
      before the exec, or none if there was none, whatever the policy injected. */
  lemma ChildSeesLast(s: SessionInfo, p: Policy, file: string, binary: string, env: Env)
    ensures
      var child := Child(s, p, file, binary, env);
      && Getenv(child, LdPreload) == LastValue(env, LdPreload)
      && Getenv(child, LdLibraryPath) == LastValue(env, LdLibraryPath)
  {
    hide Getenv, Count, Child, NativeEnv, Prepared, Relayed, Added, LastValue;
    ChildLookup(s, p, file, binary, env, LdPreload);
    ChildLookup(s, p, file, binary, env, LdLibraryPath);
    StartedLookup(s, p, file, binary, env, Sb2LdPreload);
    StartedLookup(s, p, file, binary, env, Sb2LdLibraryPath);
    RelayedLookup(s, env, Sb2LdPreload);
    RelayedLookup(s, env, Sb2LdLibraryPath);
    AddedLookup(s, file, binary, env, Sb2LdPreload, 9);
    AddedLookup(s, file, binary, env, Sb2LdLibraryPath, 10);
    SingleLookup(Sb2LdPreload, LastValue(env, LdPreload), Sb2LdPreload);
    SingleLookup(Sb2LdLibraryPath, LastValue(env, LdLibraryPath), Sb2LdLibraryPath);
  }

  lemma {:induction false} OnlyOne(env: Env, n: Name)
    requires Count(env, n) <= 1
    ensures LastValue(env, n) == Getenv(env, n)
  {
    if env != [] {
      var init, v := env[..|env| - 1], env[|env| - 1];
      assert env == init + [v];
      GetenvAppend(init, [v], n);
      CountAppend(init, [v], n);
      OneLookup(v, n);
      CountZero(init, n);
      CountZero([v], n);
      OnlyOne(init, n);
    }
  }

  /** The round trip: when a variable was set at most once, the program sees what its parent
      saw; in general it does exactly if the first and the last setting agree. */
  lemma LdRoundTrip(s: SessionInfo, p: Policy, file: string, binary: string, env: Env, n: Name)
    requires IsLd(n)
    ensures
      var child := Child(s, p, file, binary, env);
      && (Getenv(child, n) == Getenv(env, n) <==> Getenv(env, n) == LastValue(env, n))
      && (Count(env, n) <= 1 ==> Getenv(child, n) == Getenv(env, n))
  {
    ChildSeesLast(s, p, file, binary, env);
    if Count(env, n) <= 1 {
      OnlyOne(env, n);
    }
  }

  /** A variable that was set twice: the parent finds the first setting, the program the
      second. */
  lemma SecondSettingWins(s: SessionInfo, p: Policy, file: string, binary: string, x: string, y: string)
    ensures
      var env := [Var(LdPreload, x), Var(LdPreload, y)];
      Getenv(env, LdPreload) == Some(x) && Getenv(Child(s, p, file, binary, env), LdPreload) == Some(y)
  {
    hide Child;
    var env := [Var(LdPreload, x), Var(LdPreload, y)];
    ChildSeesLast(s, p, file, binary, env);
  }

  /** The session directory is set once, to that of the session. */
  lemma SessionDirIsKept(s: SessionInfo, p: Policy, file: string, binary: string, env: Env)
    ensures
      var child := Child(s, p, file, binary, env);
      Getenv(child, SessionDir) == Some(s.dir) && Count(child, SessionDir) == 1
  {
    hide Getenv, Count, NativeEnv, Prepared, Relayed, Added, Revert;
    var started := NativeEnv(p, Prepared(s, file, binary, env));
    var reverted := Revert(started, LdPreload, Sb2LdPreload);
    GetenvRevert(reverted, LdLibraryPath, Sb2LdLibraryPath, SessionDir);
    GetenvRevert(started, LdPreload, Sb2LdPreload, SessionDir);
    StartedLookup(s, p, file, binary, env, SessionDir);
    RelayedLookup(s, env, SessionDir);
    CountZero(Relayed(s, env), SessionDir);
    AddedLookup(s, file, binary, env, SessionDir, 0);
    SingleLookup(SessionDir, Some(s.dir), SessionDir);
  }

  /** A variable of the user whose name starts with __SB2_ does not get through, and ordinary
      variables do. */
  lemma OthersAreKept(s: SessionInfo, p: Policy, file: string, binary: string, env: Env, n: Name)
    requires (n.Sb2? && n !in PartNames() && n != Sb2("EXEC_POLICY_NAME")) || n.Other?
    ensures Getenv(Child(s, p, file, binary, env), n) == if n.Other? then Getenv(env, n) else None
  {
    hide Getenv, Count, Child, NativeEnv, Prepared, Relayed, Added;
    ChildLookup(s, p, file, binary, env, n);
    StartedLookup(s, p, file, binary, env, n);
    RelayedLookup(s, env, n);
    AddedNothing(s, file, binary, env, n);
  }

  /** The ids are handed on once, as they were exported. */
  lemma VpermIdsAreOwn(s: SessionInfo, p: Policy, file: string, binary: string, env: Env)
    ensures
      var child := Child(s, p, file, binary, env);
      && Getenv(child, VpermIds) == Some(s.vpermIds(LastValue(env, VpermRequest)))
      && Count(child, VpermIds) == 1
  {
    hide Getenv, Count, NativeEnv, Prepared, Relayed, Added, Revert, LastValue;
    var started := NativeEnv(p, Prepared(s, file, binary, env));
    var reverted := Revert(started, LdPreload, Sb2LdPreload);
    GetenvRevert(reverted, LdLibraryPath, Sb2LdLibraryPath, VpermIds);
    GetenvRevert(started, LdPreload, Sb2LdPreload, VpermIds);
    StartedLookup(s, p, file, binary, env, VpermIds);
    RelayedLookup(s, env, VpermIds);
    CountZero(Relayed(s, env), VpermIds);
    AddedLookup(s, file, binary, env, VpermIds, 3);
    SingleLookup(VpermIds, Some(s.vpermIds(LastValue(env, VpermRequest))), VpermIds);
  }

  /** The first mode that is asked for, other than that of the session, for which rules can be
      read. */
  function RequestedMode(s: SessionInfo, env: Env): Option<string> {
    if env == [] then None
    else if env[0].name == SessionMode && s.mode != Some(env[0].value) && s.readable(env[0].value) then Some(env[0].value)
    else RequestedMode(s, env[1..])
  }

  lemma {:induction false} RequestedAppend(s: SessionInfo, a: Env, b: Env)
    ensures RequestedMode(s, a + b) == if RequestedMode(s, a).Some? then RequestedMode(s, a) else RequestedMode(s, b)
    decreases |a|
  {
    if a == [] {
      assert a + b == b;
    } else {
      assert (a + b)[0] == a[0] && (a + b)[1..] == a[1..] + b;
      RequestedAppend(s, a[1..], b);
    }
  }

  lemma RequestedOne(s: SessionInfo, v: Var)
    ensures RequestedMode(s, [v]) ==
            if v.name == SessionMode && s.mode != Some(v.value) && s.readable(v.value) then Some(v.value) else None
  {
    assert [v][1..] == [];
  }

  /** It is the first mode that is relayed. */
  lemma {:induction false} RelayedMode(s: SessionInfo, env: Env)
    ensures Getenv(Relayed(s, env), SessionMode) == RequestedMode(s, env)
    ensures AcceptedAfter(s, env) <==> RequestedMode(s, env).Some?
  {
    hide Getenv, RequestedMode;
    LookupNone(SessionMode);
    if env == [] {
      RequestedNone(s);
    } else {
      var init, v := env[..|env| - 1], env[|env| - 1];
      RelayedMode(s, init);
      assert env == init + [v];
      RequestedAppend(s, init, [v]);
      RequestedOne(s, v);
      var tail := if Relays(s, v, AcceptedAfter(s, init)) then [v] else [];
      GetenvAppend(Relayed(s, init), tail, SessionMode);
      OneLookup(v, SessionMode);
    }
  }

  lemma RequestedNone(s: SessionInfo)
    ensures RequestedMode(s, []) == None
  {
  }

  /** A started program runs in the first mode that was asked for and has rules, or else in the
      mode of the session. */
  lemma ModeIsAllowed(s: SessionInfo, p: Policy, file: string, binary: string, env: Env)
    ensures Getenv(Child(s, p, file, binary, env), SessionMode) ==
            if RequestedMode(s, env).Some? then RequestedMode(s, env) else s.mode
  {
    hide Getenv, Count, Child, NativeEnv, Prepared, Relayed, Added, AcceptedAfter, RequestedMode;
    ChildLookup(s, p, file, binary, env, SessionMode);
    StartedLookup(s, p, file, binary, env, SessionMode);
    RelayedMode(s, env);
    AddedLookup(s, file, binary, env, SessionMode, 2);
    SingleLookup(SessionMode, if AcceptedAfter(s, env) then None else s.mode, SessionMode);
  }

  /** A started program is told what it is: its own name, and the file as it was asked for. */
  lemma BinaryNamesAreSet(s: SessionInfo, p: Policy, file: string, binary: string, env: Env)
    ensures
      var child := Child(s, p, file, binary, env);
      && Getenv(child, Sb2("BINARYNAME")) == Some(binary)
      && Getenv(child, Sb2("ORIG_BINARYNAME")) == Some(file)
      && Getenv(child, Sb2("EXEC_BINARYNAME")) == Some(file)
      && Getenv(child, Sb2("REAL_BINARYNAME")) == Some("")
      && Getenv(child, Sb2("CHROOT_PATH")) == s.chroot
  {
    OwnPart(s, p, file, binary, env, 5);
    OwnPart(s, p, file, binary, env, 6);
    OwnPart(s, p, file, binary, env, 7);
    OwnPart(s, p, file, binary, env, 8);
    OwnPart(s, p, file, binary, env, 11);
  }

  /** A part that no variable of the user can get in the way of. */
  lemma OwnPart(s: SessionInfo, p: Policy, file: string, binary: string, env: Env, k: nat)
    requires k in {5, 6, 7, 8, 11}
    ensures
      var name := PartNames()[k];
      name.Sb2? && Getenv(Child(s, p, file, binary, env), name) ==
        match k
        case 5 => Some(binary)
        case 8 => Some("")
        case 11 => s.chroot
        case _ => Some(file)
  {
    hide Getenv, Count, Child, NativeEnv, Prepared, Relayed, Added;
    var name := PartNames()[k];
    ChildLookup(s, p, file, binary, env, name);
    StartedLookup(s, p, file, binary, env, name);
    RelayedLookup(s, env, name);
    AddedLookup(s, file, binary, env, name, k);
    var value := if k == 5 then Some(binary) else if k == 8 then Some("") else if k == 11 then s.chroot else Some(file);
    SingleLookup(name, value, name);
  }

  /** The way of mapping is the session's, or else the user's; the signal to be raised is the
      user's, or else the session's. */
  lemma SettingsAreMerged(s: SessionInfo, p: Policy, file: string, binary: string, env: Env)
    ensures
      var child := Child(s, p, file, binary, env);
      && Getenv(child, MappingMethod) == (if s.mappingMethod.Some? then s.mappingMethod else Getenv(env, MappingMethod))
      && Getenv(child, Sigtrap) == (if Getenv(env, Sigtrap).Some? then Getenv(env, Sigtrap) else s.sigtrap)
  {
    hide Getenv, Count, Child, NativeEnv, Prepared, Relayed, Added;
    ChildLookup(s, p, file, binary, env, MappingMethod);
    StartedLookup(s, p, file, binary, env, MappingMethod);
    RelayedMapping(s, env);
    AddedLookup(s, file, binary, env, MappingMethod, 1);
    SingleLookup(MappingMethod, s.mappingMethod, MappingMethod);
    ChildLookup(s, p, file, binary, env, Sigtrap);
    StartedLookup(s, p, file, binary, env, Sigtrap);
    RelayedLookup(s, env, Sigtrap);
    AddedLookup(s, file, binary, env, Sigtrap, 4);
    SingleLookup(Sigtrap, if Getenv(env, Sigtrap).Some? then None else s.sigtrap, Sigtrap);
  }

  lemma {:induction false} RelayedMapping(s: SessionInfo, env: Env)
    ensures Getenv(Relayed(s, env), MappingMethod) ==
            if s.mappingMethod.Some? then None else Getenv(env, MappingMethod)
  {
    hide Getenv;
    LookupNone(MappingMethod);
    if env != [] {
      var init, v := env[..|env| - 1], env[|env| - 1];
      RelayedMapping(s, init);
      var tail := if Relays(s, v, AcceptedAfter(s, init)) then [v] else [];
      GetenvAppend(Relayed(s, init), tail, MappingMethod);
      assert env == init + [v];
      GetenvAppend(init, [v], MappingMethod);
      OneLookup(v, MappingMethod);
    }
  }

  // ---------------------------------------------------------------- the policy

  /** What a policy sets. */
  function PolicyValue(p: Policy, n: Name): Option<string> {
    match n
    case Sb2(text) => if text == "EXEC_POLICY_NAME" then Some(p.name) else None
    case LdLibraryPath => Some(p.ldLibraryPath)
    case LdPreload => Some(p.ldPreload)
    case LocPath => p.localePath
    case NlsPath => p.localePath
    case GconvPath => p.gconvPath
    case _ => None
  }

  lemma ThreeLookup(a: Var, b: Var, c: Var, n: Name)
    ensures Getenv([a, b, c], n) ==
            if a.name == n then Some(a.value) else if b.name == n then Some(b.value)
            else if c.name == n then Some(c.value) else None
    ensures Count([a, b, c], n) ==
            (if a.name == n then 1 else 0) + (if b.name == n then 1 else 0) + (if c.name == n then 1 else 0)
  {
    assert [a, b, c] == [a] + ([b] + [c]);
    hide Getenv, Count;
    OneLookup(a, n);
    OneLookup(b, n);
    OneLookup(c, n);
    OneCount(a, n);
    OneCount(b, n);
    OneCount(c, n);
    GetenvAppend([b], [c], n);
    GetenvAppend([a], [b] + [c], n);
    CountAppend([b], [c], n);
    CountAppend([a], [b] + [c], n);
  }

  lemma OneCount(v: Var, n: Name)
    ensures Count([v], n) == if v.name == n then 1 else 0
  {
    assert [v][1..] == [];
  }

  lemma OptionalHas(p: Policy, n: Name)
    ensures
      var rest := Single(LocPath, p.localePath) + Single(NlsPath, p.localePath) + Single(GconvPath, p.gconvPath);
      && Getenv(rest, n) ==
         (if n == LocPath || n == NlsPath then p.localePath else if n == GconvPath then p.gconvPath else None)
      && (IsLd(n) ==> Count(rest, n) == 0)
  {
    hide Getenv, Count, Single;
    var b, c, d := Single(LocPath, p.localePath), Single(NlsPath, p.localePath), Single(GconvPath, p.gconvPath);
    GetenvAppend(b + c, d, n);
    GetenvAppend(b, c, n);
    SingleLookup(LocPath, p.localePath, n);
    SingleLookup(NlsPath, p.localePath, n);
    SingleLookup(GconvPath, p.gconvPath, n);
    CountZero(b + c + d, n);
  }

  lemma PolicyHas(p: Policy, n: Name)
    ensures Getenv(PolicyVars(p), n) == PolicyValue(p, n)
    ensures IsLd(n) ==> Count(PolicyVars(p), n) == 1
  {
    hide Getenv, Count, Single;
    var a, b, c := Var(Sb2("EXEC_POLICY_NAME"), p.name), Var(LdLibraryPath, p.ldLibraryPath), Var(LdPreload, p.ldPreload);
    var rest := Single(LocPath, p.localePath) + Single(NlsPath, p.localePath) + Single(GconvPath, p.gconvPath);
    assert PolicyVars(p) == [a, b, c] + rest;
    ThreeLookup(a, b, c, n);
    OptionalHas(p, n);
    GetenvAppend([a, b, c], rest, n);
    CountAppend([a, b, c], rest, n);
  }

  /** When the dynamic linker runs, before the program restores the user's settings, the
      libraries are those of the policy, whatever the user has set; and the program is told the
      name of the policy. */
  lemma PolicyIsInForce(s: SessionInfo, p: Policy, file: string, binary: string, env: Env)
    ensures
      var started := NativeEnv(p, Prepared(s, file, binary, env));
      && Getenv(started, LdPreload) == Some(p.ldPreload) && Count(started, LdPreload) == 1
      && Getenv(started, LdLibraryPath) == Some(p.ldLibraryPath) && Count(started, LdLibraryPath) == 1
      && Getenv(started, Sb2("EXEC_POLICY_NAME")) == Some(p.name)
      && (p.localePath.Some? ==> Getenv(started, LocPath) == Getenv(started, NlsPath) == p.localePath)
      && (p.gconvPath.Some? ==> Getenv(started, GconvPath) == p.gconvPath)
  {
    var prepared := Prepared(s, file, binary, env);
    PolicyComesFirst(p, prepared, LdPreload);
    PolicyComesFirst(p, prepared, LdLibraryPath);
    PolicyComesFirst(p, prepared, Sb2("EXEC_POLICY_NAME"));
    PolicyComesFirst(p, prepared, LocPath);
    PolicyComesFirst(p, prepared, NlsPath);
    PolicyComesFirst(p, prepared, GconvPath);
    hide Getenv, Count, PolicyVars, WithoutLd, Prepared;
    CountAppend(PolicyVars(p), WithoutLd(prepared), LdPreload);
    CountAppend(PolicyVars(p), WithoutLd(prepared), LdLibraryPath);
    GetenvWithoutLd(prepared, LdPreload);
    GetenvWithoutLd(prepared, LdLibraryPath);
    PolicyHas(p, LdPreload);
    PolicyHas(p, LdLibraryPath);
  }

  lemma PolicyComesFirst(p: Policy, env: Env, n: Name)
    ensures PolicyValue(p, n).Some? ==> Getenv(NativeEnv(p, env), n) == PolicyValue(p, n)
  {
    hide Getenv, PolicyVars, WithoutLd, PolicyValue;
    PolicyHas(p, n);
    GetenvAppend(PolicyVars(p), WithoutLd(env), n);
  }

  /** Locale paths are the policy's or none, never the user's; a path for character conversion is
      the policy's if it has one; what the user says about the session, or asks of the ids, is not
      handed on. */
  lemma PolicyDecidesPaths(s: SessionInfo, p: Policy, file: string, binary: string, env: Env, text: string)
    ensures
      var child := Child(s, p, file, binary, env);
      && Getenv(child, LocPath) == p.localePath && Getenv(child, NlsPath) == p.localePath
      && Getenv(child, GconvPath) == (if p.gconvPath.Some? then p.gconvPath else Getenv(env, GconvPath))
      && Getenv(child, Session(text)) == None && Getenv(child, VpermRequest) == None
  {
    hide Getenv, Child, Relayed;
    NotAdded(s, p, file, binary, env, LocPath);
    NotAdded(s, p, file, binary, env, NlsPath);
    NotAdded(s, p, file, binary, env, GconvPath);
    NotAdded(s, p, file, binary, env, Session(text));
    NotAdded(s, p, file, binary, env, VpermRequest);
  }

  /** A variable that is not set on the way is the policy's or the one that is relayed. */
  lemma NotAdded(s: SessionInfo, p: Policy, file: string, binary: string, env: Env, n: Name)
    requires !IsLd(n) && n !in PartNames() && (NeverRelayed(n) || AlwaysRelayed(n))
    ensures Getenv(Child(s, p, file, binary, env), n) ==
            if PolicyValue(p, n).Some? then PolicyValue(p, n) else if NeverRelayed(n) then None else Getenv(env, n)
  {
    hide Getenv, Count, Child, Prepared, Relayed, Added, WithoutLd, PolicyVars, PolicyValue, NeverRelayed, AlwaysRelayed;
    var prepared := Prepared(s, file, binary, env);
    ChildLookup(s, p, file, binary, env, n);
    PolicyHas(p, n);
    GetenvAppend(PolicyVars(p), WithoutLd(prepared), n);
    GetenvWithoutLd(prepared, n);
    PreparedLookup(s, file, binary, env, n);
    RelayedLookup(s, env, n);
    AddedNothing(s, file, binary, env, n);
  }

  lemma PreparedLookup(s: SessionInfo, file: string, binary: string, env: Env, n: Name)
    ensures Getenv(Prepared(s, file, binary, env), n) ==
            if Getenv(Relayed(s, env), n).Some? then Getenv(Relayed(s, env), n) else Getenv(Added(s, file, binary, env), n)
  {
    hide Getenv, Relayed, Added;
    GetenvAppend(Relayed(s, env), Added(s, file, binary, env), n);
  }

  // ---------------------------------------------------------------- the loops

  /** What the first pass over the environment finds out. */
  datatype Found = Found(ldPreload: Option<string>, ldLibraryPath: Option<string>, hasSigtrap: bool)

  function FoundIn(env: Env): Found {
    Found(LastValue(env, LdPreload), LastValue(env, LdLibraryPath), Getenv(env, Sigtrap).Some?)
  }

  lemma FoundSnoc(env: Env, v: Var)
    ensures
      var f := FoundIn(env);
      FoundIn(env + [v]) ==
      if v.name == LdPreload then f.(ldPreload := Some(v.value))
      else if v.name == LdLibraryPath then f.(ldLibraryPath := Some(v.value))
      else if v.name == Sigtrap then f.(hasSigtrap := true)
      else f
  {
    GetenvAppend(env, [v], Sigtrap);
    OneLookup(v, Sigtrap);
    var all := env + [v];
    assert all[..|all| - 1] == env && all[|all| - 1] == v;
  }

  method FirstPass(env: Env) returns (found: Found)
    ensures found == FoundIn(env)
  {
    hide FoundIn;
    found := Found(None, None, false);
    var k := 0;
    assert env[..0] == [];
    NothingFound();
    while k < |env|
      invariant k <= |env| && found == FoundIn(env[..k])
    {
      var v := env[k];
      FoundSnoc(env[..k], v);
      assert env[..k + 1] == env[..k] + [v];
      match v.name {
        case LdPreload => found := found.(ldPreload := Some(v.value));
        case LdLibraryPath => found := found.(ldLibraryPath := Some(v.value));
        case Sigtrap => found := found.(hasSigtrap := true);
        case _ =>
      }
      k := k + 1;
    }
    assert env[..k] == env;
  }

  lemma NothingFound()
    ensures FoundIn([]) == Found(None, None, false)
  {
  }

  /** Writes the variables of one part behind the first `n`, all of which must fit. */
  method AppendVars(out: array<Var>, n: nat, part: Env) returns (end: nat)
    requires n + |part| <= out.Length
    modifies out
    ensures end == n + |part| && out[..end] == old(out[..n]) + part
  {
    var i := 0;
    while i < |part|
      invariant i <= |part| && out[..n + i] == old(out[..n]) + part[..i]
    {
      out[n + i] := part[i];
      i := i + 1;
    }
    assert part[..i] == part;
    end := n + i;
  }

  /** The second pass: variables are relayed or dropped. */
  lemma NothingPassed(s: SessionInfo, env: Env)
    ensures !AcceptedAfter(s, env[..0]) && Relayed(s, env[..0]) == [] && LastValue(env[..0], VpermRequest) == None
  {
    assert env[..0] == [];
  }

  /** One more variable. */
  lemma PassSnoc(s: SessionInfo, env: Env, k: nat)
    requires k < |env|
    ensures
      var before, upTo, v := env[..k], env[..k + 1], env[k];
      && AcceptedAfter(s, upTo) == Accepts(s, v, AcceptedAfter(s, before))
      && Relayed(s, upTo) == Relayed(s, before) + (if Relays(s, v, AcceptedAfter(s, before)) then [v] else [])
      && LastValue(upTo, VpermRequest) == (if v.name.VpermRequest? then Some(v.value) else LastValue(before, VpermRequest))
  {
    hide Relays, Accepts;
    assert env[..k + 1][..k] == env[..k];
  }

  method SecondPass(s: SessionInfo, env: Env, out: array<Var>)
    returns (n: nat, accepted: bool, request: Option<string>)
    requires |env| <= out.Length
    modifies out
    ensures n <= |env| && out[..n] == Relayed(s, env)
    ensures accepted == AcceptedAfter(s, env) && request == LastValue(env, VpermRequest)
  {
    hide Relays, Accepts, Relayed, AcceptedAfter, LastValue;
    n, accepted, request := 0, false, None;
    var k := 0;
    NothingPassed(s, env);
    while k < |env|
      invariant k <= |env| && n <= k && out[..n] == Relayed(s, env[..k])
      invariant accepted == AcceptedAfter(s, env[..k]) && request == LastValue(env[..k], VpermRequest)
    {
      var v := env[k];
      PassSnoc(s, env, k);
      var relays := Relays(s, v, accepted);
      accepted := Accepts(s, v, accepted);
      if v.name.VpermRequest? {
        request := Some(v.value);
      }
      if relays {
        out[n] := v;
        n := n + 1;
      }
      k := k + 1;
    }
    assert env[..k] == env;
  }

  lemma {:induction false} FlatFits(parts: seq<Env>)
    requires forall j :: 0 <= j < |parts| ==> |parts[j]| <= 1
    ensures |Flat(parts)| <= |parts|
  {
    if parts != [] {
      FlatFits(parts[1..]);
    }
  }

  lemma AddedFits(s: SessionInfo, file: string, binary: string, env: Env)
    ensures |Added(s, file, binary, env)| <= 12
  {
    FlatFits(Parts(s, file, binary, env));
  }

  /** prepare_envp_for_do_exec: the 15 slots that are allocated beside those of the original
      environment hold everything that is added, and the terminator. */
  method PrepareEnvp(s: SessionInfo, file: string, binary: string, env: Env) returns (out: array<Var>, n: nat)
    ensures fresh(out) && out.Length == |env| + 15
    ensures n < out.Length && out[..n] == Prepared(s, file, binary, env)
  {
    hide Relayed, AcceptedAfter, LastValue, Getenv, Flat;
    var found := FirstPass(env);
    out := new Var[|env| + 15](_ => Var(Sigtrap, ""));
    var accepted, request;
    n, accepted, request := SecondPass(s, env, out);
    ghost var relayed := Relayed(s, env);
    var parts := [
      Single(SessionDir, Some(s.dir)),
      Single(MappingMethod, s.mappingMethod),
      Single(SessionMode, if accepted then None else s.mode),
      Single(VpermIds, Some(s.vpermIds(request))),
      Single(Sigtrap, if found.hasSigtrap then None else s.sigtrap),
      Single(Sb2("BINARYNAME"), Some(binary)),
      Single(Sb2("ORIG_BINARYNAME"), Some(file)),
      Single(Sb2("EXEC_BINARYNAME"), Some(file)),
      Single(Sb2("REAL_BINARYNAME"), Some("")),
      Single(Sb2LdPreload, found.ldPreload),
      Single(Sb2LdLibraryPath, found.ldLibraryPath),
      Single(Sb2("CHROOT_PATH"), s.chroot)];
    assert parts == Parts(s, file, binary, env);
    AddedFits(s, file, binary, env);
    n := AppendParts(out, n, parts);
  }

  method AppendParts(out: array<Var>, n: nat, parts: seq<Env>) returns (end: nat)
    requires n + |Flat(parts)| <= out.Length
    modifies out
    ensures end == n + |Flat(parts)| && out[..end] == old(out[..n]) + Flat(parts)
  {
    end := n;
    ghost var start := out[..n];
    var j := 0;
    assert parts[0..] == parts;
    ghost var done: Env := [];
    while j < |parts|
      invariant j <= |parts| && done + Flat(parts[j..]) == Flat(parts)
      invariant end == n + |done| && end <= out.Length && out[..end] == start + done
    {
      assert parts[j..][1..] == parts[j + 1..];
      end := AppendVars(out, end, parts[j]);
      assert start + done + parts[j] == start + (done + parts[j]);
      assert done + (parts[j] + Flat(parts[j + 1..])) == (done + parts[j]) + Flat(parts[j + 1..]);
      done := done + parts[j];
      j := j + 1;
    }
    assert done + [] == done;
  }
}
