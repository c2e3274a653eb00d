/** The argument and environment vectors that exec postprocessing builds in storage that it
    has measured beforehand (execs/exec_postprocess.c). */
module ExecVectors {
  import opened Options

  /** strv_s: a vector with room for a fixed number of strings and a terminator. */
  class StrVec {
    const slots: array<string>
    const maxSize: nat
    var firstFree: nat

    ghost predicate Valid()
      reads this
    {
      slots.Length == maxSize + 1 && firstFree <= maxSize
    }

    ghost function Contents(): seq<string>
      requires Valid()
      reads this, slots
    {
      slots[..firstFree]
    }

    /** init_strv */
    constructor (original: seq<string>, additional: nat)
      ensures Valid() && fresh(slots) && maxSize == |original| + additional && Contents() == []
    {
      maxSize := |original| + additional;
      slots := new string[|original| + additional + 1](_ => "");
      firstFree := 0;
    }

    /** add_string_to_strv; the original asserts what is required here. */
    method Add(text: string)
      requires Valid() && firstFree < maxSize
      modifies this`firstFree, slots
      ensures Valid() && firstFree == old(firstFree) + 1
      ensures Contents() == old(Contents()) + [text]
    {
      slots[firstFree] := text;
      firstFree := firstFree + 1;
    }

    method AddAll(texts: seq<string>)
      requires Valid() && firstFree + |texts| <= maxSize
      modifies this`firstFree, slots
      ensures Valid() && firstFree == old(firstFree) + |texts|
      ensures Contents() == old(Contents()) + texts
    {
      var i := 0;
      while i < |texts|
        invariant i <= |texts| && Valid() && firstFree == old(firstFree) + i
        invariant Contents() == old(Contents()) + texts[..i]
      {
        Add(texts[i]);
        i := i + 1;
      }
      assert texts[..i] == texts;
    }
  }

  // ---------------------------------------------------------------- native programs

  /** What decides how a native program is started: the dynamic linker of the policy and its
      abilities, or else, for programs with special rights, the interpreter they name. */
  datatype Native = Native(
    ldSo: Option<string>,
    rpathPrefix: Option<string>,
    supportsRpathPrefix: bool,
    supportsNoDefaultDirs: bool,
    supportsArgv0: bool,
    special: bool,
    interpreter: Option<string>)

  const NATIVE_EXTRA: nat := 6

  predicate Indirect(p: Native) {
    p.ldSo.Some? || (p.special && p.interpreter.Some?)
  }

  /** The arguments of the linker, in front of the program. */
  function LinkerArgs(p: Native, argv0: string): seq<string>
    requires p.ldSo.Some?
  {
    [p.ldSo.value]
    + (if p.rpathPrefix.Some? && p.supportsRpathPrefix then ["--rpath-prefix", p.rpathPrefix.value]
       else ["--inhibit-rpath", ""])
    + (if p.supportsNoDefaultDirs then ["--nodefaultdirs"] else [])
    + (if p.supportsArgv0 then ["--argv0", argv0] else [])
  }

  function NativeHead(p: Native, argv0: string): seq<string>
    requires Indirect(p)
  {
    if p.ldSo.Some? then LinkerArgs(p, argv0) else [p.interpreter.value]
  }

  /** A program that is started indirectly gets its own path as first argument, behind the
      arguments of the linker. */
  function NativeArgv(p: Native, mapped: string, argv: seq<string>): seq<string>
    requires argv != []
  {
    if Indirect(p) then NativeHead(p, argv[0]) + ([mapped] + argv[1..]) else argv
  }

  /** No policy makes the vector too small, and the program always gets its own arguments, in
      order, behind its path. */
  lemma NativeArgvFits(p: Native, mapped: string, argv: seq<string>)
    requires argv != []
    ensures
      var all := NativeArgv(p, mapped, argv);
      |all| >= |argv| && all[|all| - |argv|..] == if Indirect(p) then [mapped] + argv[1..] else argv
    ensures |NativeArgv(p, mapped, argv)| <= |argv| + NATIVE_EXTRA
    ensures |NativeArgv(p, mapped, argv)| == |argv| + NATIVE_EXTRA <==>
            p.ldSo.Some? && p.supportsNoDefaultDirs && p.supportsArgv0
  {
    var all := NativeArgv(p, mapped, argv);
    if Indirect(p) {
      var head, rest := NativeHead(p, argv[0]), [mapped] + argv[1..];
      assert all == head + rest && |rest| == |argv|;
    }
  }

  /** What is executed comes first; a linker that takes argv[0] gets the program's own one, right
      before the program. */
  lemma NativeArgvStarts(p: Native, mapped: string, argv: seq<string>)
    requires argv != []
    ensures
      var all := NativeArgv(p, mapped, argv);
      && all[0] == (if p.ldSo.Some? then p.ldSo.value else if Indirect(p) then p.interpreter.value else argv[0])
      && (p.ldSo.Some? ==>
            |all| >= |argv| + 3 && all[1..3] ==
            if p.rpathPrefix.Some? && p.supportsRpathPrefix then ["--rpath-prefix", p.rpathPrefix.value]
            else ["--inhibit-rpath", ""])
      && (p.ldSo.Some? && p.supportsNoDefaultDirs ==> |all| >= |argv| + 4 && all[3] == "--nodefaultdirs")
      && (p.ldSo.Some? && p.supportsArgv0 ==>
            |all| >= |argv| + 2 && all[|all| - |argv| - 2..|all| - |argv|] == ["--argv0", argv[0]])
  {
    if p.ldSo.Some? {
      LinkerArgsMean(p, argv[0]);
      hide LinkerArgs;
      var all, head, rest := NativeArgv(p, mapped, argv), LinkerArgs(p, argv[0]), [mapped] + argv[1..];
      assert all == head + rest && |rest| == |argv|;
      assert all[0] == head[0] && all[1..3] == head[1..3];
      if p.supportsNoDefaultDirs {
        assert all[3] == head[3];
      }
      if p.supportsArgv0 {
        assert all[|head| - 2..|head|] == head[|head| - 2..];
        assert |head| == |all| - |argv|;
      }
    }
  }

  lemma LinkerArgsMean(p: Native, argv0: string)
    requires p.ldSo.Some?
    ensures
      var args := LinkerArgs(p, argv0);
      && |args| >= 3 && args[0] == p.ldSo.value
      && args[1..3] ==
         (if p.rpathPrefix.Some? && p.supportsRpathPrefix then ["--rpath-prefix", p.rpathPrefix.value]
          else ["--inhibit-rpath", ""])
      && (p.supportsNoDefaultDirs ==> |args| >= 4 && args[3] == "--nodefaultdirs")
      && (p.supportsArgv0 ==> |args| >= 5 && args[|args| - 2..] == ["--argv0", argv0])
  {
    var rpath :=
      if p.rpathPrefix.Some? && p.supportsRpathPrefix then ["--rpath-prefix", p.rpathPrefix.value]
      else ["--inhibit-rpath", ""];
    var dirs, last := if p.supportsNoDefaultDirs then ["--nodefaultdirs"] else [],
                      if p.supportsArgv0 then ["--argv0", argv0] else [];
    assert LinkerArgs(p, argv0) == [p.ldSo.value] + rpath + dirs + last;
    hide LinkerArgs;
    FourParts([p.ldSo.value], rpath, dirs, last);
  }

  lemma FourParts(a: seq<string>, b: seq<string>, c: seq<string>, d: seq<string>)
    ensures
      var s := a + b + c + d;
      && s[..|a|] == a && s[|a|..|a| + |b|] == b && s[|a| + |b|..|s| - |d|] == c && s[|s| - |d|..] == d
  {
  }

  /** exec_postprocess_native_executable, the arguments. */
  method BuildNativeArgv(p: Native, mapped: string, argv: seq<string>) returns (v: StrVec)
    requires argv != []
    ensures fresh(v) && v.Valid() && v.Contents() == NativeArgv(p, mapped, argv)
  {
    hide LinkerArgs;
    v := new StrVec(argv, NATIVE_EXTRA);
    var firstToCopy := 0;
    if p.ldSo.None? {
      if p.special && p.interpreter.Some? {
        v.Add(p.interpreter.value);
        v.Add(mapped);
        firstToCopy := 1;
      }
    } else {
      AddLinkerArgs(v, p, argv[0]);
      v.Add(mapped);
      firstToCopy := 1;
    }
    assert Indirect(p) ==> v.Contents() == NativeHead(p, argv[0]) + [mapped];
    v.AddAll(argv[firstToCopy..]);
    assert Indirect(p) ==>
      NativeHead(p, argv[0]) + [mapped] + argv[1..] == NativeHead(p, argv[0]) + ([mapped] + argv[1..]);
  }

  method AddLinkerArgs(v: StrVec, p: Native, argv0: string)
    requires v.Valid() && v.firstFree == 0 && v.maxSize >= 6 && p.ldSo.Some?
    modifies v`firstFree, v.slots
    ensures v.Valid() && v.Contents() == LinkerArgs(p, argv0) && v.firstFree <= 6
  {
    v.Add(p.ldSo.value);
    if p.rpathPrefix.Some? && p.supportsRpathPrefix {
      v.AddAll(["--rpath-prefix", p.rpathPrefix.value]);
    } else {
      v.AddAll(["--inhibit-rpath", ""]);
    }
    ghost var three := v.Contents();
    if p.supportsNoDefaultDirs {
      v.Add("--nodefaultdirs");
    }
    assert v.Contents() == three + if p.supportsNoDefaultDirs then ["--nodefaultdirs"] else [];
    if p.supportsArgv0 {
      v.AddAll(["--argv0", argv0]);
    }
  }

  // ---------------------------------------------------------------- programs for another CPU

  /** Variables as far as the emulator treats them apart. */
  datatype Kind = LdTrace | Locale | UserPreload | Plain

  datatype EnvVar = EnvVar(kind: Kind, text: string)

  datatype Qemu = Qemu(
    argv: seq<string>,
    command: Option<string>,
    env: seq<string>,
    hasArgv0Flag: bool,
    hasLibattrHack: bool,
    hasEnvControl: bool,
    ldLibraryPath: string,
    ldPreload: string)

  function CountTraces(env: seq<EnvVar>): nat {
    if env == [] then 0 else (if env[0].kind.LdTrace? then 1 else 0) + CountTraces(env[1..])
  }

  /** An LD_TRACE_ variable moves to the command line of an emulator that can set it. */
  function TraceOf(q: Qemu, v: EnvVar): seq<string> {
    if q.hasEnvControl && v.kind.LdTrace? then ["-E", v.text] else []
  }

  function TraceArgs(q: Qemu, env: seq<EnvVar>): seq<string> {
    if env == [] then [] else TraceOf(q, env[0]) + TraceArgs(q, env[1..])
  }

  lemma {:induction false} TraceLength(q: Qemu, env: seq<EnvVar>)
    ensures |TraceArgs(q, env)| == if q.hasEnvControl then 2 * CountTraces(env) else 0
  {
    if env != [] {
      TraceLength(q, env[1..]);
    }
  }

  /** What is passed to the emulator in front of the program. */
  function QemuOptions(q: Qemu, argv0: string): (r: seq<string>)
    ensures |r| <= 5
  {
    ["-L", "/"]
    + (if q.hasArgv0Flag then ["-0", argv0] else [])
    + (if q.hasLibattrHack then ["-libattr-hack"] else [])
  }

  function QemuHead(q: Qemu): seq<string> {
    if q.argv != [] then q.argv else if q.command.Some? then [q.command.value] else []
  }

  function QemuArgv(q: Qemu, filename: string, argv: seq<string>, env: seq<EnvVar>): seq<string>
    requires argv != []
  {
    QemuHead(q) + QemuOptions(q, argv[0]) + TraceArgs(q, env) + ([filename] + argv[1..])
  }

  lemma OptionsMean(q: Qemu, argv0: string)
    ensures
      var options := QemuOptions(q, argv0);
      && |options| >= 2 && options[..2] == ["-L", "/"]
      && (q.hasArgv0Flag ==> |options| >= 4 && options[2..4] == ["-0", argv0])
      && (q.hasLibattrHack ==> options[|options| - 1] == "-libattr-hack")
  {
    var start, flag := ["-L", "/"], if q.hasArgv0Flag then ["-0", argv0] else [];
    var hack := if q.hasLibattrHack then ["-libattr-hack"] else [];
    assert QemuOptions(q, argv0) == start + flag + hack;
    hide QemuOptions;
    FourParts(start, flag, [], hack);
    assert start + flag + [] + hack == start + flag + hack;
  }

  /** The emulator comes first, from its own argument list or as a single command. The program
      comes last: its file, as what the emulator has to load, and its arguments from the second
      on, while the first is passed as an option where there is one for it. In between are the
      variables that the emulator sets itself. */
  lemma QemuArgvMeans(q: Qemu, filename: string, argv: seq<string>, env: seq<EnvVar>)
    requires argv != []
    ensures
      var all := QemuArgv(q, filename, argv, env);
      && QemuHead(q) <= all && |all| >= |argv|
      && all[|all| - |argv|..] == [filename] + argv[1..]
      && |all| >= |QemuHead(q)| + 2 && all[|QemuHead(q)|..|QemuHead(q)| + 2] == ["-L", "/"]
      && (q.hasLibattrHack ==> all[|QemuHead(q)| + |QemuOptions(q, argv[0])| - 1] == "-libattr-hack")
      && (q.hasArgv0Flag ==>
            |all| >= |QemuHead(q)| + 4 && all[|QemuHead(q)| + 2..|QemuHead(q)| + 4] == ["-0", argv[0]])
      && all[|QemuHead(q)| + |QemuOptions(q, argv[0])|..|all| - |argv|] == TraceArgs(q, env)
    ensures q.argv != [] ==> q.argv <= QemuArgv(q, filename, argv, env)
    ensures q.argv == [] && q.command.Some? ==> QemuArgv(q, filename, argv, env)[0] == q.command.value
  {
    OptionsMean(q, argv[0]);
    hide TraceArgs, QemuOptions;
    var all, head, options, traces, rest :=
      QemuArgv(q, filename, argv, env), QemuHead(q), QemuOptions(q, argv[0]), TraceArgs(q, env), [filename] + argv[1..];
    assert all == head + options + traces + rest && |rest| == |argv|;
    FourParts(head, options, traces, rest);
    assert all[|head|..|head| + 2] == options[..2];
    if q.hasArgv0Flag {
      assert all[|head| + 2..|head| + 4] == options[2..4];
    }
  }

  function QemuExtra(q: Qemu, env: seq<EnvVar>): nat {
    |q.argv| + 5 + 2 * CountTraces(env)
  }

  /** With a list of emulator arguments the vector is always large enough. With a single
      command instead, which the measure leaves out, it is exactly unless every optional
      argument is there. */
  lemma QemuArgvFitsIff(q: Qemu, filename: string, argv: seq<string>, env: seq<EnvVar>)
    requires argv != []
    ensures q.argv != [] ==> |QemuArgv(q, filename, argv, env)| <= |argv| + QemuExtra(q, env)
    ensures q.argv == [] && q.command.Some? ==>
      (|QemuArgv(q, filename, argv, env)| <= |argv| + QemuExtra(q, env) <==>
       !(q.hasArgv0Flag && q.hasLibattrHack && (q.hasEnvControl || CountTraces(env) == 0)))
  {
    TraceLength(q, env);
  }

  /** A single command and both optional flags: one argument more than there is room for. */
  lemma SingleCommandOverflows(q: Qemu, filename: string, argv: seq<string>)
    requires argv != [] && q.argv == [] && q.command.Some? && q.hasArgv0Flag && q.hasLibattrHack
    ensures |QemuArgv(q, filename, argv, [])| == |argv| + QemuExtra(q, []) + 1
  {
    TraceLength(q, []);
  }

  /** Other variables stay in the environment of the emulator, with some exceptions. */
  function KeptOf(q: Qemu, v: EnvVar): seq<string> {
    if v.kind.Locale? || (q.hasEnvControl && !v.kind.Plain?) then [] else [v.text]
  }

  function KeptTexts(q: Qemu, env: seq<EnvVar>): (r: seq<string>)
    ensures |r| <= |env|
  {
    if env == [] then [] else KeptOf(q, env[0]) + KeptTexts(q, env[1..])
  }

  function QemuEnv(q: Qemu, policyName: string, env: seq<EnvVar>): seq<string> {
    [policyName] + q.env + KeptTexts(q, env) + [q.ldLibraryPath, q.ldPreload]
  }

  lemma {:induction false} DistributedAppend(q: Qemu, a: seq<EnvVar>, b: seq<EnvVar>)
    ensures KeptTexts(q, a + b) == KeptTexts(q, a) + KeptTexts(q, b)
    ensures TraceArgs(q, a + b) == TraceArgs(q, a) + TraceArgs(q, b)
    decreases |a|
  {
    hide KeptOf, TraceOf;
    if a == [] {
      assert a + b == b;
    } else {
      assert (a + b)[0] == a[0] && (a + b)[1..] == a[1..] + b;
      DistributedAppend(q, a[1..], b);
    }
  }

  /** Where a variable of the environment goes: to the emulator's environment, or to its command
      line, or nowhere. */
  lemma DestinationOf(q: Qemu, v: EnvVar)
    ensures
      var kept, traced := KeptOf(q, v), TraceOf(q, v);
      && (v.kind.Plain? ==> kept == [v.text] && traced == [])
      && (v.kind.Locale? ==> kept == [] && traced == [])
      && (v.kind.LdTrace? ==>
            if q.hasEnvControl then kept == [] && traced == ["-E", v.text] else kept == [v.text] && traced == [])
      && (v.kind.UserPreload? ==> traced == [] && kept == if q.hasEnvControl then [] else [v.text])
  {
  }

  /** It goes there to its place among the others. */
  lemma {:induction false} QemuEnvMeans(q: Qemu, env: seq<EnvVar>, i: nat)
    requires i < |env|
    ensures
      var a, v, b := env[..i], env[i], env[i + 1..];
      && KeptTexts(q, env) == KeptTexts(q, a) + (KeptOf(q, v) + KeptTexts(q, b))
      && TraceArgs(q, env) == TraceArgs(q, a) + (TraceOf(q, v) + TraceArgs(q, b))
    ensures env[i].kind.Plain? ==> KeptOf(q, env[i]) == [env[i].text]
  {
    hide KeptOf, TraceOf;
    var a, v, b := env[..i], env[i], env[i + 1..];
    OneDistributed(q, v);
    DestinationOf(q, v);
    hide KeptTexts, TraceArgs;
    DistributedAppend(q, a, [v] + b);
    DistributedAppend(q, [v], b);
    assert a + ([v] + b) == env;
  }

  lemma OneDistributed(q: Qemu, v: EnvVar)
    ensures KeptTexts(q, [v]) == KeptOf(q, v) && TraceArgs(q, [v]) == TraceOf(q, v)
  {
    assert [v][1..] == [];
    assert KeptOf(q, v) + [] == KeptOf(q, v) && TraceOf(q, v) + [] == TraceOf(q, v);
  }

  /** An environment of ordinary variables comes through whole and in order, between what the
      configuration adds. */
  lemma {:induction false} PlainEnvIsKept(q: Qemu, policyName: string, env: seq<EnvVar>)
    requires forall v :: v in env ==> v.kind.Plain?
    ensures QemuEnv(q, policyName, env) == [policyName] + q.env + Texts(env) + [q.ldLibraryPath, q.ldPreload]
  {
    PlainTexts(q, env);
  }

  lemma {:induction false} PlainTexts(q: Qemu, env: seq<EnvVar>)
    requires forall v :: v in env ==> v.kind.Plain?
    ensures KeptTexts(q, env) == Texts(env)
  {
    if env != [] {
      PlainTexts(q, env[1..]);
    }
  }

  method CountTraceVars(env: seq<EnvVar>) returns (n: nat)
    ensures n == CountTraces(env)
  {
    n := 0;
    var i := 0;
    while i < |env|
      invariant i <= |env| && n + CountTraces(env[i..]) == CountTraces(env)
    {
      assert env[i..][1..] == env[i + 1..];
      if env[i].kind.LdTrace? {
        n := n + 1;
      }
      i := i + 1;
    }
  }

  method DistributeOne(q: Qemu, v: EnvVar, newArgv: StrVec, newEnvp: StrVec)
    requires newArgv.Valid() && newEnvp.Valid() && newArgv != newEnvp && newArgv.slots != newEnvp.slots
    requires newArgv.firstFree + |TraceOf(q, v)| <= newArgv.maxSize
    requires newEnvp.firstFree + |KeptOf(q, v)| <= newEnvp.maxSize
    modifies newArgv`firstFree, newArgv.slots, newEnvp`firstFree, newEnvp.slots
    ensures newArgv.Valid() && newEnvp.Valid()
    ensures newArgv.firstFree == old(newArgv.firstFree) + |TraceOf(q, v)|
    ensures newEnvp.firstFree == old(newEnvp.firstFree) + |KeptOf(q, v)|
    ensures newArgv.Contents() == old(newArgv.Contents()) + TraceOf(q, v)
    ensures newEnvp.Contents() == old(newEnvp.Contents()) + KeptOf(q, v)
  {
    if v.kind.Locale? {
    } else if q.hasEnvControl && v.kind.LdTrace? {
      newArgv.Add("-E");
      newArgv.Add(v.text);
    } else if q.hasEnvControl && v.kind.UserPreload? {
    } else {
      newEnvp.Add(v.text);
    }
  }

  /** The loop over the environment: variables go to the environment or, with their flag, to
      the arguments of the emulator, or are dropped. */
  method DistributeEnv(q: Qemu, env: seq<EnvVar>, newArgv: StrVec, newEnvp: StrVec)
    requires newArgv.Valid() && newEnvp.Valid() && newArgv != newEnvp && newArgv.slots != newEnvp.slots
    requires newArgv.firstFree + |TraceArgs(q, env)| <= newArgv.maxSize
    requires newEnvp.firstFree + |KeptTexts(q, env)| <= newEnvp.maxSize
    modifies newArgv`firstFree, newArgv.slots, newEnvp`firstFree, newEnvp.slots
    ensures newArgv.Valid() && newEnvp.Valid()
    ensures newArgv.Contents() == old(newArgv.Contents()) + TraceArgs(q, env)
    ensures newEnvp.Contents() == old(newEnvp.Contents()) + KeptTexts(q, env)
  {
    hide TraceOf, KeptOf;
    ghost var args, kept := newArgv.Contents(), newEnvp.Contents();
    var i := 0;
    assert env[0..] == env;
    while i < |env|
      invariant i <= |env| && newArgv.Valid() && newEnvp.Valid()
      invariant newArgv.Contents() + TraceArgs(q, env[i..]) == args + TraceArgs(q, env)
      invariant newEnvp.Contents() + KeptTexts(q, env[i..]) == kept + KeptTexts(q, env)
      invariant newArgv.firstFree + |TraceArgs(q, env[i..])| <= newArgv.maxSize
      invariant newEnvp.firstFree + |KeptTexts(q, env[i..])| <= newEnvp.maxSize
    {
      ghost var a, k := newArgv.Contents(), newEnvp.Contents();
      ghost var as', ks := TraceArgs(q, env[i + 1..]), KeptTexts(q, env[i + 1..]);
      assert env[i..][1..] == env[i + 1..];
      DistributeOne(q, env[i], newArgv, newEnvp);
      assert a + TraceOf(q, env[i]) + as' == a + (TraceOf(q, env[i]) + as');
      assert k + KeptOf(q, env[i]) + ks == k + (KeptOf(q, env[i]) + ks);
      i := i + 1;
    }
    assert newArgv.Contents() + [] == newArgv.Contents() && newEnvp.Contents() + [] == newEnvp.Contents();
  }

  method AddQemuFlags(v: StrVec, q: Qemu, argv0: string)
    requires v.Valid() && v.firstFree + |QemuOptions(q, argv0)| <= v.maxSize
    modifies v`firstFree, v.slots
    ensures v.Valid()
    ensures v.Contents() == old(v.Contents()) + QemuOptions(q, argv0)
  {
    ghost var start := v.Contents();
    v.AddAll(["-L", "/"]);
    if q.hasArgv0Flag {
      v.Add("-0");
      v.Add(argv0);
    }
    if q.hasLibattrHack {
      v.Add("-libattr-hack");
    }
  }

  /** The arguments in front of the variables. */
  method BeginArgv(q: Qemu, argv: seq<string>, env: seq<EnvVar>) returns (v: StrVec)
    requires argv != [] && |QemuHead(q)| + |QemuOptions(q, argv[0])| <= |argv| + QemuExtra(q, env)
    ensures fresh(v) && fresh(v.slots) && v.Valid() && v.maxSize == |argv| + QemuExtra(q, env)
    ensures v.Contents() == QemuHead(q) + QemuOptions(q, argv[0])
  {
    hide QemuOptions, CountTraces;
    var traces := CountTraceVars(env);
    v := new StrVec(argv, |q.argv| + 5 + 2 * traces);
    if q.argv != [] {
      v.AddAll(q.argv);
    } else if q.command.Some? {
      v.Add(q.command.value);
    }
    assert v.Contents() == QemuHead(q) && v.firstFree == |QemuHead(q)|;
    AddQemuFlags(v, q, argv[0]);
  }

  method BeginEnvp(q: Qemu, policyName: string, env: seq<EnvVar>) returns (v: StrVec)
    ensures fresh(v) && fresh(v.slots) && v.Valid() && v.maxSize == |env| + |q.env| + 3
    ensures v.Contents() == [policyName] + q.env
  {
    v := new StrVec(Texts(env), 1 + |q.env| + 2);
    v.Add(policyName);
    v.AddAll(q.env);
  }

  /** exec_postprocess_qemu. What is required is what the original asserts with every argument
      it adds: that there is room for it (`QemuArgvFitsIff`). Without an emulator it fails. */
  method BuildQemu(q: Qemu, policyName: string, filename: string, argv: seq<string>, env: seq<EnvVar>)
    returns (newArgv: StrVec?, newEnvp: StrVec?)
    requires argv != [] && |QemuArgv(q, filename, argv, env)| <= |argv| + QemuExtra(q, env)
    ensures newArgv == null <==> QemuHead(q) == []
    ensures newEnvp == null <==> QemuHead(q) == []
    ensures newArgv != null ==>
      fresh(newArgv) && newArgv.Valid() && newArgv.Contents() == QemuArgv(q, filename, argv, env)
    ensures newEnvp != null ==>
      fresh(newEnvp) && newEnvp.Valid() && newEnvp.Contents() == QemuEnv(q, policyName, env)
  {
    if q.argv == [] && q.command.None? {
      return null, null;
    }
    hide TraceArgs, KeptTexts, QemuOptions;
    TraceLength(q, env);
    newEnvp := BeginEnvp(q, policyName, env);
    newArgv := BeginArgv(q, argv, env);
    assert newArgv.firstFree == |newArgv.Contents()| && newEnvp.firstFree == |newEnvp.Contents()|;
    DistributeEnv(q, env, newArgv, newEnvp);
    assert newArgv.firstFree == |newArgv.Contents()| && newEnvp.firstFree == |newEnvp.Contents()|;
    newEnvp.AddAll([q.ldLibraryPath, q.ldPreload]);
    newArgv.AddAll([filename] + argv[1..]);
  }

  function Texts(env: seq<EnvVar>): (r: seq<string>)
    ensures |r| == |env|
  {
    if env == [] then [] else [env[0].text] + Texts(env[1..])
  }

  // ---------------------------------------------------------------- static host programs

  /** exec_postprocess_host_static_executable: the arguments stay as they are, and three
      variables are put in front of the environment. */
  method BuildHostStatic(policyName: string, hostLdLibraryPath: string, hostLdPreload: string,
                         argv: seq<string>, env: seq<string>) returns (newArgv: StrVec, newEnvp: StrVec)
    ensures fresh(newArgv) && newArgv.Valid() && newArgv.Contents() == argv
    ensures fresh(newEnvp) && newEnvp.Valid()
    ensures newEnvp.Contents() == [policyName, hostLdLibraryPath, hostLdPreload] + env
  {
    newEnvp := new StrVec(env, 1 + 2);
    newEnvp.AddAll([policyName, hostLdLibraryPath, hostLdPreload]);
    newEnvp.AddAll(env);
    newArgv := new StrVec(argv, 0);
    newArgv.AddAll(argv);
  }
}
