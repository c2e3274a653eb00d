/** The name space of a single dir="/" map_to rule, in which every virtual path is looked up
    below one host directory: there the engine is the reference walk. */
module RootNamespace {
  import opened Options
  import opened Paths
  import opened Rules
  import opened Resolution
  import opened Namespace
  import opened Shortcut
  import opened Translation
  import opened Reference
  import opened ResolutionTheorem
  import opened Soundness
  import opened NaturalWalk

  function RootRule(target: string): Rule {
    Rule(ByDir("/"), MapTo(target), false, {}, None, false)
  }

  function RootRules(target: string): seq<Item> {
    [Has(RootRule(target))]
  }

  predicate TargetOk(target: string) {
    (target == "" || target[0] == '/') && !HasDotdot(Components(target))
  }

  /** The host directory as a prefix: "/" adds nothing. */
  function Below(target: string): string {
    if target == "/" then "" else target
  }

  /** Where a virtual directory entry lives on the host. */
  function HostOf(target: string, names: seq<Comp>): string {
    CleanHost(Below(target) + VirtualPath(names, false))
  }

  /** The virtual file system that the host presents below `target`, and the engine's way
      through it. */
  function HostFs(w: World, target: string): Fs {
    Fs((names: seq<Comp>) => ProbeHost(w, Some(HostOf(target, names))),
       (names: seq<Comp>) => w.stat(HostOf(target, names)),
       false, false)
  }

  /** The walk that a path asks for. */
  function WalkOf(fs: Fs, ctx: Context, path: string, budget: nat): Walked {
    Walk(fs, ctx, [], Parse(path).comps, Parse(path).slash, budget)
  }

  // ---------------------------------------------------------------- the rule

  lemma RootRuleFor(target: string, ctx: Context, names: seq<Comp>, slash: bool)
    ensures RuleFor(RootRules(target), ctx, names, slash) == Some(Hit([0], RootRule(target), 1))
  {
    var path := VirtualPath(names, slash);
    assert path[0] == '/';
    assert path[..1] == "/";
    assert PathMatch(path, ByDir("/")) == 1;
    assert Accepts(RootRule(target), Query(path, ctx.classes, ctx.binaryName));
  }

  lemma RootStart(target: string, ctx: Context, names: seq<Comp>, slash: bool)
    ensures Start(RootRules(target), ctx, names, slash) == Some(Begin(0, false))
  {
    RootRuleFor(target, ctx, names, slash);
  }

  lemma RootAction(target: string, path: string)
    ensures StdAction(RootRule(target), path) == Host(Below(target) + path)
  {
    assert "" + path == path;
  }

  lemma BelowOk(target: string)
    requires TargetOk(target)
    ensures TargetOk(Below(target))
  {
    ComponentsOfNone();
  }

  lemma RootComponents(target: string, names: seq<Comp>, slash: bool)
    requires TargetOk(target)
    ensures Components(Below(target) + VirtualPath(names, slash)) == Components(Below(target)) + Texts(names)
  {
    var t, cs, path := Below(target), Texts(names), VirtualPath(names, slash);
    TextsAreNames(names);
    var body := if names == [] then "" else Join(cs) + (if slash then "/" else "");
    assert path == "/" + body;
    assert t + path == t + "/" + body;
    ComponentsConcat(t, body);
    if names == [] {
      ComponentsOfNone();
    } else {
      ComponentsOfJoin(cs, if slash then "/" else "");
    }
  }

  lemma RootRaw(target: string, names: seq<Comp>, slash: bool)
    requires TargetOk(target) && !HasUp(names)
    ensures
      var path := VirtualPath(names, slash);
      StdAction(RootRule(target), path) == Host(Below(target) + path) && GoodRaw(Host(Below(target) + path))
  {
    hide Components, StdAction, Texts;
    RootAction(target, VirtualPath(names, slash));
    RootComponents(target, names, slash);
    BelowOk(target);
    TextsAreNames(names);
    NoDotdotAppend(Components(Below(target)), Texts(names));
  }

  lemma TranslatedRoot(target: string, names: seq<Comp>, slash: bool, other: string -> Option<string>)
    requires TargetOk(target) && !HasUp(names)
    ensures Translate(RootRule(target), VirtualPath(names, slash), other) ==
            Some(CleanHost(Below(target) + VirtualPath(names, slash)))
  {
    RootRaw(target, names, slash);
  }

  lemma HostAtIsHostOf(w: World, target: string, ctx: Context, names: seq<Comp>, slash: bool, i: nat)
    requires TargetOk(target) && !HasUp(names) && i < |names|
    ensures HostAt(w, RootRules(target), ctx, names, slash, i) == Some(HostOf(target, names[..i + 1]))
  {
    hide HostAt, RuleFor, StdAction, GoodRaw, Translate, VirtualPath, Prefix, Texts, Lengths, CleanHost;
    RootRuleFor(target, ctx, names, slash);
    PrefixIsVirtual(names, 0);
    RootRaw(target, names[..1], false);
    ProbedIsTranslated(w, RootRules(target), ctx, names, slash, i, Hit([0], RootRule(target), 1));
    PrefixIsVirtual(names, i);
    TranslatedRoot(target, names[..i + 1], false, w.other);
  }

  lemma RootIsUniform(w: World, target: string)
    requires TargetOk(target)
    ensures Uniform(SystemOf(w, RootRules(target)), HostFs(w, target))
  {
    hide Start, HostAt, HostOf, ProbeHost;
    var rules := RootRules(target);
    forall ctx: Context, names: seq<Comp>, slash: bool
      ensures Start(rules, ctx, names, slash) == Some(Begin(0, false))
    {
      RootStart(target, ctx, names, slash);
    }
    forall ctx: Context, names: seq<Comp>, slash: bool, i: nat | i < |names| && !HasUp(names)
      ensures HostAt(w, rules, ctx, names, slash, i) == Some(HostOf(target, names[..i + 1]))
    {
      HostAtIsHostOf(w, target, ctx, names, slash, i);
    }
  }

  // ---------------------------------------------------------------- main theorems

  /** In the name space of one root rule, path resolution gives the answer of a single
      left-to-right walk: the same real path, slash included, or the same error. Links may be
      absolute or relative and contain "." and "..", and calls may follow a final link or leave
      it alone. With up to 16 expansions the two are equal; a walk that needs more of them is
      answered alike or with too many links, and no stack with room for it is exhausted. Only
      a walk that never ends is left out when ".." is involved (`SelfParentLinkDiverges`). */
  lemma ResolutionIsReferenceWalk(w: World, target: string, ctx: Context, path: string, depth: nat, budget: nat)
    requires TargetOk(target) && Consistent(HostFs(w, target)) && depth >= budget + 2
    requires WalkOf(HostFs(w, target), ctx, path, budget) == Loops ==>
             budget == MAX_NEST && NoUpLinks(HostFs(w, target)) && !HasUp(Parse(path).comps)
    ensures
      var o, r := ResolvePath(w, RootRules(target), ctx, path, depth), WalkOf(HostFs(w, target), ctx, path, budget);
      && (Seen(o) == Said(r) || (o == TooManyLinks && budget > MAX_NEST))
      && o != OutOfStack
  {
    hide Walk, Parse, SystemOf, ResolveDirty, Uniform, Consistent, NoUpLinks;
    RootIsUniform(w, target);
    var p := Parse(path);
    EngineIsWalk(SystemOf(w, RootRules(target)), HostFs(w, target), ctx, p.comps, p.slash, depth, budget);
  }

  /** The engine ends where a natural walk ends. When an absolute link of slashes only is met in
      front of a name it ends in the root directory, so a natural walk of the names behind the
      link must end there as well; when none is met, it must not stop short of a final name
      because an absolute link has dropped the slash behind it. */
  predicate EndsNaturally(fs: Fs, ctx: Context, names: seq<Comp>, slash: bool) {
    match LossOf(fs, ctx, [], names, slash, slash, MAX_NEST)
    case NoLoss => !StopsShort(fs.(keepsRest := true), ctx, [], names, slash, slash, MAX_NEST)
    case Loss(rest, kept, left) => Place(Walk(Natural(fs), ctx, [], rest, kept, left)) == At([], false)
  }

  lemma LinksAreParsed(w: World, target: string)
    ensures BareIsEmpty(HostFs(w, target))
  {
    hide HostOf;
    var fs := HostFs(w, target);
    forall p: seq<Comp> | fs.entry(p).Link? && fs.entry(p).dest.bare ensures fs.entry(p).dest.comps == [] {
      var text := w.readlink(HostOf(target, p)).text;
      assert fs.entry(p).dest == Parse(text) && Components(text) == [];
    }
  }

  /** Against the natural walk: resolution ends at the same place if and only if it ends
      naturally. */
  lemma ResolutionIsNaturalIff(w: World, target: string, ctx: Context, path: string, depth: nat)
    requires TargetOk(target) && Consistent(HostFs(w, target)) && depth >= 18
    requires
      var fs, p := HostFs(w, target), Parse(path);
      WalkOf(fs, ctx, path, MAX_NEST) == Loops || LossOf(fs, ctx, [], p.comps, p.slash, p.slash, MAX_NEST).Loss? ==>
        NoUpLinks(fs) && !HasUp(p.comps)
    ensures
      var fs, p, o := HostFs(w, target), Parse(path), ResolvePath(w, RootRules(target), ctx, path, depth);
      && (WithoutSlash(Seen(o)) == Place(WalkOf(Natural(fs), ctx, path, MAX_NEST)) <==>
          EndsNaturally(fs, ctx, p.comps, p.slash))
      && (LossOf(fs, ctx, [], p.comps, p.slash, p.slash, MAX_NEST).Loss? ==> WithoutSlash(Seen(o)) == At([], false))
  {
    hide Walk, Parse, ResolvePath, StopsShort, LossOf, Consistent, NoUpLinks, HasUp;
    var fs, p := HostFs(w, target), Parse(path);
    ResolutionIsReferenceWalk(w, target, ctx, path, depth, MAX_NEST);
    if LossOf(fs, ctx, [], p.comps, p.slash, p.slash, MAX_NEST).Loss? {
      LinksAreParsed(w, target);
      LossIsRest(fs, ctx, [], p.comps, p.slash, p.slash, MAX_NEST);
    } else {
      var kept := fs.(keepsRest := true);
      RestIsKept(fs, ctx, [], p.comps, p.slash, p.slash, MAX_NEST);
      SlashMattersIff(kept, ctx, [], p.comps, p.slash, p.slash, MAX_NEST);
      assert kept.(keepsSlash := false) == kept && kept.(keepsSlash := true) == Natural(fs);
    }
  }

  /** In particular it does when nothing is lost and the call follows final links, or no slash
      is at the end. */
  lemma ResolutionIsNatural(w: World, target: string, ctx: Context, path: string, depth: nat)
    requires TargetOk(target) && Consistent(HostFs(w, target)) && depth >= 18
    requires WalkOf(HostFs(w, target), ctx, path, MAX_NEST) == Loops ==>
             NoUpLinks(HostFs(w, target)) && !HasUp(Parse(path).comps)
    requires LossOf(HostFs(w, target), ctx, [], Parse(path).comps, Parse(path).slash, Parse(path).slash, MAX_NEST).NoLoss?
    requires !ctx.dontResolveFinal || !Parse(path).slash
    ensures WithoutSlash(Seen(ResolvePath(w, RootRules(target), ctx, path, depth))) ==
            Place(WalkOf(Natural(HostFs(w, target)), ctx, path, MAX_NEST))
  {
    hide Walk, Parse, ResolvePath, StopsShort, LossOf, Consistent, NoUpLinks;
    var p := Parse(path);
    ResolutionIsNaturalIff(w, target, ctx, path, depth);
    NeverShort(HostFs(w, target).(keepsRest := true), ctx, [], p.comps, p.slash, p.slash, MAX_NEST);
  }

  /** Whatever the links contain and whatever the stack allows: a path or an error that
      resolution returns is the answer of the walk, for every budget that is large enough. */
  lemma AnswersAreRight(w: World, target: string, ctx: Context, path: string, depth: nat)
    returns (enough: nat)
    requires TargetOk(target) && Consistent(HostFs(w, target)) && 0 < depth
    requires Answers(ResolvePath(w, RootRules(target), ctx, path, depth))
    ensures
      forall budget: nat {:trigger WalkOf(HostFs(w, target), ctx, path, budget)} :: budget >= enough ==>
        Said(WalkOf(HostFs(w, target), ctx, path, budget)) ==
        Seen(ResolvePath(w, RootRules(target), ctx, path, depth))
  {
    hide Walk, Parse, SystemOf, ResolveDirty, Uniform, Consistent;
    RootIsUniform(w, target);
    var p := Parse(path);
    var l := PathList(p.comps, 0, p.slash);
    assert l.names[..0] == [];
    enough := AnswerIsRight(SystemOf(w, RootRules(target)), HostFs(w, target), ctx, l, 0, depth);
  }

  // ---------------------------------------------------------------- the mapped path

  /** What a virtual path is on the host: the components of the rule's host directory, and
      then its own. */
  function HostComponents(target: string, names: seq<Comp>): seq<string> {
    WithoutDots(Components(Below(target))) + Texts(names)
  }

  lemma CleanRootComponents(target: string, names: seq<Comp>, slash: bool)
    requires TargetOk(target)
    ensures Components(CleanHost(Below(target) + VirtualPath(names, slash))) == HostComponents(target, names)
  {
    var raw := Below(target) + VirtualPath(names, slash);
    assert raw[0] == '/' by {
      BelowOk(target);
    }
    RootComponents(target, names, slash);
    CleanHostComponents(raw);
    TextsAreNames(names);
    WithoutDotsAppend(Components(Below(target)), Texts(names));
    WithoutDotsClean(Texts(names));
  }

  /** A resolved path is mapped to its own place below the rule's host directory. */
  lemma MappedOutcome(w: World, target: string, ctx: Context, o: Outcome)
    requires TargetOk(target) && o.Resolved? && !HasUp(o.names)
    ensures
      var host := MapOutcome(w, RootRules(target), ctx, o);
      && host == Some(CleanHost(Below(target) + VirtualPath(o.names, o.slash)))
      && Components(host.value) == HostComponents(target, o.names)
  {
    RootRuleFor(target, ctx, o.names, o.slash);
    TranslatedRoot(target, o.names, o.slash, w.other);
    CleanRootComponents(target, o.names, o.slash);
  }

  /** The mapped path is the host path of what the walk arrives at, slash included, and its
      components are those of the rule's host directory followed by the walk's; when the walk
      fails nothing is mapped. */
  lemma MappingIsReferenceWalk(w: World, target: string, ctx: Context, path: string, depth: nat)
    requires TargetOk(target) && Consistent(HostFs(w, target)) && depth >= 18
    requires WalkOf(HostFs(w, target), ctx, path, MAX_NEST) == Loops ==>
             NoUpLinks(HostFs(w, target)) && !HasUp(Parse(path).comps)
    ensures
      var host := MapPath(w, RootRules(target), ctx, path, depth);
      match WalkOf(HostFs(w, target), ctx, path, MAX_NEST)
      case Arrived(names, slash, _) =>
        && host == Some(CleanHost(Below(target) + VirtualPath(names, slash)))
        && Components(host.value) == HostComponents(target, names)
      case _ => host.None?
  {
    hide ResolvePath, WalkOf, HostFs, HostComponents, RuleFor, Translate, VirtualPath, CleanHost;
    ResolutionIsReferenceWalk(w, target, ctx, path, depth, MAX_NEST);
    ResolvedPathIsClean(w, RootRules(target), ctx, path, depth);
    var o := ResolvePath(w, RootRules(target), ctx, path, depth);
    if o.Resolved? {
      MappedOutcome(w, target, ctx, o);
    }
  }

  lemma ResolvedPathIsClean(w: World, rules: seq<Item>, ctx: Context, path: string, depth: nat)
    requires 0 < depth
    ensures
      var o := ResolvePath(w, rules, ctx, path, depth);
      o.Resolved? ==> !HasUp(o.names)
  {
  }

  // ---------------------------------------------------------------- plain files

  /** What the engine finds on the host at component `i`. */
  lemma ProbedBelow(w: World, target: string, ctx: Context, names: seq<Comp>, slash: bool, i: nat)
    requires TargetOk(target) && !HasUp(names) && i < |names|
    ensures
      var sys, host := SystemOf(w, RootRules(target)), HostOf(target, names[..i + 1]);
      && sys.start(ctx, names, slash) == Some(Begin(0, false))
      && sys.kind(ctx, names, slash, i) == w.stat(host)
      && match w.readlink(host)
         case NoLink => sys.probe(ctx, names, slash, i) == NotLink
         case Unreadable(e) => sys.probe(ctx, names, slash, i) == Fails(e)
         case LinkTo(text) => sys.probe(ctx, names, slash, i) == Link(Parse(text))
  {
    hide HostAt, HostOf, Start, Parse;
    HostAtIsHostOf(w, target, ctx, names, slash, i);
    RootStart(target, ctx, names, slash);
  }

  /** The first `n` names are there and no links. */
  ghost predicate NoLinksBefore(w: World, target: string, names: seq<Comp>, n: nat) {
    forall j {:trigger names[..j]} :: 0 < j <= n && j <= |names| ==> w.readlink(HostOf(target, names[..j])) == NoLink
  }

  lemma NoLinkAt(w: World, target: string, names: seq<Comp>, n: nat, i: nat)
    requires NoLinksBefore(w, target, names, n) && i < n && i < |names|
    ensures w.readlink(HostOf(target, names[..i + 1])) == NoLink
  {
  }

  lemma LoopPasses(sys: System, ctx: Context, names: seq<Comp>, slash: bool, nest: nat, depth: nat, i: nat)
    requires i + 1 < |names| && sys.probe(ctx, names, slash, i) == NotLink
    ensures
      var l := PathList(names, 0, slash);
      Loop(sys, ctx, l, nest, depth, i) == Loop(sys, ctx, l, nest, depth, i + 1)
  {
    hide FollowLink;
  }

  lemma {:induction false} PlainLoop(w: World, target: string, ctx: Context, names: seq<Comp>, slash: bool,
                                     nest: nat, depth: nat, i: nat, n: nat)
    requires TargetOk(target) && !HasUp(names) && i <= n < |names| && NoLinksBefore(w, target, names, n)
    ensures
      var sys, l := SystemOf(w, RootRules(target)), PathList(names, 0, slash);
      Loop(sys, ctx, l, nest, depth, i) == Loop(sys, ctx, l, nest, depth, n)
    decreases n - i
  {
    hide SystemOf, HostOf, HasUp, Loop, TargetOk, NoLinksBefore;
    if i < n {
      NoLinkAt(w, target, names, n, i);
      ProbedBelow(w, target, ctx, names, slash, i);
      LoopPasses(SystemOf(w, RootRules(target)), ctx, names, slash, nest, depth, i);
      PlainLoop(w, target, ctx, names, slash, nest, depth, i + 1, n);
    }
  }

  lemma ResolvedByLoop(w: World, target: string, ctx: Context, names: seq<Comp>, slash: bool, depth: nat)
    requires TargetOk(target) && !HasUp(names) && names != [] && 1 < depth
    ensures ResolvePath(w, RootRules(target), ctx, VirtualPath(names, slash), depth) ==
            Loop(SystemOf(w, RootRules(target)), ctx, PathList(names, 0, slash), 0, depth - 1, 0)
  {
    hide SystemOf, Loop, HasUp, Parse, VirtualPath, HostOf;
    ParseOfPrint(names, slash);
    ProbedBelow(w, target, ctx, names, slash, 0);
    var sys, l := SystemOf(w, RootRules(target)), PathList(names, 0, slash);
    assert ResolvePath(w, RootRules(target), ctx, VirtualPath(names, slash), depth) == ResolveDirty(sys, ctx, l, 0, depth);
    assert ResolveDirty(sys, ctx, l, 0, depth) == Resolve(sys, ctx, l, 0, depth - 1);
  }

  /** A file whose path has no links, and that is a directory where it has to be one, is resolved
      to its own path and mapped below the rule's host directory. */
  lemma PlainFileIsMapped(w: World, target: string, ctx: Context, names: seq<Comp>, slash: bool, depth: nat)
    requires TargetOk(target) && !HasUp(names) && names != [] && 1 < depth && NoLinksBefore(w, target, names, |names|)
    requires ctx.mustBeDirectory ==> w.stat(HostOf(target, names)).Directory?
    ensures ResolvePath(w, RootRules(target), ctx, VirtualPath(names, slash), depth) == Resolved(names, slash)
    ensures MapPath(w, RootRules(target), ctx, VirtualPath(names, slash), depth) ==
            Some(CleanHost(Below(target) + VirtualPath(names, slash)))
  {
    hide SystemOf, HostOf, HasUp, VirtualPath, ResolvePath, RuleFor, Translate;
    var n := |names| - 1;
    ResolvedByLoop(w, target, ctx, names, slash, depth);
    PlainLoop(w, target, ctx, names, slash, 0, depth - 1, 0, n);
    assert names[..n + 1] == names;
    NoLinkAt(w, target, names, |names|, n);
    ProbedBelow(w, target, ctx, names, slash, n);
    MappedOutcome(w, target, ctx, Resolved(names, slash));
  }

  /** Something that has to be a directory and is none is an error. */
  lemma NotADirectory(w: World, target: string, ctx: Context, names: seq<Comp>, slash: bool, depth: nat)
    requires TargetOk(target) && !HasUp(names) && names != [] && 1 < depth && NoLinksBefore(w, target, names, |names|)
    requires ctx.mustBeDirectory && (slash || !ctx.dontResolveFinal)
    ensures
      match w.stat(HostOf(target, names))
      case Directory => true
      case NotDirectory => ResolvePath(w, RootRules(target), ctx, VirtualPath(names, slash), depth) == Failed(ENOTDIR)
      case StatFails(e) => ResolvePath(w, RootRules(target), ctx, VirtualPath(names, slash), depth) == Failed(e)
  {
    hide SystemOf, HostOf, HasUp, VirtualPath, ResolvePath;
    var n := |names| - 1;
    ResolvedByLoop(w, target, ctx, names, slash, depth);
    PlainLoop(w, target, ctx, names, slash, 0, depth - 1, 0, n);
    assert names[..n + 1] == names;
    NoLinkAt(w, target, names, |names|, n);
    ProbedBelow(w, target, ctx, names, slash, n);
  }

  /** The first name that cannot be read is an error, unless it is missing and may be. */
  lemma ErrorIsReported(w: World, target: string, ctx: Context, names: seq<Comp>, slash: bool, depth: nat, n: nat, e: int)
    requires TargetOk(target) && !HasUp(names) && n < |names| && 1 < depth && NoLinksBefore(w, target, names, n)
    requires w.readlink(HostOf(target, names[..n + 1])) == Unreadable(e)
    requires n + 1 < |names| || slash || !ctx.dontResolveFinal
    requires !(e == ENOENT && ((!ctx.mustExist && n + 1 == |names|) || ctx.allowMissing))
    ensures ResolvePath(w, RootRules(target), ctx, VirtualPath(names, slash), depth) == Failed(e)
    ensures MapPath(w, RootRules(target), ctx, VirtualPath(names, slash), depth) == None
  {
    hide SystemOf, HostOf, HasUp, VirtualPath, ResolvePath;
    ResolvedByLoop(w, target, ctx, names, slash, depth);
    PlainLoop(w, target, ctx, names, slash, 0, depth - 1, 0, n);
    ProbedBelow(w, target, ctx, names, slash, n);
  }

  /** The first link on the way is replaced by its text: behind the directory that it is in, or, if
      it is absolute, from the root; and the rest of the path follows. */
  lemma FirstLinkIsExpanded(w: World, target: string, ctx: Context, names: seq<Comp>, slash: bool, depth: nat, n: nat,
                            to: seq<Comp>, abs: bool)
    requires TargetOk(target) && !HasUp(names) && n < |names| && 1 < depth && NoLinksBefore(w, target, names, n)
    requires to != [] && w.readlink(HostOf(target, names[..n + 1])) == LinkTo(Print(Path(Texts(to), abs, false)))
    requires n + 1 < |names| || slash || !ctx.dontResolveFinal
    ensures
      var expanded := (if abs then [] else names[..n]) + (to + names[n + 1..]);
      ResolvePath(w, RootRules(target), ctx, VirtualPath(names, slash), depth) ==
      ResolveDirty(SystemOf(w, RootRules(target)), ctx, PathList(expanded, 0, slash && !abs), 1, depth - 1)
  {
    hide SystemOf, HostOf, HasUp, VirtualPath, ResolvePath, Parse, Texts, ResolveDirty, Print;
    ResolvedByLoop(w, target, ctx, names, slash, depth);
    PlainLoop(w, target, ctx, names, slash, 0, depth - 1, 0, n);
    ProbedBelow(w, target, ctx, names, slash, n);
    LinkText(to, abs);
    assert [] + (to + names[n + 1..]) == to + names[n + 1..];
  }

  lemma LinkText(to: seq<Comp>, abs: bool)
    requires to != []
    ensures Parse(Print(Path(Texts(to), abs, false))) == Target(abs, to, false, false)
  {
    hide Parse, Print, Texts;
    if abs {
      ParseOfPrint(to, false);
    } else {
      ParseOfRelative(to, false);
    }
  }
}
