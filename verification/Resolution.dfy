/** Path resolution in the virtual namespace (pathmapping/pathresolution.c): every symbolic
    link on the way is read on the host, but followed virtually, by restarting the whole
    resolution with the link's target in its place. */
module Resolution {
  import opened Options
  import opened Paths

  const ENOENT: int := 2
  const EFAULT: int := 14
  const ENOTDIR: int := 20
  const MAX_NEST: nat := 16

  type NameText = s: string | IsName(s) && s != "." && s != ".." witness "a"

  /** A component of a path list from which "." has been removed. */
  datatype Comp = Up | Name(text: NameText)

  predicate HasUp(cs: seq<Comp>) {
    exists i :: 0 <= i < |cs| && cs[i].Up?
  }

  /** The text of a link: its components without ".", whether it is absolute, whether it ends
      in a slash or in ".", and whether it has no component at all. */
  datatype Target = Target(abs: bool, comps: seq<Comp>, slash: bool, bare: bool)

  /** What readlink says about the host path of a component. */
  datatype Probe = Link(dest: Target) | NotLink | Fails(errno: int)

  /** What stat says about it. */
  datatype FileKind = Directory | NotDirectory | StatFails(errno: int)

  /** path_mapping_context_t */
  datatype Context = Context(
    binaryName: string,
    classes: set<nat>,
    dontResolveFinal: bool,
    mustExist: bool,
    mustBeDirectory: bool,
    allowMissing: bool)

  /** How the rule that was chosen for a path list treats it: the first component to examine,
      and whether links must not be followed at all (force_orig_path). */
  datatype Begin = Begin(first: nat, stops: bool)

  /** What resolution asks of its surroundings: which rule applies to a path list, and what
      the host says about the mapped path of one of its components. */
  datatype System = System(
    start: (Context, seq<Comp>, bool) -> Option<Begin>,
    probe: (Context, seq<Comp>, bool, nat) -> Probe,
    kind: (Context, seq<Comp>, bool, nat) -> FileKind)

  /** An absolute virtual path list. The first `known` components carry
      PATH_FLAGS_NOT_SYMLINK. */
  datatype PathList = PathList(names: seq<Comp>, known: nat, slash: bool)

  /** The outcome of a resolution. `OutOfStack` is recursion deeper than the stack allows. */
  datatype Outcome =
    | Resolved(names: seq<Comp>, slash: bool)
    | Failed(errno: int)
    | TooManyLinks
    | NoRule
    | OutOfStack

  datatype CleanResult = Clean(list: PathList) | Dirty(why: Outcome)

  function Min(a: nat, b: nat): nat {
    if a <= b then a else b
  }

  function Init<T>(s: seq<T>): seq<T> {
    if s == [] then [] else s[..|s| - 1]
  }

  // ---------------------------------------------------------------- cleaning

  function DropLeading(names: seq<Comp>): seq<Comp> {
    if names != [] && names[0].Up? then DropLeading(names[1..]) else names
  }

  /** Step 1: ".." in the root directory is the root directory. */
  function Step1(l: PathList): PathList {
    var names := DropLeading(l.names);
    PathList(names, l.known, l.slash || (l.names != [] && names == []))
  }

  /** Step 2: ".." cancels the component before it when that is known not to be a link. */
  function Step2(done: seq<Comp>, known: nat, todo: seq<Comp>, slash: bool): PathList
    decreases |todo|
  {
    if todo == [] then PathList(done, known, slash)
    else if todo[0].Up? && known >= |done| then
      Step2(Init(done), |Init(done)|, todo[1..], slash || |todo| == 1)
    else Step2(done + [todo[0]], known, todo[1..], slash)
  }

  /** The context in which the part before a ".." is resolved. */
  function ParentContext(ctx: Context): Context {
    ctx.(dontResolveFinal := false, mustExist := true, mustBeDirectory := true)
  }

  /** The same call, but following a final link. */
  function Following(ctx: Context): Context {
    ctx.(dontResolveFinal := false)
  }

  function CountUps(names: seq<Comp>): nat {
    if names == [] then 0 else (if names[0].Up? then 1 else 0) + CountUps(names[1..])
  }

  /** Whether two lists print as the same string: the empty list prints as "/" either way. */
  predicate PrintsSame(a: seq<Comp>, slashA: bool, b: seq<Comp>, slashB: bool) {
    a == b && (slashA == slashB || a == [])
  }

  /** Steps 1 and 2 together: what can be removed without looking at the file system. */
  function TrivialUps(l: PathList): PathList {
    var l1 := Step1(l);
    var known := Min(l1.known, |l1.names|);
    if !HasUp(l1.names) then l1 else Step2(l1.names[..known], known, l1.names[known..], l1.slash)
  }

  /** clean_dotdots_from_path. `restarts` bounds how often it can start over: each time at
      least one ".." is gone. */
  function CleanDotdots(sys: System, ctx: Context, l: PathList, depth: nat, restarts: nat): (c: CleanResult)
    ensures match c case Clean(l') => !HasUp(l'.names) case Dirty(why) => !why.Resolved?
    decreases depth, 3, restarts, 1, 0
  {
    var l2 := TrivialUps(l);
    if !HasUp(l2.names) then Clean(l2)
    else Step3(sys, ctx, [], l2.known, l2.names, l2.slash, depth, restarts)
  }

  /** Step 3: resolve what stands before each remaining ".."; if that is not its own real
      path, put the real path there and start over, else let ".." cancel the component. */
  function Step3(sys: System, ctx: Context, done: seq<Comp>, known: nat, todo: seq<Comp>, slash: bool,
                 depth: nat, restarts: nat): (c: CleanResult)
    requires !HasUp(done)
    ensures match c case Clean(l') => !HasUp(l'.names) case Dirty(why) => !why.Resolved?
    decreases depth, 3, restarts, 0, |todo|
  {
    if todo == [] then Clean(PathList(done, known, slash))
    else if !todo[0].Up? then
      Step3(sys, ctx, done + [todo[0]], known, todo[1..], slash, depth, restarts)
    else if depth == 0 then Dirty(OutOfStack)
    else
      var parent := Resolve(sys, ParentContext(ctx), PathList(done, 0, slash), 0, depth - 1);
      if !parent.Resolved? then Dirty(parent)
      else if PrintsSame(parent.names, parent.slash, done, slash) then
        Step3(sys, ctx, Init(done), Min(known, |Init(done)|), todo[1..], slash || |todo| == 1, depth, restarts)
      else if restarts == 0 then Dirty(OutOfStack)
      else
        CleanDotdots(sys, ctx, PathList(parent.names + todo, |parent.names|, slash), depth, restarts - 1)
  }

  // ---------------------------------------------------------------- resolution

  /** sb_path_resolution */
  function Resolve(sys: System, ctx: Context, l: PathList, nest: nat, depth: nat): (o: Outcome)
    ensures !HasUp(l.names) && o.Resolved? ==> !HasUp(o.names)
    decreases depth, 6
  {
    if nest > MAX_NEST then TooManyLinks
    else match sys.start(ctx, l.names, l.slash)
      case None => NoRule
      case Some(b) =>
        if b.stops || b.first >= |l.names| then Resolved(l.names, l.slash)
        else Loop(sys, ctx, l, nest, depth, b.first)
  }

  function KindError(k: FileKind): int {
    if k.StatFails? then k.errno else ENOTDIR
  }

  /** What becomes of a component, from what the host says about it. */
  datatype Look = GoOn | Follow(dest: Target) | Stop(errno: int)

  function LookAt(ctx: Context, probe: Probe, kind: FileKind, last: bool): Look {
    match probe
    case Link(dest) => Follow(dest)
    case NotLink => if ctx.mustBeDirectory && last && !kind.Directory? then Stop(KindError(kind)) else GoOn
    case Fails(e) => if e == ENOENT && ((!ctx.mustExist && last) || ctx.allowMissing) then GoOn else Stop(e)
  }

  /** Component `i` of a list, looked at through the system. */
  function LookIn(sys: System, ctx: Context, names: seq<Comp>, slash: bool, i: nat): Look {
    LookAt(ctx, sys.probe(ctx, names, slash, i), sys.kind(ctx, names, slash, i), i + 1 == |names|)
  }

  /** The loop over the components, from component `i` on. */
  function Loop(sys: System, ctx: Context, l: PathList, nest: nat, depth: nat, i: nat): (o: Outcome)
    requires i <= |l.names|
    ensures !HasUp(l.names) && o.Resolved? ==> !HasUp(o.names)
    decreases depth, 5, |l.names| - i
  {
    if i == |l.names| || (i + 1 == |l.names| && !l.slash && ctx.dontResolveFinal) then Resolved(l.names, l.slash)
    else if i < l.known then Loop(sys, ctx, l, nest, depth, i + 1)
    else match LookIn(sys, ctx, l.names, l.slash, i)
      case GoOn => Loop(sys, ctx, l, nest, depth, i + 1)
      case Follow(dest) => FollowLink(sys, ctx, l, i, dest, nest, depth)
      case Stop(e) => Failed(e)
  }

  /** The path with the link at component `i` replaced by its target. When an absolute target
      has no component at all, the components behind the link are lost. */
  function Spliced(l: PathList, i: nat, dest: Target): PathList
    requires i < |l.names|
  {
    var rest := l.names[i + 1..];
    var slash := dest.slash && rest == [];
    if dest.abs then PathList(dest.comps + (if dest.bare then [] else rest), 0, slash)
    else PathList(l.names[..i] + (dest.comps + rest), 0, l.slash || slash)
  }

  /** sb_path_resolution_resolve_symlink */
  function FollowLink(sys: System, ctx: Context, l: PathList, i: nat, dest: Target, nest: nat, depth: nat): (o: Outcome)
    requires i < |l.names|
    ensures o.Resolved? ==> !HasUp(o.names)
    decreases depth, 4, 1
  {
    if depth == 0 then OutOfStack else ResolveDirty(sys, ctx, Spliced(l, i, dest), nest + 1, depth)
  }

  /** Resolution of a list that may still hold "..": it is cleaned first. */
  function ResolveDirty(sys: System, ctx: Context, l: PathList, nest: nat, depth: nat): (o: Outcome)
    requires 0 < depth
    ensures o.Resolved? ==> !HasUp(o.names)
    decreases depth, 4, 0
  {
    if !HasUp(l.names) then Resolve(sys, ctx, l, nest, depth - 1)
    else match CleanDotdots(sys, ctx, l, depth, CountUps(l.names))
      case Clean(l') => Resolve(sys, ctx, l', nest, depth - 1)
      case Dirty(why) => why
  }
}
