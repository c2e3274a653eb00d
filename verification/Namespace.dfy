/** Resolution as it meets strings: paths and link texts are split into components, rules
    are chosen for printed paths, and components are probed at their mapped host paths. */
module Namespace {
  import opened Options
  import opened Paths
  import opened Rules
  import opened Resolution

  // ---------------------------------------------------------------- components and texts

  function ToComp(c: string): Comp
    requires IsName(c) && c != "."
  {
    if c == ".." then Up else Name(c)
  }

  function ToComps(cs: seq<string>): (r: seq<Comp>)
    requires AllNames(cs) && NoDots(cs)
    ensures |r| == |cs|
    ensures forall i :: 0 <= i < |r| ==> r[i] == ToComp(cs[i])
  {
    if cs == [] then [] else [ToComp(cs[0])] + ToComps(cs[1..])
  }

  function TextOf(c: Comp): (s: string)
    ensures IsName(s) && s != "." && (s == ".." <==> c.Up?)
  {
    if c.Up? then ".." else c.text
  }

  function Texts(cs: seq<Comp>): (r: seq<string>)
    ensures |r| == |cs|
    ensures forall i :: 0 <= i < |r| ==> r[i] == TextOf(cs[i])
  {
    if cs == [] then [] else [TextOf(cs[0])] + Texts(cs[1..])
  }

  lemma TextsAreNames(cs: seq<Comp>)
    ensures AllNames(Texts(cs)) && NoDots(Texts(cs))
    ensures HasDotdot(Texts(cs)) <==> HasUp(cs)
  {
    if HasUp(cs) {
      var i :| 0 <= i < |cs| && cs[i].Up?;
      assert Texts(cs)[i] == "..";
    }
  }

  lemma CompsOfTexts(cs: seq<Comp>)
    ensures AllNames(Texts(cs)) && NoDots(Texts(cs)) && ToComps(Texts(cs)) == cs
  {
    TextsAreNames(cs);
    forall i | 0 <= i < |cs| ensures ToComps(Texts(cs))[i] == cs[i] {
      assert Texts(cs)[i] == TextOf(cs[i]);
    }
  }

  lemma TextsOfFront(cs: seq<Comp>, i: nat)
    requires i <= |cs|
    ensures Texts(cs[..i]) == Texts(cs)[..i]
  {
  }

  /** The string that a path list prints as. */
  function VirtualPath(names: seq<Comp>, slash: bool): string {
    Print(Path(Texts(names), true, slash))
  }

  /** What a string denotes once it has been split and "." has been removed. */
  function Parse(s: string): Target {
    var p := RemoveDots(Split(s));
    Target(p.abs, ToComps(p.names), p.slash, Components(s) == [])
  }

  /** Comparing path lists is comparing what they print as. */
  lemma PrintsSameIsSameString(a: seq<Comp>, slashA: bool, b: seq<Comp>, slashB: bool)
    ensures PrintsSame(a, slashA, b, slashB) <==> VirtualPath(a, slashA) == VirtualPath(b, slashB)
  {
    if VirtualPath(a, slashA) == VirtualPath(b, slashB) {
      ParseOfPrint(a, slashA);
      ParseOfPrint(b, slashB);
    }
  }

  /** A printed path list reads back as itself. */
  lemma ParseOfPrint(names: seq<Comp>, slash: bool)
    ensures Parse(VirtualPath(names, slash)) == Target(true, names, slash || names == [], names == [])
  {
    var cs, s := Texts(names), VirtualPath(names, slash);
    CompsOfTexts(names);
    WithoutDotsClean(cs);
    if names == [] {
      ComponentsOfNone();
    } else {
      SplitOfPrint(Path(cs, true, slash));
    }
  }

  // ---------------------------------------------------------------- rules and probes

  /** What readlink says about a host path. */
  datatype HostLink = LinkTo(text: string) | NoLink | Unreadable(errno: int)

  /** The host file system during one resolution, and host-side mappings outside the rules
      modelled here. */
  datatype World = World(readlink: string -> HostLink, stat: string -> FileKind, other: string -> Option<string>)

  /** The rule that is selected for a path list. */
  function RuleFor(rules: seq<Item>, ctx: Context, names: seq<Comp>, slash: bool): Option<Hit> {
    FindFrom(rules, 0, Query(VirtualPath(names, slash), ctx.classes, ctx.binaryName))
  }

  function Lengths(cs: seq<Comp>): (r: seq<nat>)
    ensures |r| == |cs|
    ensures forall i :: 0 <= i < |r| ==> r[i] == |TextOf(cs[i])|
  {
    if cs == [] then [] else [|TextOf(cs[0])|] + Lengths(cs[1..])
  }

  /** Number of components that the skip loop passes over: as many as it takes to cover
      `minLen` characters, the leading slash being counted already. */
  function Skip(lengths: seq<nat>, covered: nat, minLen: nat): (n: nat)
    ensures n <= |lengths|
  {
    if covered >= minLen || lengths == [] then 0
    else 1 + Skip(lengths[1..], covered + lengths[0] + 1, minLen)
  }

  predicate StopsAtOnce(r: Rule) {
    r.forceOrig || r.action.ForceOrigPath? || r.action.ForceOrigPathUnlessChroot?
  }

  function Start(rules: seq<Item>, ctx: Context, names: seq<Comp>, slash: bool): Option<Begin> {
    match RuleFor(rules, ctx, names, slash)
    case None => None
    case Some(h) => Some(Begin(Skip(Lengths(names), 1, h.minLen), StopsAtOnce(h.rule)))
  }

  /** The host path that is probed for component `i`. */
  function HostAt(w: World, rules: seq<Item>, ctx: Context, names: seq<Comp>, slash: bool, i: nat): Option<string> {
    match RuleFor(rules, ctx, names, slash)
    case None => None
    case Some(h) =>
      var first := Skip(Lengths(names), 1, h.minLen);
      if first <= i < |names| then MappedAt(h.rule, Texts(names), slash, first, i, w.other) else None
  }

  function ProbeHost(w: World, h: Option<string>): Probe {
    if h.None? then Fails(EFAULT)
    else match w.readlink(h.value)
      case LinkTo(text) => Link(Parse(text))
      case NoLink => NotLink
      case Unreadable(e) => Fails(e)
  }

  function StatHost(w: World, h: Option<string>): FileKind {
    if h.Some? then w.stat(h.value) else StatFails(EFAULT)
  }

  function SystemOf(w: World, rules: seq<Item>): System {
    System(
      (ctx: Context, names: seq<Comp>, slash: bool) => Start(rules, ctx, names, slash),
      (ctx: Context, names: seq<Comp>, slash: bool, i: nat) => ProbeHost(w, HostAt(w, rules, ctx, names, slash, i)),
      (ctx: Context, names: seq<Comp>, slash: bool, i: nat) => StatHost(w, HostAt(w, rules, ctx, names, slash, i)))
  }

  // ---------------------------------------------------------------- mapping

  /** Resolution of an absolute virtual path, given as a string. */
  function ResolvePath(w: World, rules: seq<Item>, ctx: Context, path: string, depth: nat): Outcome
    requires 0 < depth
  {
    var p := Parse(path);
    ResolveDirty(SystemOf(w, rules), ctx, PathList(p.comps, 0, p.slash), 0, depth)
  }

  /** sbox_map_path_internal: the host path of an absolute virtual path. */
  function MapPath(w: World, rules: seq<Item>, ctx: Context, path: string, depth: nat): Option<string>
    requires 0 < depth
  {
    MapOutcome(w, rules, ctx, ResolvePath(w, rules, ctx, path, depth))
  }

  /** The resolved virtual path is translated by the rule that was chosen for it. */
  function MapOutcome(w: World, rules: seq<Item>, ctx: Context, o: Outcome): Option<string> {
    if !o.Resolved? then None
    else match RuleFor(rules, ctx, o.names, o.slash)
      case Some(h) => Translate(h.rule, VirtualPath(o.names, o.slash), w.other)
      case None => None
  }
}
