/** The body of sb_path_resolution as it runs: one rule is chosen, components are skipped,
    and the host path of the prefix is carried along from component to component
    (pathmapping/pathresolution.c). */
module Engine {
  import opened Options
  import opened Paths
  import opened Rules
  import opened Resolution
  import opened Namespace
  import opened Skipping
  import opened Shortcut
  import PathLists

  /** The selector of the chosen rule is covered by the path, so the skip loop stays inside
      it. */
  lemma ChosenIsCovered(rules: seq<Item>, ctx: Context, names: seq<Comp>, slash: bool)
    ensures
      var hit := RuleFor(rules, ctx, names, slash);
      hit.Some? ==> hit.value.minLen <= Covered(Lengths(names), |names|)
  {
    var q := Query(VirtualPath(names, slash), ctx.classes, ctx.binaryName);
    FindIsFirstEligible(rules, 0, q);
    match FindFrom(rules, 0, q)
    case Some(h) => SelectorIsCovered(h.rule, names, slash);
    case None =>
  }

  /** What the loop knows: the rule that was chosen, and the host path of component `i`. */
  ghost predicate Carries(w: World, rules: seq<Item>, ctx: Context, l: PathList, hit: Hit, first: nat,
                          i: nat, host: Option<string>)
  {
    && RuleFor(rules, ctx, l.names, l.slash) == Some(hit)
    && first == Skip(Lengths(l.names), 1, hit.minLen) && first <= i < |l.names|
    && host == HostAt(w, rules, ctx, l.names, l.slash, i)
  }

  method FirstHost(w: World, rules: seq<Item>, ctx: Context, l: PathList, hit: Hit, first: nat)
    returns (host: Option<string>)
    requires RuleFor(rules, ctx, l.names, l.slash) == Some(hit)
    requires first == Skip(Lengths(l.names), 1, hit.minLen) && first < |l.names|
    ensures Carries(w, rules, ctx, l, hit, first, first, host)
  {
    host := Translate(hit.rule, Prefix(Texts(l.names), first), w.other);
  }

  /** What the loop carries is the translation of the whole path up to the component. */
  lemma CarriedIsTranslated(w: World, rules: seq<Item>, ctx: Context, l: PathList, hit: Hit, first: nat,
                            i: nat, host: Option<string>)
    requires Carries(w, rules, ctx, l, hit, first, i, host)
    requires PrefixRule(hit.rule) && !HasUp(l.names) && GoodRaw(StdAction(hit.rule, Prefix(Texts(l.names), first)))
    ensures host == Translate(hit.rule, Prefix(Texts(l.names), i), w.other)
  {
    hide RuleFor, StdAction, Prefix, Translate, HostAt, Skip, Texts, Lengths;
    ProbedIsTranslated(w, rules, ctx, l.names, l.slash, i, hit);
  }

  /** The host path of the next component: translated anew, or extended by its name. */
  method NextHost(w: World, rules: seq<Item>, ctx: Context, l: PathList, hit: Hit, first: nat,
                  i: nat, host: Option<string>) returns (next: Option<string>)
    requires Carries(w, rules, ctx, l, hit, first, i, host) && i + 1 < |l.names|
    ensures Carries(w, rules, ctx, l, hit, first, i + 1, next)
    ensures PrefixRule(hit.rule) && !HasUp(l.names) && GoodRaw(StdAction(hit.rule, Prefix(Texts(l.names), first))) ==>
              next == Translate(hit.rule, Prefix(Texts(l.names), i + 1), w.other)
  {
    hide RuleFor, StdAction, Prefix, Translate, Skip, Texts, Lengths, Print, GoodRaw, HasUp;
    if TranslateForAll(hit.rule) {
      next := Translate(hit.rule, Print(Path(Texts(l.names)[..i + 2], true, l.slash)), w.other);
    } else {
      next := Some(Text(host) + "/" + Texts(l.names)[i + 1]);
    }
    assert Carries(w, rules, ctx, l, hit, first, i + 1, next);
    if PrefixRule(hit.rule) && !HasUp(l.names) && GoodRaw(StdAction(hit.rule, Prefix(Texts(l.names), first))) {
      CarriedIsTranslated(w, rules, ctx, l, hit, first, i + 1, next);
    }
  }

  /** The questions put to the host; stat is asked only where a directory is required. */
  method Examine(w: World, ctx: Context, host: Option<string>, last: bool) returns (look: Look)
    ensures look == LookAt(ctx, ProbeHost(w, host), StatHost(w, host), last)
  {
    var probe := ProbeHost(w, host);
    if probe.Link? {
      return Follow(probe.dest);
    }
    if probe.NotLink? {
      if ctx.mustBeDirectory && last {
        var kind := StatHost(w, host);
        if kind.StatFails? {
          return Stop(kind.errno);
        }
        if !kind.Directory? {
          return Stop(ENOTDIR);
        }
      }
    } else if probe.errno == ENOENT && !ctx.mustExist && last {
    } else if probe.errno == ENOENT && ctx.allowMissing {
    } else {
      return Stop(probe.errno);
    }
    look := GoOn;
  }

  /** One round of the loop, for a component that is not a final one to be left alone. */
  function Round(sys: System, ctx: Context, l: PathList, i: nat): Look
    requires i < |l.names|
  {
    if i < l.known then GoOn else LookIn(sys, ctx, l.names, l.slash, i)
  }

  lemma LoopStep(sys: System, ctx: Context, l: PathList, nest: nat, depth: nat, i: nat)
    requires i < |l.names| && (l.slash || !ctx.dontResolveFinal || i + 1 < |l.names|)
    ensures Loop(sys, ctx, l, nest, depth, i) ==
            match Round(sys, ctx, l, i)
            case GoOn => Loop(sys, ctx, l, nest, depth, i + 1)
            case Follow(dest) => FollowLink(sys, ctx, l, i, dest, nest, depth)
            case Stop(e) => Failed(e)
  {
  }

  lemma LoopEnds(sys: System, ctx: Context, l: PathList, nest: nat, depth: nat, i: nat)
    requires i <= |l.names| <= i + 1
    requires i < |l.names| ==> !l.slash && ctx.dontResolveFinal
    ensures Loop(sys, ctx, l, nest, depth, i) == Resolved(l.names, l.slash)
  {
  }

  method RunRound(w: World, rules: seq<Item>, ctx: Context, l: PathList, hit: Hit, first: nat,
                  i: nat, host: Option<string>) returns (look: Look)
    requires Carries(w, rules, ctx, l, hit, first, i, host)
    ensures look == Round(SystemOf(w, rules), ctx, l, i)
  {
    look := GoOn;
    if i >= l.known {
      look := Examine(w, ctx, host, i + 1 == |l.names|);
    }
  }

  /** sb_path_resolution_resolve_symlink */
  method ExpandLink(w: World, rules: seq<Item>, ctx: Context, l: PathList, i: nat, dest: Target, nest: nat, depth: nat)
    returns (o: Outcome)
    requires i < |l.names|
    ensures o == FollowLink(SystemOf(w, rules), ctx, l, i, dest, nest, depth)
    decreases depth, 1
  {
    hide Resolve, SystemOf, CleanDotdots, HasUp, Spliced;
    SplicedIsNew(l, i, dest);
    if depth == 0 {
      return OutOfStack;
    }
    o := ResolveUnclean(w, rules, ctx, Spliced(l, i, dest), nest + 1, depth);
  }

  /** An expanded path starts out with nothing known about it. */
  lemma SplicedIsNew(l: PathList, i: nat, dest: Target)
    requires i < |l.names|
    ensures Spliced(l, i, dest).known == 0
  {
  }

  /** A list that may hold ".." is cleaned, in place, before it is resolved. */
  method ResolveUnclean(w: World, rules: seq<Item>, ctx: Context, l: PathList, nest: nat, depth: nat)
    returns (o: Outcome)
    requires 0 < depth && l.known == 0
    ensures o == ResolveDirty(SystemOf(w, rules), ctx, l, nest, depth)
    decreases depth, 0
  {
    hide Resolve, SystemOf, CleanDotdots, HasUp;
    var list := l;
    if HasUp(l.names) {
      var c := PathLists.CleanInPlace(SystemOf(w, rules), ctx, l.names, l.slash, depth);
      if c.Dirty? {
        return c.why;
      }
      list := c.list;
    }
    o := ResolveList(w, rules, ctx, list, nest, depth - 1);
  }

  /** The loop over the components. */
  method ResolveFrom(w: World, rules: seq<Item>, ctx: Context, l: PathList, nest: nat, depth: nat,
                     hit: Hit, first: nat) returns (o: Outcome)
    requires RuleFor(rules, ctx, l.names, l.slash) == Some(hit)
    requires first == Skip(Lengths(l.names), 1, hit.minLen) && first < |l.names|
    ensures o == Loop(SystemOf(w, rules), ctx, l, nest, depth, first)
    decreases depth, 2
  {
    hide Loop, Carries, RuleFor, Round, SystemOf, Skip, FollowLink, Translate, StdAction, Prefix, Texts, Lengths, HasUp,
         GoodRaw;
    var sys := SystemOf(w, rules);
    var host := FirstHost(w, rules, ctx, l, hit, first);
    var i := first;
    while i < |l.names|
      invariant first <= i <= |l.names|
      invariant i < |l.names| ==> Carries(w, rules, ctx, l, hit, first, i, host)
      invariant Loop(sys, ctx, l, nest, depth, i) == Loop(sys, ctx, l, nest, depth, first)
    {
      var last := i + 1 == |l.names|;
      if !l.slash && ctx.dontResolveFinal && last {
        break;
      }
      LoopStep(sys, ctx, l, nest, depth, i);
      var look := RunRound(w, rules, ctx, l, hit, first, i, host);
      if look.Follow? {
        o := ExpandLink(w, rules, ctx, l, i, look.dest, nest, depth);
        return;
      }
      if look.Stop? {
        return Failed(look.errno);
      }
      if !last {
        host := NextHost(w, rules, ctx, l, hit, first, i, host);
      }
      i := i + 1;
    }
    LoopEnds(sys, ctx, l, nest, depth, i);
    o := Resolved(l.names, l.slash);
  }

  /** sb_path_resolution */
  method ResolveList(w: World, rules: seq<Item>, ctx: Context, l: PathList, nest: nat, depth: nat)
    returns (o: Outcome)
    ensures o == Resolve(SystemOf(w, rules), ctx, l, nest, depth)
    decreases depth, 3
  {
    hide Loop, FindFrom, VirtualPath, Covered, Skip, Lengths;
    if nest > MAX_NEST {
      return TooManyLinks;
    }
    var hit := FindRule(rules, Query(VirtualPath(l.names, l.slash), ctx.classes, ctx.binaryName));
    if hit.None? {
      return NoRule;
    }
    ChosenIsCovered(rules, ctx, l.names, l.slash);
    var first := SkipLoop(Lengths(l.names), hit.value.minLen);
    if StopsAtOnce(hit.value.rule) || first == |l.names| {
      o := Resolved(l.names, l.slash);
    } else {
      o := ResolveFrom(w, rules, ctx, l, nest, depth, hit.value, first);
    }
  }
}
