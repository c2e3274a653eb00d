/** Calls that leave a final link alone, under arbitrary rules: a slash at the end of the path
    asks for the link to be followed after all, but an absolute link on the way drops it. */
module TrailingSlash {
  import opened Resolution
  import opened Iteration
  import opened Rules
  import opened Namespace

  /** Rules and probes do not depend on what is to become of a final link. */
  ghost predicate Indifferent(sys: System) {
    && (forall ctx: Context, names: seq<Comp>, slash: bool {:trigger sys.start(ctx, names, slash)} ::
          sys.start(ctx, names, slash) == sys.start(Following(ctx), names, slash))
    && (forall ctx: Context, names: seq<Comp>, slash: bool, i: nat {:trigger sys.kind(ctx, names, slash, i)} ::
          sys.kind(ctx, names, slash, i) == sys.kind(Following(ctx), names, slash, i))
    && (forall ctx: Context, names: seq<Comp>, slash: bool, i: nat {:trigger sys.probe(ctx, names, slash, i)} ::
          sys.probe(ctx, names, slash, i) == sys.probe(Following(ctx), names, slash, i))
  }

  /** The final component is left alone, and would not have let the path stand as it is. */
  predicate LeftAlone(sys: System, ctx: Context, names: seq<Comp>, slash: bool) {
    && ctx.dontResolveFinal && !slash && names != []
    && ScanList(sys, ctx, names, slash) == Ends(Resolved(names, slash))
    && Examined(sys, ctx, names, slash)
    && LookIn(sys, Following(ctx), names, slash, |names| - 1) != GoOn
  }

  /** A rule applies that has components looked at. */
  predicate Examined(sys: System, ctx: Context, names: seq<Comp>, slash: bool) {
    match sys.start(ctx, names, slash)
    case None => false
    case Some(b) => !b.stops && b.first < |names|
  }

  lemma SameLookAt(ctx: Context, probe: Probe, kind: FileKind, last: bool)
    ensures LookAt(ctx, probe, kind, last) == LookAt(Following(ctx), probe, kind, last)
  {
  }

  lemma SameLook(sys: System, ctx: Context, names: seq<Comp>, slash: bool, i: nat)
    requires Indifferent(sys)
    ensures LookIn(sys, ctx, names, slash, i) == LookIn(sys, Following(ctx), names, slash, i)
  {
    hide LookAt;
    SameLookAt(ctx, sys.probe(ctx, names, slash, i), sys.kind(ctx, names, slash, i), i + 1 == |names|);
  }

  lemma SameStart(sys: System, ctx: Context, names: seq<Comp>, slash: bool)
    requires Indifferent(sys)
    ensures sys.start(ctx, names, slash) == sys.start(Following(ctx), names, slash)
  {
  }

  lemma ScanStep(sys: System, ctx: Context, names: seq<Comp>, slash: bool, i: nat)
    requires i < |names|
    ensures
      ScanFrom(sys, ctx, names, slash, i) ==
      if i + 1 == |names| && !slash && ctx.dontResolveFinal then Ends(Resolved(names, slash))
      else match LookIn(sys, ctx, names, slash, i)
        case GoOn => ScanFrom(sys, ctx, names, slash, i + 1)
        case Follow(dest) => Meets(i, dest)
        case Stop(e) => Ends(Failed(e))
    ensures ScanFrom(sys, ctx, names, slash, |names|) == Ends(Resolved(names, slash))
  {
  }

  lemma {:induction false} ScanFromDiffers(sys: System, ctx: Context, names: seq<Comp>, slash: bool, i: nat)
    requires Indifferent(sys) && i < |names|
    ensures
      var r, f := ScanFrom(sys, ctx, names, slash, i), ScanFrom(sys, Following(ctx), names, slash, i);
      r != f <==>
      ctx.dontResolveFinal && !slash && r == Ends(Resolved(names, slash))
      && LookIn(sys, Following(ctx), names, slash, |names| - 1) != GoOn
    decreases |names| - i
  {
    hide ScanFrom, LookIn, Indifferent;
    SameLook(sys, ctx, names, slash, i);
    ScanStep(sys, ctx, names, slash, i);
    ScanStep(sys, Following(ctx), names, slash, i);
    if i + 1 < |names| {
      ScanFromDiffers(sys, ctx, names, slash, i + 1);
    }
  }

  lemma {:induction false} ScanDiffersIff(sys: System, ctx: Context, names: seq<Comp>, slash: bool)
    requires Indifferent(sys)
    ensures ScanList(sys, ctx, names, slash) != ScanList(sys, Following(ctx), names, slash) <==>
            LeftAlone(sys, ctx, names, slash)
  {
    hide ScanFrom, LookIn, Indifferent;
    SameStart(sys, ctx, names, slash);
    if Examined(sys, ctx, names, slash) {
      ScanFromDiffers(sys, ctx, names, slash, sys.start(ctx, names, slash).value.first);
    }
  }

  /** Among the path lists that resolution comes to is one whose final component is left alone
      with a difference. */
  predicate LeavesShort(sys: System, ctx: Context, names: seq<Comp>, slash: bool, budget: nat)
    decreases budget
  {
    || LeftAlone(sys, ctx, names, slash)
    || (var r := ScanList(sys, ctx, names, slash);
        && r.Meets? && budget > 0 && r.at < |names|
        && var l := Spliced(PathList(names, 0, slash), r.at, r.dest);
           LeavesShort(sys, ctx, l.names, l.slash, budget - 1))
  }

  lemma {:induction false} IterationDiffersIff(sys: System, ctx: Context, names: seq<Comp>, slash: bool, budget: nat)
    requires Indifferent(sys) && NoUps(sys) && !HasUp(names)
    ensures Iterate(sys, ctx, names, slash, budget) == Iterate(sys, Following(ctx), names, slash, budget) <==>
            !LeavesShort(sys, ctx, names, slash, budget)
    decreases budget
  {
    hide ScanList, LeftAlone, Spliced, HasUp, Indifferent, NoUps;
    ScanDiffersIff(sys, ctx, names, slash);
    if LeftAlone(sys, ctx, names, slash) {
      LeftAloneDiffers(sys, ctx, names, slash, budget);
    } else {
      match ScanList(sys, ctx, names, slash)
      case Ends(_) =>
      case Meets(at, dest) =>
        MeetsNoUps(sys, ctx, names, slash);
        var l := PathList(names, 0, slash);
        var l' := Spliced(l, at, dest);
        SplicedHasNoUps(l, at, dest);
        if budget > 0 {
          IterationDiffersIff(sys, ctx, l'.names, l'.slash, budget - 1);
        }
    }
  }

  lemma MeetsNoUps(sys: System, ctx: Context, names: seq<Comp>, slash: bool)
    requires NoUps(sys)
    ensures
      var r := ScanList(sys, ctx, names, slash);
      r.Meets? ==> r.at < |names| && !HasUp(r.dest.comps)
  {
    hide ScanList, HasUp;
    ScanListMeets(sys, ctx, names, slash);
  }

  /** A path that is not settled is never what a call that follows links returns. */
  lemma LeftAloneDiffers(sys: System, ctx: Context, names: seq<Comp>, slash: bool, budget: nat)
    requires Indifferent(sys) && NoUps(sys) && !HasUp(names) && LeftAlone(sys, ctx, names, slash)
    ensures Iterate(sys, Following(ctx), names, slash, budget) != Iterate(sys, ctx, names, slash, budget)
  {
    ScanDiffersIff(sys, ctx, names, slash);
    IterationResult(sys, Following(ctx), names, slash, budget);
  }

  /** Under any rules, and links without "..": a call that leaves final links alone comes to
      the same as one that follows them if and only if no path list on the way, from the first
      to the one after the last expansion, has its final component left alone that is a link,
      or missing, or not the directory it has to be. */
  lemma SlashIsHonouredIff(sys: System, ctx: Context, names: seq<Comp>, slash: bool, depth: nat)
    requires Indifferent(sys) && NoUps(sys) && !HasUp(names) && depth > MAX_NEST
    ensures
      var l := PathList(names, 0, slash);
      Resolve(sys, ctx, l, 0, depth) == Resolve(sys, Following(ctx), l, 0, depth) <==>
      !LeavesShort(sys, ctx, names, slash, MAX_NEST)
  {
    hide Resolve, Iterate, LeavesShort;
    ResolutionIsIteration(sys, ctx, names, slash, 0, depth);
    ResolutionIsIteration(sys, Following(ctx), names, slash, 0, depth);
    IterationDiffersIff(sys, ctx, names, slash, MAX_NEST);
  }

  /** Every link on the way leaves the slash in force: it is relative, or it is the final
      component and ends in a slash itself. */
  predicate SlashStays(sys: System, ctx: Context, names: seq<Comp>, slash: bool, budget: nat)
    decreases budget
  {
    && slash
    && (var r := ScanList(sys, ctx, names, slash);
        r.Meets? && budget > 0 && r.at < |names| ==>
          && (!r.dest.abs || (r.at + 1 == |names| && r.dest.slash))
          && var l := Spliced(PathList(names, 0, slash), r.at, r.dest);
             SlashStays(sys, ctx, l.names, l.slash, budget - 1))
  }

  lemma {:induction false} SlashStaysIsEnough(sys: System, ctx: Context, names: seq<Comp>, slash: bool, budget: nat)
    requires SlashStays(sys, ctx, names, slash, budget)
    ensures !LeavesShort(sys, ctx, names, slash, budget)
    decreases budget
  {
    match ScanList(sys, ctx, names, slash)
    case Ends(_) =>
    case Meets(at, dest) =>
      ScanListMeets(sys, ctx, names, slash);
      if budget > 0 {
        var l := Spliced(PathList(names, 0, slash), at, dest);
        SlashStaysIsEnough(sys, ctx, l.names, l.slash, budget - 1);
      }
  }

  lemma SameHost(w: World, rules: seq<Item>, ctx: Context, names: seq<Comp>, slash: bool, i: nat)
    ensures HostAt(w, rules, ctx, names, slash, i) == HostAt(w, rules, Following(ctx), names, slash, i)
    ensures Start(rules, ctx, names, slash) == Start(rules, Following(ctx), names, slash)
  {
    hide VirtualPath, FindFrom, Skip;
  }

  /** Mapping rules are indifferent, whatever they are, so all this is true of them. */
  lemma RulesAreIndifferent(w: World, rules: seq<Item>)
    ensures Indifferent(SystemOf(w, rules))
  {
    hide HostAt, Start;
    var sys := SystemOf(w, rules);
    forall ctx: Context, names: seq<Comp>, slash: bool
      ensures sys.start(ctx, names, slash) == sys.start(Following(ctx), names, slash)
    {
      SameHost(w, rules, ctx, names, slash, 0);
    }
    forall ctx: Context, names: seq<Comp>, slash: bool, i: nat
      ensures sys.kind(ctx, names, slash, i) == sys.kind(Following(ctx), names, slash, i)
    {
      SameHost(w, rules, ctx, names, slash, i);
    }
    forall ctx: Context, names: seq<Comp>, slash: bool, i: nat
      ensures sys.probe(ctx, names, slash, i) == sys.probe(Following(ctx), names, slash, i)
    {
      SameHost(w, rules, ctx, names, slash, i);
    }
  }
}
