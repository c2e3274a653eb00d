/** Resolution under arbitrary rules, where links are free of "..": the recursion is a loop
    that expands one link after the other, at most 16 of them, and what it returns is clean
    and free of links. */
module Iteration {
  import opened Options
  import opened Resolution

  /** No link mentions "..". */
  ghost predicate NoUps(sys: System) {
    forall ctx: Context, names: seq<Comp>, slash: bool, i: nat {:trigger sys.probe(ctx, names, slash, i)} ::
      sys.probe(ctx, names, slash, i).Link? ==> !HasUp(sys.probe(ctx, names, slash, i).dest.comps)
  }

  /** What one pass over a path list comes to: an outcome, or the first link on the way. */
  datatype Scan = Ends(outcome: Outcome) | Meets(at: nat, dest: Target)

  /** The components from `i` on, with nothing known about them. */
  function ScanFrom(sys: System, ctx: Context, names: seq<Comp>, slash: bool, i: nat): (r: Scan)
    requires i <= |names|
    ensures r.Meets? ==> i <= r.at < |names| && sys.probe(ctx, names, slash, r.at) == Link(r.dest)
    decreases |names| - i
  {
    if i == |names| || (i + 1 == |names| && !slash && ctx.dontResolveFinal) then Ends(Resolved(names, slash))
    else match LookIn(sys, ctx, names, slash, i)
      case GoOn => ScanFrom(sys, ctx, names, slash, i + 1)
      case Follow(dest) => Meets(i, dest)
      case Stop(e) => Ends(Failed(e))
  }

  function ScanList(sys: System, ctx: Context, names: seq<Comp>, slash: bool): Scan {
    match sys.start(ctx, names, slash)
    case None => Ends(NoRule)
    case Some(b) =>
      if b.stops || b.first >= |names| then Ends(Resolved(names, slash))
      else ScanFrom(sys, ctx, names, slash, b.first)
  }

  lemma ScanListMeets(sys: System, ctx: Context, names: seq<Comp>, slash: bool)
    ensures
      var r := ScanList(sys, ctx, names, slash);
      r.Meets? ==> r.at < |names| && sys.probe(ctx, names, slash, r.at) == Link(r.dest)
  {
  }

  /** The path list after `n` expansions, if there are that many. */
  function Expanded(sys: System, ctx: Context, names: seq<Comp>, slash: bool, n: nat): Option<(seq<Comp>, bool)>
    decreases n
  {
    if n == 0 then Some((names, slash))
    else
      var r := ScanList(sys, ctx, names, slash);
      if r.Ends? then None
      else
        ScanListMeets(sys, ctx, names, slash);
        var l := Spliced(PathList(names, 0, slash), r.at, r.dest);
        Expanded(sys, ctx, l.names, l.slash, n - 1)
  }

  /** How a run of expansions ends: after as many as there are, or on the one too many. */
  function Iterate(sys: System, ctx: Context, names: seq<Comp>, slash: bool, budget: nat): Outcome
    decreases budget
  {
    var r := ScanList(sys, ctx, names, slash);
    if r.Ends? then r.outcome
    else if budget == 0 then TooManyLinks
    else
      ScanListMeets(sys, ctx, names, slash);
      var l := Spliced(PathList(names, 0, slash), r.at, r.dest);
      Iterate(sys, ctx, l.names, l.slash, budget - 1)
  }

  // ---------------------------------------------------------------- the recursion is the loop

  lemma {:induction false} LoopIsScan(sys: System, ctx: Context, names: seq<Comp>, slash: bool,
                                      nest: nat, depth: nat, i: nat)
    requires i <= |names|
    ensures Loop(sys, ctx, PathList(names, 0, slash), nest, depth, i) ==
            match ScanFrom(sys, ctx, names, slash, i)
            case Ends(o) => o
            case Meets(at, dest) => FollowLink(sys, ctx, PathList(names, 0, slash), at, dest, nest, depth)
    decreases |names| - i
  {
    if i < |names| {
      LoopIsScan(sys, ctx, names, slash, nest, depth, i + 1);
    }
  }

  lemma SplicedHasNoUps(l: PathList, i: nat, dest: Target)
    requires i < |l.names| && !HasUp(l.names) && !HasUp(dest.comps)
    ensures !HasUp(Spliced(l, i, dest).names) && Spliced(l, i, dest).known == 0
  {
  }

  /** For links without "..", and a stack of 17 levels, the mutually recursive resolution is
      the loop with its budget of 16 expansions, whatever the rules are. In particular it
      always returns. */
  lemma {:induction false} ResolutionIsIteration(sys: System, ctx: Context, names: seq<Comp>, slash: bool,
                                                 nest: nat, depth: nat)
    requires NoUps(sys) && !HasUp(names)
    requires nest <= MAX_NEST && depth + nest > MAX_NEST
    ensures Resolve(sys, ctx, PathList(names, 0, slash), nest, depth) ==
            Iterate(sys, ctx, names, slash, MAX_NEST - nest)
    decreases MAX_NEST - nest
  {
    var l := PathList(names, 0, slash);
    match sys.start(ctx, names, slash)
    case None =>
    case Some(b) =>
      if !b.stops && b.first < |names| {
        LoopIsScan(sys, ctx, names, slash, nest, depth, b.first);
        match ScanFrom(sys, ctx, names, slash, b.first)
        case Ends(_) =>
        case Meets(at, dest) =>
          var l' := Spliced(l, at, dest);
          SplicedHasNoUps(l, at, dest);
          assert FollowLink(sys, ctx, l, at, dest, nest, depth) == Resolve(sys, ctx, l', nest + 1, depth - 1);
          if nest < MAX_NEST {
            ResolutionIsIteration(sys, ctx, l'.names, l'.slash, nest + 1, depth - 1);
          }
      }
  }

  // ---------------------------------------------------------------- what the loop guarantees

  /** A path list on which resolution has nothing left to do: a rule applies, and from the
      first component it examines on there is no link, except a final one that the caller
      wants left alone. */
  ghost predicate Settled(sys: System, ctx: Context, names: seq<Comp>, slash: bool) {
    && sys.start(ctx, names, slash).Some?
    && var b := sys.start(ctx, names, slash).value;
       b.stops ||
       forall i :: b.first <= i < |names| && !(i + 1 == |names| && !slash && ctx.dontResolveFinal) ==>
         !sys.probe(ctx, names, slash, i).Link?
  }

  lemma {:induction false} ScanSettles(sys: System, ctx: Context, names: seq<Comp>, slash: bool, i: nat)
    requires i <= |names|
    ensures
      match ScanFrom(sys, ctx, names, slash, i)
      case Ends(Resolved(names', slash')) =>
        && names' == names && slash' == slash
        && (forall j :: i <= j < |names| && !(j + 1 == |names| && !slash && ctx.dontResolveFinal) ==>
              !sys.probe(ctx, names, slash, j).Link?)
      case Ends(o) => o.Failed?
      case Meets(_, _) => true
    decreases |names| - i
  {
    if i < |names| {
      ScanSettles(sys, ctx, names, slash, i + 1);
    }
  }

  lemma ScanListSettles(sys: System, ctx: Context, names: seq<Comp>, slash: bool)
    ensures
      match ScanList(sys, ctx, names, slash)
      case Ends(Resolved(names', slash')) => names' == names && slash' == slash && Settled(sys, ctx, names, slash)
      case Ends(o) => o.Failed? || o == NoRule
      case Meets(_, _) => true
  {
    match sys.start(ctx, names, slash)
    case None =>
    case Some(b) =>
      if b.first < |names| {
        ScanSettles(sys, ctx, names, slash, b.first);
      }
  }

  /** "Too many links" is reported exactly when there is one expansion to make beyond the
      budget; a result is clean and settled. */
  lemma {:induction false} IterationResult(sys: System, ctx: Context, names: seq<Comp>, slash: bool, budget: nat)
    requires NoUps(sys) && !HasUp(names)
    ensures
      var o := Iterate(sys, ctx, names, slash, budget);
      && (o == TooManyLinks <==> Expanded(sys, ctx, names, slash, budget + 1).Some?)
      && (o.Resolved? ==> !HasUp(o.names) && Settled(sys, ctx, o.names, o.slash)
                          && ScanList(sys, ctx, o.names, o.slash) == Ends(o))
      && o != OutOfStack
    decreases budget
  {
    ScanListSettles(sys, ctx, names, slash);
    match ScanList(sys, ctx, names, slash)
    case Ends(_) =>
    case Meets(at, dest) =>
      ScanListMeets(sys, ctx, names, slash);
      var l := PathList(names, 0, slash);
      var l' := Spliced(l, at, dest);
      SplicedHasNoUps(l, at, dest);
      if budget > 0 {
        IterationResult(sys, ctx, l'.names, l'.slash, budget - 1);
      }
  }

  /** Any rules, any links without "..", any clean path: resolution returns. It reports too
      many links exactly when a 17th link would have to be expanded, and a path it returns is
      clean and has no link from the first examined component on, except a final one that
      was to be left alone. */
  lemma ResolutionSettles(sys: System, ctx: Context, names: seq<Comp>, slash: bool, depth: nat)
    requires NoUps(sys) && !HasUp(names) && depth > MAX_NEST
    ensures
      var o := Resolve(sys, ctx, PathList(names, 0, slash), 0, depth);
      && o != OutOfStack
      && (o == TooManyLinks <==> Expanded(sys, ctx, names, slash, 17).Some?)
      && (o.Resolved? ==> !HasUp(o.names) && Settled(sys, ctx, o.names, o.slash))
  {
    ResolutionIsIteration(sys, ctx, names, slash, 0, depth);
    IterationResult(sys, ctx, names, slash, MAX_NEST);
  }

  /** Resolving a resolved path again changes nothing. */
  lemma ResolutionIsIdempotent(sys: System, ctx: Context, names: seq<Comp>, slash: bool, depth: nat)
    requires NoUps(sys) && !HasUp(names) && depth > MAX_NEST
    ensures
      var o := Resolve(sys, ctx, PathList(names, 0, slash), 0, depth);
      o.Resolved? ==> Resolve(sys, ctx, PathList(o.names, 0, o.slash), 0, depth) == o
  {
    hide Resolve, HasUp, NoUps, Settled;
    ResolutionIsIteration(sys, ctx, names, slash, 0, depth);
    IterationResult(sys, ctx, names, slash, MAX_NEST);
    var o := Resolve(sys, ctx, PathList(names, 0, slash), 0, depth);
    if o.Resolved? {
      ResolutionIsIteration(sys, ctx, o.names, o.slash, 0, depth);
    }
  }
}
