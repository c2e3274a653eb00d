/** Every answer is right: whatever the links contain and however deep the stack is, a path
    or an error that the engine returns is what the reference walk says, given enough link
    expansions. */
module Soundness {
  import opened Resolution
  import opened Reference
  import opened ReferenceProofs
  import opened ResolutionTheorem

  predicate Answers(o: Outcome) {
    o.Resolved? || o.Failed?
  }

  /** The same result with `k` more expansions left over. */
  function More(r: Walked, k: nat): Walked {
    if r.Arrived? then r.(left := r.left + k) else r
  }

  /** A walk that does not run out of expansions is not affected by having more. */
  lemma {:induction false} WalkMore(fs: Fs, ctx: Context, done: seq<Comp>, todo: seq<Comp>, slash: bool,
                                    left: nat, k: nat)
    requires Walk(fs, ctx, done, todo, slash, left) != Loops
    ensures Walk(fs, ctx, done, todo, slash, left + k) == More(Walk(fs, ctx, done, todo, slash, left), k)
    decreases left, |todo|
  {
    if todo != [] {
      var rest, here := todo[1..], done + [todo[0]];
      if todo[0].Up? {
        if IsDir(fs, done) || Missing(fs, ctx, done) {
          WalkMore(fs, ctx, Init(done), rest, slash || rest == [], left, k);
        }
      } else if !(rest == [] && ctx.dontResolveFinal && !slash) {
        match fs.entry(here)
        case Link(dest) =>
          WalkMore(fs, ctx, if dest.abs then [] else done, dest.comps + RestAfter(fs, dest, rest),
                   SlashAfter(fs, dest, rest, slash), left - 1, k);
        case NotLink =>
          if !(rest == [] && ctx.mustBeDirectory && !IsDir(fs, here)) {
            WalkMore(fs, ctx, here, rest, slash, left, k);
          }
        case Fails(e) =>
          if e == ENOENT && ((!ctx.mustExist && rest == []) || ctx.allowMissing) {
            WalkMore(fs, ctx, here, rest, slash, left, k);
          }
      }
    }
  }

  /** A walk to a ".." and a walk from there on make one walk. */
  lemma RootIsReal(fs: Fs, ctx: Context)
    ensures Real(fs, ctx, []) && DirOk(fs, ctx, [])
  {
  }

  lemma JoinWalks(fs: Fs, ctx: Context, done: seq<Comp>, rest: seq<Comp>, slash: bool, before: nat, after: nat)
    returns (all: nat)
    requires Consistent(fs)
    requires Walk(fs, ParentContext(ctx), [], done, slash, before).Arrived?
    ensures
      var actual := Walk(fs, ParentContext(ctx), [], done, slash, before).names;
      var onward := Walk(fs, ctx, Init(actual), rest, slash || rest == [], after);
      && Real(fs, ctx, actual) && DirOk(fs, ctx, actual)
      && (onward != Loops ==> Said(Walk(fs, ctx, [], done + ([Up] + rest), slash, all)) == Said(onward))
  {
    hide Walk, Consistent;
    RootIsReal(fs, ctx);
    var r := Walk(fs, ParentContext(ctx), [], done, slash, before);
    if r.left <= after {
      all := before + (after - r.left);
      WalkMore(fs, ParentContext(ctx), [], done, slash, before, after - r.left);
      WalkUp(fs, ctx, [], done, rest, slash, slash, all);
    } else {
      all := before;
      WalkUp(fs, ctx, [], done, rest, slash, slash, all);
      if Walk(fs, ctx, Init(r.names), rest, slash || rest == [], after) != Loops {
        WalkMore(fs, ctx, Init(r.names), rest, slash || rest == [], after, r.left - after);
      }
    }
  }

  // ---------------------------------------------------------------- the induction

  lemma {:induction false} ResolveSound(sys: System, fs: Fs, ctx: Context, l: PathList, nest: nat, depth: nat)
    returns (budget: nat)
    requires Setting(sys, fs) && ListOk(fs, ctx, l) && !HasUp(l.names)
    requires Answers(Resolve(sys, ctx, l, nest, depth))
    ensures Seen(Resolve(sys, ctx, l, nest, depth)) == Said(Walk(fs, ctx, [], l.names, l.slash, budget))
    decreases depth, 6
  {
    assert l.names[..0] == [] && l.names[0..] == l.names;
    budget := 0;
    if l.names != [] {
      budget := LoopSound(sys, fs, ctx, l, nest, depth, 0);
    }
  }

  lemma {:induction false} LoopSound(sys: System, fs: Fs, ctx: Context, l: PathList,
                                     nest: nat, depth: nat, i: nat) returns (budget: nat)
    requires Setting(sys, fs) && ListOk(fs, ctx, l) && !HasUp(l.names)
    requires i <= |l.names| && Real(fs, ctx, l.names[..i])
    requires Answers(Loop(sys, ctx, l, nest, depth, i))
    ensures Seen(Loop(sys, ctx, l, nest, depth, i)) ==
            Said(Walk(fs, ctx, l.names[..i], l.names[i..], l.slash, budget))
    decreases depth, 5, |l.names| - i, 1
  {
    var names := l.names;
    budget := 0;
    if i == |names| {
      assert names[..i] == names;
    } else if ctx.dontResolveFinal && !l.slash && i + 1 == |names| {
      WalkOne(fs, ctx, names, i, l.slash, budget);
    } else if i < l.known {
      KnownIsReal(fs, ctx, l, i);
      assert names[..i + 1][..i + 1] == names[..i + 1];
      budget := LoopSound(sys, fs, ctx, l, nest, depth, i + 1);
      WalkOne(fs, ctx, names, i, l.slash, budget);
    } else {
      budget := ProbeSound(sys, fs, ctx, l, nest, depth, i);
    }
  }

  lemma {:induction false} ProbeSound(sys: System, fs: Fs, ctx: Context, l: PathList,
                                      nest: nat, depth: nat, i: nat) returns (budget: nat)
    requires Setting(sys, fs) && ListOk(fs, ctx, l) && !HasUp(l.names)
    requires l.known <= i < |l.names| && Real(fs, ctx, l.names[..i])
    requires ctx.dontResolveFinal && !l.slash ==> i + 1 < |l.names|
    requires Answers(Loop(sys, ctx, l, nest, depth, i))
    ensures Seen(Loop(sys, ctx, l, nest, depth, i)) == Said(Walk(fs, ctx, l.names[..i], l.names[i..], l.slash, budget))
    decreases depth, 5, |l.names| - i, 0
  {
    hide Walk, Real, Consistent;
    var names := l.names;
    var here := names[..i + 1];
    assert here == names[..i] + [names[i]];
    budget := 0;
    if fs.entry(here).Link? {
      budget := FollowSound(sys, fs, ctx, l, nest, depth, i, fs.entry(here).dest);
    } else if i + 1 < |names| && Accepted(fs, ctx, here) {
      RealSnoc(fs, ctx, names[..i], names[i]);
      budget := LoopSound(sys, fs, ctx, l, nest, depth, i + 1);
      WalkOne(fs, ctx, names, i, l.slash, budget);
    } else {
      WalkOne(fs, ctx, names, i, l.slash, budget);
    }
  }

  lemma {:induction false} FollowSound(sys: System, fs: Fs, ctx: Context, l: PathList,
                                       nest: nat, depth: nat, i: nat, dest: Target) returns (budget: nat)
    requires Setting(sys, fs) && !HasUp(l.names)
    requires i < |l.names| && Real(fs, ctx, l.names[..i])
    requires fs.entry(l.names[..i + 1]) == Link(dest)
    requires ctx.dontResolveFinal && !l.slash ==> i + 1 < |l.names|
    requires Answers(FollowLink(sys, ctx, l, i, dest, nest, depth))
    ensures Seen(FollowLink(sys, ctx, l, i, dest, nest, depth))
         == Said(Walk(fs, ctx, l.names[..i], l.names[i..], l.slash, budget))
    decreases depth, 4, 1
  {
    SplicedIs(fs, l, i, dest);
    budget := ListSound(sys, fs, ctx, Spliced(l, i, dest), nest + 1, depth);
    budget := budget + 1;
    WalkFollows(fs, ctx, l, i, dest, budget);
  }

  lemma {:induction false} ListSound(sys: System, fs: Fs, ctx: Context, l: PathList,
                                     nest: nat, depth: nat) returns (budget: nat)
    requires Setting(sys, fs) && ListOk(fs, ctx, l)
    requires 0 < depth
    requires Answers(ResolveDirty(sys, ctx, l, nest, depth))
    ensures Seen(ResolveDirty(sys, ctx, l, nest, depth)) == Said(Walk(fs, ctx, [], l.names, l.slash, budget))
    decreases depth, 4, 0
  {
    if !HasUp(l.names) {
      budget := ResolveSound(sys, fs, ctx, l, nest, depth - 1);
    } else {
      var restarts := CountUps(l.names);
      budget := CleanSound(sys, fs, ctx, l, depth, restarts, 0);
      match CleanDotdots(sys, ctx, l, depth, restarts)
      case Clean(l2) =>
        var after := ResolveSound(sys, fs, ctx, l2, nest, depth - 1);
        budget := CleanSound(sys, fs, ctx, l, depth, restarts, after);
      case Dirty(_) =>
    }
  }

  /** Cleaning hands over where the walk stands, or reports the walk's error. */
  ghost predicate CleanIsSound(fs: Fs, ctx: Context, c: CleanResult, names: seq<Comp>, slash: bool,
                               after: nat, budget: nat)
  {
    match c
    case Clean(l) =>
      && ListOk(fs, ctx, l) && !HasUp(l.names)
      && (Walk(fs, ctx, [], l.names, l.slash, after) != Loops ==>
            Said(Walk(fs, ctx, [], names, slash, budget)) == Said(Walk(fs, ctx, [], l.names, l.slash, after)))
    case Dirty(why) => why.Failed? ==> Walk(fs, ctx, [], names, slash, budget) == Error(why.errno)
  }

  predicate CleanAnswers(c: CleanResult) {
    c.Clean? || c.why.Failed?
  }

  lemma {:induction false} CleanSound(sys: System, fs: Fs, ctx: Context, l: PathList,
                                      depth: nat, restarts: nat, after: nat) returns (budget: nat)
    requires Setting(sys, fs) && ListOk(fs, ctx, l)
    requires CleanAnswers(CleanDotdots(sys, ctx, l, depth, restarts))
    ensures CleanIsSound(fs, ctx, CleanDotdots(sys, ctx, l, depth, restarts), l.names, l.slash, after, budget)
    decreases depth, 3, restarts, 1, 0
  {
    var l2 := TrivialUps(l);
    TrivialUpsAgree(fs, ctx, l, after);
    budget := after;
    if HasUp(l2.names) {
      assert [] + l2.names == l2.names;
      budget := Step3Sound(sys, fs, ctx, [], l2.known, l2.names, l2.slash, depth, restarts, after);
      TrivialUpsAgree(fs, ctx, l, budget);
    }
  }

  lemma {:induction false} Step3Sound(sys: System, fs: Fs, ctx: Context,
                                      done: seq<Comp>, known: nat, todo: seq<Comp>, slash: bool,
                                      depth: nat, restarts: nat, after: nat) returns (budget: nat)
    requires Setting(sys, fs) && ListOk(fs, ctx, PathList(done + todo, known, slash))
    requires !HasUp(done)
    requires CleanAnswers(Step3(sys, ctx, done, known, todo, slash, depth, restarts))
    ensures CleanIsSound(fs, ctx, Step3(sys, ctx, done, known, todo, slash, depth, restarts),
                         done + todo, slash, after, budget)
    decreases depth, 3, restarts, 0, |todo|, 0
  {
    budget := after;
    if todo == [] {
      assert done + todo == done;
    } else if !todo[0].Up? {
      assert done + [todo[0]] + todo[1..] == done + todo;
      budget := Step3Sound(sys, fs, ctx, done + [todo[0]], known, todo[1..], slash, depth, restarts, after);
    } else {
      var rest, pctx, plist := todo[1..], ParentContext(ctx), PathList(done, 0, slash);
      assert todo == [Up] + rest;
      var parent := Resolve(sys, pctx, plist, 0, depth - 1);
      var before := ResolveSound(sys, fs, pctx, plist, 0, depth - 1);
      if !parent.Resolved? {
        budget := before;
        WalkUp(fs, ctx, [], done, rest, slash, slash, before);
      } else {
        budget := JoinWalks(fs, ctx, done, rest, slash, before, 0);
        if PrintsSame(parent.names, parent.slash, done, slash) {
          budget := PopSound(sys, fs, ctx, done, known, rest, slash, depth, restarts, after, before);
        } else {
          budget := RestartSound(sys, fs, ctx, done, rest, slash, parent.names, depth, restarts, after, before);
        }
      }
    }
  }

  lemma {:induction false} PopSound(sys: System, fs: Fs, ctx: Context,
                                    done: seq<Comp>, known: nat, rest: seq<Comp>, slash: bool,
                                    depth: nat, restarts: nat, after: nat, before: nat) returns (budget: nat)
    requires Setting(sys, fs) && ListOk(fs, ctx, PathList(done + ([Up] + rest), known, slash))
    requires Real(fs, ctx, done)
    requires
      var r := Walk(fs, ParentContext(ctx), [], done, slash, before);
      r.Arrived? && r.names == done
    requires CleanAnswers(Step3(sys, ctx, Init(done), Min(known, |Init(done)|), rest,
                                slash || rest == [], depth, restarts))
    ensures CleanIsSound(fs, ctx, Step3(sys, ctx, Init(done), Min(known, |Init(done)|), rest,
                                        slash || rest == [], depth, restarts),
                         done + ([Up] + rest), slash, after, budget)
    decreases depth, 3, restarts, 0, |rest|, 2
  {
    RealInit(fs, ctx, done);
    ListOkAfterPop(fs, ctx, done, known, rest, slash || rest == []);
    var mid := Step3Sound(sys, fs, ctx, Init(done), Min(known, |Init(done)|), rest,
                          slash || rest == [], depth, restarts, after);
    RewalkAll(fs, ctx, Init(done), rest, slash || rest == [], mid);
    budget := JoinWalks(fs, ctx, done, rest, slash, before, mid);
  }

  lemma {:induction false} RestartSound(sys: System, fs: Fs, ctx: Context,
                                        done: seq<Comp>, rest: seq<Comp>, slash: bool, actual: seq<Comp>,
                                        depth: nat, restarts: nat, after: nat, before: nat) returns (budget: nat)
    requires Setting(sys, fs) && restarts > 0
    requires
      var r := Walk(fs, ParentContext(ctx), [], done, slash, before);
      r.Arrived? && r.names == actual
    requires Real(fs, ctx, actual) && DirOk(fs, ctx, actual)
    requires CleanAnswers(CleanDotdots(sys, ctx, PathList(actual + ([Up] + rest), |actual|, slash),
                                       depth, restarts - 1))
    ensures CleanIsSound(fs, ctx, CleanDotdots(sys, ctx, PathList(actual + ([Up] + rest), |actual|, slash),
                                               depth, restarts - 1),
                         done + ([Up] + rest), slash, after, budget)
    decreases depth, 3, restarts - 1, 2
  {
    hide Walk, CleanDotdots, Real, DirOk, Uniform, Consistent;
    var todo := [Up] + rest;
    var l := PathList(actual + todo, |actual|, slash);
    assert todo[0] == Up && todo[1..] == rest && l.names[..|actual|] == actual;
    var mid := CleanSound(sys, fs, ctx, l, depth, restarts - 1, after);
    RewalkAll(fs, ctx, actual, todo, slash, mid);
    UpStep(fs, ctx, actual, rest, slash, mid);
    budget := JoinWalks(fs, ctx, done, rest, slash, before, mid);
  }

  /** The walk gives the engine's answer with every budget that is large enough. */
  lemma AnswerIsRight(sys: System, fs: Fs, ctx: Context, l: PathList, nest: nat, depth: nat)
    returns (enough: nat)
    requires Setting(sys, fs) && ListOk(fs, ctx, l)
    requires 0 < depth
    requires Answers(ResolveDirty(sys, ctx, l, nest, depth))
    ensures forall budget: nat {:trigger Walk(fs, ctx, [], l.names, l.slash, budget)} :: budget >= enough ==>
      Said(Walk(fs, ctx, [], l.names, l.slash, budget)) == Seen(ResolveDirty(sys, ctx, l, nest, depth))
  {
    enough := ListSound(sys, fs, ctx, l, nest, depth);
    forall budget: nat {:trigger Walk(fs, ctx, [], l.names, l.slash, budget)} | budget >= enough
      ensures Said(Walk(fs, ctx, [], l.names, l.slash, budget)) == Said(Walk(fs, ctx, [], l.names, l.slash, enough))
    {
      WalkMore(fs, ctx, [], l.names, l.slash, enough, budget - enough);
    }
  }
}
