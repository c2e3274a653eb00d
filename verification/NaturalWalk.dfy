/** How far the engine's way of following absolute links is from a natural walk: it can lose
    the rest of a path, and the slash at its end. */
module NaturalWalk {
  import opened Resolution
  import opened Reference
  import opened ReferenceProofs

  /** A walk that loses nothing. */
  function Natural(fs: Fs): Fs {
    fs.(keepsSlash := true, keepsRest := true)
  }

  /** An answer without regard to a slash at the end. */
  function WithoutSlash(v: Verdict): Verdict {
    if v.At? then At(v.names, false) else v
  }

  function Place(r: Walked): Verdict {
    WithoutSlash(Said(r))
  }

  // ---------------------------------------------------------------- the rest of the path

  /** What an absolute link of slashes only in front of a name makes the engine lose: the names
      behind it, and the slash and the expansions with which a natural walk goes on. */
  datatype Loss = NoLoss | Loss(rest: seq<Comp>, slash: bool, left: nat)

  /** The first such link that the walk meets on its way. `dropped` is the slash as the engine
      has it, and `kept` as it should be. */
  function LossOf(fs: Fs, ctx: Context, done: seq<Comp>, todo: seq<Comp>, dropped: bool, kept: bool, left: nat): Loss
    decreases left, |todo|
  {
    if todo == [] then NoLoss
    else
      var rest, here := todo[1..], done + [todo[0]];
      if todo[0].Up? then
        if IsDir(fs, done) || Missing(fs, ctx, done)
        then LossOf(fs, ctx, Init(done), rest, dropped || rest == [], kept || rest == [], left)
        else NoLoss
      else if rest == [] && ctx.dontResolveFinal && !dropped then NoLoss
      else match fs.entry(here)
        case Link(dest) =>
          if left == 0 then NoLoss
          else if dest.abs && dest.bare && rest != [] && rest[0].Name? then
            Loss(rest, SlashAfter(Natural(fs), dest, rest, kept), left - 1)
          else
            LossOf(fs, ctx, if dest.abs then [] else done, dest.comps + rest,
                   SlashAfter(fs, dest, rest, dropped), SlashAfter(Natural(fs), dest, rest, kept), left - 1)
        case _ =>
          if fs.entry(here).NotLink? || Missing(fs, ctx, here)
          then LossOf(fs, ctx, here, rest, dropped, kept, left)
          else NoLoss
  }

  /** A link on the way, as far as losses go. */
  lemma LossStep(fs: Fs, ctx: Context, done: seq<Comp>, c: Comp, rest: seq<Comp>, dropped: bool, kept: bool, left: nat)
    requires c.Name? && !(rest == [] && ctx.dontResolveFinal && !dropped)
    ensures
      var here, loss := done + [c], LossOf(fs, ctx, done, [c] + rest, dropped, kept, left);
      match fs.entry(here)
      case Link(dest) =>
        if left == 0 then loss == NoLoss
        else if dest.abs && dest.bare && rest != [] && rest[0].Name? then
          loss == Loss(rest, SlashAfter(Natural(fs), dest, rest, kept), left - 1)
        else
          loss == LossOf(fs, ctx, if dest.abs then [] else done, dest.comps + rest,
                         SlashAfter(fs, dest, rest, dropped), SlashAfter(Natural(fs), dest, rest, kept), left - 1)
      case _ =>
        loss == if fs.entry(here).NotLink? || Missing(fs, ctx, here)
                then LossOf(fs, ctx, here, rest, dropped, kept, left) else NoLoss
  {
    assert ([c] + rest)[0] == c && ([c] + rest)[1..] == rest;
  }

  /** Without one it makes no difference that the engine would lose the rest there. */
  lemma {:induction false} RestIsKept(fs: Fs, ctx: Context, done: seq<Comp>, todo: seq<Comp>,
                                      slash: bool, kept: bool, left: nat)
    requires LossOf(fs, ctx, done, todo, slash, kept, left) == NoLoss
    ensures Walk(fs, ctx, done, todo, slash, left) == Walk(fs.(keepsRest := true), ctx, done, todo, slash, left)
    decreases left, |todo|, 1
  {
    if todo != [] {
      var c, rest := todo[0], todo[1..];
      assert todo == [c] + rest;
      if c.Up? {
        if IsDir(fs, done) || Missing(fs, ctx, done) {
          RestIsKept(fs, ctx, Init(done), rest, slash || rest == [], kept || rest == [], left);
        }
      } else if !(rest == [] && ctx.dontResolveFinal && !slash) {
        RestIsKeptPast(fs, ctx, done, c, rest, slash, kept, left);
      }
    }
  }

  lemma {:induction false} RestIsKeptPast(fs: Fs, ctx: Context, done: seq<Comp>, c: Comp, rest: seq<Comp>,
                                          slash: bool, kept: bool, left: nat)
    requires c.Name? && !(rest == [] && ctx.dontResolveFinal && !slash)
    requires LossOf(fs, ctx, done, [c] + rest, slash, kept, left) == NoLoss
    ensures Walk(fs, ctx, done, [c] + rest, slash, left) ==
            Walk(fs.(keepsRest := true), ctx, done, [c] + rest, slash, left)
    decreases left, |rest| + 1, 0
  {
    hide Walk, LossOf;
    var here, keep := done + [c], fs.(keepsRest := true);
    NameStep(fs, ctx, done, c, rest, slash, left);
    NameStep(keep, ctx, done, c, rest, slash, left);
    LossStep(fs, ctx, done, c, rest, slash, kept, left);
    match fs.entry(here)
    case Link(dest) =>
      if left > 0 {
        RestIsKept(fs, ctx, if dest.abs then [] else done, dest.comps + rest,
                   SlashAfter(fs, dest, rest, slash), SlashAfter(Natural(fs), dest, rest, kept), left - 1);
      }
    case _ =>
      if rest == [] {
        NothingLeft(fs, ctx, here, slash, left);
        NothingLeft(keep, ctx, here, slash, left);
      } else if fs.entry(here).NotLink? || Missing(fs, ctx, here) {
        RestIsKept(fs, ctx, here, rest, slash, kept, left);
      }
  }

  /** A target of slashes only has no components. */
  ghost predicate BareIsEmpty(fs: Fs) {
    forall p: seq<Comp> {:trigger fs.entry(p)} ::
      fs.entry(p).Link? && fs.entry(p).dest.bare ==> fs.entry(p).dest.comps == []
  }

  /** With one, and no "..": the engine ends in the root directory, and a natural walk goes on
      from there with the names that were lost. */
  lemma {:induction false} LossIsRest(fs: Fs, ctx: Context, done: seq<Comp>, todo: seq<Comp>,
                                      dropped: bool, kept: bool, left: nat)
    requires !fs.keepsRest && BareIsEmpty(fs) && NoUpLinks(fs) && !HasUp(todo) && (dropped ==> kept)
    requires LossOf(fs, ctx, done, todo, dropped, kept, left).Loss?
    ensures
      var loss := LossOf(fs, ctx, done, todo, dropped, kept, left);
      && Place(Walk(fs, ctx, done, todo, dropped, left)) == At([], false)
      && Walk(Natural(fs), ctx, done, todo, kept, left) ==
         Walk(Natural(fs), ctx, [], loss.rest, loss.slash, loss.left)
    decreases left, |todo|
  {
    hide Walk, LossOf, NoUpLinks, BareIsEmpty, HasUp;
    var c, rest := LossHead(fs, ctx, done, todo, dropped, kept, left);
    var here := done + [c];
    NameStep(fs, ctx, done, c, rest, dropped, left);
    NameStep(Natural(fs), ctx, done, c, rest, kept, left);
    LossStep(fs, ctx, done, c, rest, dropped, kept, left);
    match fs.entry(here)
    case Link(dest) =>
      LinkIsClean(fs, here, dest, rest);
      if dest.abs && dest.bare && rest != [] && rest[0].Name? {
        NothingLeft(fs, ctx, [], SlashAfter(fs, dest, rest, dropped), left - 1);
        assert dest.comps + RestAfter(fs, dest, rest) == [] && dest.comps + rest == rest;
      } else {
        LossIsRest(fs, ctx, if dest.abs then [] else done, dest.comps + rest,
                   SlashAfter(fs, dest, rest, dropped), SlashAfter(Natural(fs), dest, rest, kept), left - 1);
      }
    case _ => LossIsRest(fs, ctx, here, rest, dropped, kept, left);
  }

  /** Where something is lost there is a name to look at. */
  lemma LossHead(fs: Fs, ctx: Context, done: seq<Comp>, todo: seq<Comp>, dropped: bool, kept: bool, left: nat)
    returns (c: Comp, rest: seq<Comp>)
    requires !HasUp(todo) && LossOf(fs, ctx, done, todo, dropped, kept, left).Loss?
    ensures todo == [c] + rest && c.Name? && !HasUp(rest) && !(rest == [] && ctx.dontResolveFinal && !dropped)
    ensures rest == [] ==> fs.entry(done + [c]).Link?
  {
    c, rest := todo[0], todo[1..];
    if rest == [] {
      assert LossOf(fs, ctx, done + [c], [], dropped, kept, left) == NoLoss;
    }
  }

  lemma LinkIsClean(fs: Fs, here: seq<Comp>, dest: Target, rest: seq<Comp>)
    requires NoUpLinks(fs) && BareIsEmpty(fs) && fs.entry(here) == Link(dest) && !HasUp(rest)
    ensures !HasUp(dest.comps + rest) && (dest.bare ==> dest.comps == [])
    ensures RestAfter(fs, dest, rest) == if !fs.keepsRest && dest.abs && dest.bare then [] else rest
    ensures rest == [] || rest[0].Name?
  {
    assert !UpLink(fs.entry(here));
    FromUpClean(rest);
  }

  // ---------------------------------------------------------------- the slash at the end

  /** A final name at which a natural walk ends as well. */
  predicate Passes(fs: Fs, ctx: Context, here: seq<Comp>) {
    match fs.entry(here)
    case NotLink => ctx.mustBeDirectory ==> IsDir(fs, here)
    case Fails(e) => e == ENOENT && (!ctx.mustExist || ctx.allowMissing)
    case Link(_) => false
  }

  /** The engine leaves a final name alone that it should have looked at, because an absolute
      link has dropped the slash behind it: `dropped` is the slash as the engine has it, and
      `kept` as it should be. The name is a link, or missing, or not the directory it has to be. */
  predicate StopsShort(fs: Fs, ctx: Context, done: seq<Comp>, todo: seq<Comp>, dropped: bool, kept: bool, left: nat)
    decreases left, |todo|
  {
    if todo == [] then false
    else
      var rest, here := todo[1..], done + [todo[0]];
      if todo[0].Up? then
        (IsDir(fs, done) || Missing(fs, ctx, done))
        && StopsShort(fs, ctx, Init(done), rest, dropped || rest == [], kept || rest == [], left)
      else if rest == [] && ctx.dontResolveFinal && !dropped then kept && !Passes(fs, ctx, here)
      else match fs.entry(here)
        case Link(dest) =>
          left > 0
          && StopsShort(fs, ctx, if dest.abs then [] else done, dest.comps + RestAfter(fs, dest, rest),
                        SlashAfter(fs.(keepsSlash := false), dest, rest, dropped),
                        SlashAfter(fs.(keepsSlash := true), dest, rest, kept), left - 1)
        case _ => rest != [] && (fs.entry(here).NotLink? || Missing(fs, ctx, here))
                  && StopsShort(fs, ctx, here, rest, dropped, kept, left)
  }

  /** No name on the way down is a link. */
  ghost predicate OffLinks(fs: Fs, p: seq<Comp>) {
    forall j {:trigger p[..j]} :: 0 < j <= |p| ==> !fs.entry(p[..j]).Link?
  }

  lemma OffLinksInit(fs: Fs, p: seq<Comp>)
    requires OffLinks(fs, p)
    ensures OffLinks(fs, Init(p)) && (p == [] || !fs.entry(p).Link?)
  {
    if p != [] {
      assert p[..|p|] == p;
      forall j | 0 < j <= |Init(p)| ensures !fs.entry(Init(p)[..j]).Link? {
        assert Init(p)[..j] == p[..j];
      }
    }
  }

  lemma OffLinksSnoc(fs: Fs, p: seq<Comp>, c: Comp)
    requires OffLinks(fs, p) && !fs.entry(p + [c]).Link?
    ensures OffLinks(fs, p + [c])
  {
    var q := p + [c];
    forall j | 0 < j <= |q| ensures !fs.entry(q[..j]).Link? {
      assert j <= |p| ==> q[..j] == p[..j];
      assert j > |p| ==> q[..j] == q;
    }
  }

  /** With a slash that stays in force no walk ends at a link. */
  lemma {:induction false} EndsOffLinks(fs: Fs, ctx: Context, done: seq<Comp>, todo: seq<Comp>, left: nat)
    requires fs.keepsSlash && OffLinks(fs, done)
    ensures
      var r := Walk(fs, ctx, done, todo, true, left);
      r.Arrived? ==> r.names == [] || !fs.entry(r.names).Link?
    decreases left, |todo|
  {
    OffLinksInit(fs, done);
    if todo != [] {
      var rest, here := todo[1..], done + [todo[0]];
      if todo[0].Up? {
        EndsOffLinks(fs, ctx, Init(done), rest, left);
      } else {
        match fs.entry(here)
        case Link(dest) =>
          if left > 0 {
            EndsOffLinks(fs, ctx, if dest.abs then [] else done, dest.comps + RestAfter(fs, dest, rest), left - 1);
          }
        case _ =>
          OffLinksSnoc(fs, done, todo[0]);
          EndsOffLinks(fs, ctx, here, rest, left);
      }
    }
  }

  /** The final name itself. */
  lemma {:induction false} FinalNameDiffersIff(fs: Fs, ctx: Context, done: seq<Comp>, c: Comp, left: nat)
    requires fs.keepsSlash && OffLinks(fs, done) && c.Name?
    ensures Place(Walk(fs, ctx, done, [c], true, left)) == At(done + [c], false) <==> Passes(fs, ctx, done + [c])
  {
    var here := done + [c];
    assert [c][1..] == [];
    assert Walk(fs, ctx, here, [], true, left) == Arrived(here, true, left);
    match fs.entry(here)
    case Link(dest) =>
      if left > 0 {
        EndsOffLinks(fs, ctx, if dest.abs then [] else done, dest.comps + RestAfter(fs, dest, []), left - 1);
      }
    case _ =>
  }

  lemma ShortStep(fs: Fs, ctx: Context, done: seq<Comp>, c: Comp, rest: seq<Comp>, dropped: bool, kept: bool, left: nat)
    requires c.Name? && !(rest == [] && ctx.dontResolveFinal && !dropped)
    ensures
      var here, short := done + [c], StopsShort(fs, ctx, done, [c] + rest, dropped, kept, left);
      match fs.entry(here)
      case Link(dest) =>
        short == (left > 0
          && StopsShort(fs, ctx, if dest.abs then [] else done, dest.comps + RestAfter(fs, dest, rest),
                        SlashAfter(fs.(keepsSlash := false), dest, rest, dropped),
                        SlashAfter(fs.(keepsSlash := true), dest, rest, kept), left - 1))
      case _ =>
        short == (rest != [] && (fs.entry(here).NotLink? || Missing(fs, ctx, here))
                  && StopsShort(fs, ctx, here, rest, dropped, kept, left))
  {
    assert ([c] + rest)[0] == c && ([c] + rest)[1..] == rest;
  }

  /** The walk that drops the slash ends at the same place as the one that keeps it. */
  predicate SamePlace(fs: Fs, ctx: Context, done: seq<Comp>, todo: seq<Comp>, dropped: bool, kept: bool, left: nat) {
    Place(Walk(fs.(keepsSlash := false), ctx, done, todo, dropped, left)) ==
    Place(Walk(fs.(keepsSlash := true), ctx, done, todo, kept, left))
  }

  /** It does so exactly unless it stops short. */
  lemma {:induction false} SlashMattersIff(fs: Fs, ctx: Context, done: seq<Comp>, todo: seq<Comp>,
                                           dropped: bool, kept: bool, left: nat)
    requires OffLinks(fs, done) && (dropped ==> kept)
    ensures SamePlace(fs, ctx, done, todo, dropped, kept, left) <==>
            !StopsShort(fs, ctx, done, todo, dropped, kept, left)
    decreases left, |todo|, 1
  {
    if todo != [] {
      var c, rest := todo[0], todo[1..];
      assert todo == [c] + rest;
      if c.Up? {
        OffLinksInit(fs, done);
        SlashMattersIff(fs, ctx, Init(done), rest, dropped || rest == [], kept || rest == [], left);
      } else if rest == [] && ctx.dontResolveFinal && !dropped {
        assert todo == [c];
        FinalMattersIff(fs, ctx, done, c, kept, left);
      } else {
        NameMattersIff(fs, ctx, done, c, rest, dropped, kept, left);
      }
    }
  }

  lemma {:induction false} FinalMattersIff(fs: Fs, ctx: Context, done: seq<Comp>, c: Comp, kept: bool, left: nat)
    requires OffLinks(fs, done) && c.Name? && ctx.dontResolveFinal
    ensures SamePlace(fs, ctx, done, [c], false, kept, left) <==>
            !StopsShort(fs, ctx, done, [c], false, kept, left)
  {
    assert [c][1..] == [];
    if kept {
      FinalNameDiffersIff(fs.(keepsSlash := true), ctx, done, c, left);
    }
  }

  lemma {:induction false} NameMattersIff(fs: Fs, ctx: Context, done: seq<Comp>, c: Comp, rest: seq<Comp>,
                                          dropped: bool, kept: bool, left: nat)
    requires OffLinks(fs, done) && (dropped ==> kept) && c.Name?
    requires rest == [] && ctx.dontResolveFinal ==> dropped
    ensures SamePlace(fs, ctx, done, [c] + rest, dropped, kept, left) <==>
            !StopsShort(fs, ctx, done, [c] + rest, dropped, kept, left)
    decreases left, |rest| + 1, 0
  {
    hide Walk, StopsShort;
    var here, drop, keep := done + [c], fs.(keepsSlash := false), fs.(keepsSlash := true);
    NameStep(drop, ctx, done, c, rest, dropped, left);
    NameStep(keep, ctx, done, c, rest, kept, left);
    ShortStep(fs, ctx, done, c, rest, dropped, kept, left);
    match fs.entry(here)
    case Link(dest) =>
      if left > 0 {
        SlashMattersIff(fs, ctx, if dest.abs then [] else done, dest.comps + RestAfter(fs, dest, rest),
                        SlashAfter(drop, dest, rest, dropped), SlashAfter(keep, dest, rest, kept), left - 1);
      }
    case _ =>
      OffLinksSnoc(fs, done, c);
      SlashMattersIff(fs, ctx, here, rest, dropped, kept, left);
      if rest == [] {
        NothingLeft(drop, ctx, here, dropped, left);
        NothingLeft(keep, ctx, here, kept, left);
      }
  }

  lemma NothingLeft(fs: Fs, ctx: Context, done: seq<Comp>, slash: bool, left: nat)
    ensures Walk(fs, ctx, done, [], slash, left) == Arrived(done, slash, left)
  {
  }

  /** Calls that follow final links, and paths without a slash at the end, never stop short. */
  lemma {:induction false} NeverShort(fs: Fs, ctx: Context, done: seq<Comp>, todo: seq<Comp>,
                                      dropped: bool, kept: bool, left: nat)
    requires !ctx.dontResolveFinal || todo == [] || (!dropped && !kept)
    ensures !StopsShort(fs, ctx, done, todo, dropped, kept, left)
    decreases left, |todo|
  {
    if todo != [] {
      var rest, here := todo[1..], done + [todo[0]];
      if todo[0].Up? {
        NeverShort(fs, ctx, Init(done), rest, dropped || rest == [], kept || rest == [], left);
      } else if !(rest == [] && ctx.dontResolveFinal && !dropped) {
        NeverShort(fs, ctx, here, rest, dropped, kept, left);
        match fs.entry(here)
        case Link(dest) =>
          if left > 0 {
            NeverShort(fs, ctx, if dest.abs then [] else done, dest.comps + RestAfter(fs, dest, rest),
                       SlashAfter(fs.(keepsSlash := false), dest, rest, dropped),
                       SlashAfter(fs.(keepsSlash := true), dest, rest, kept), left - 1);
          }
        case _ =>
      }
    }
  }

  /** A slash that stays in force makes a call that leaves final links alone follow them. */
  lemma {:induction false} SlashMeansFollow(fs: Fs, ctx: Context, done: seq<Comp>, todo: seq<Comp>, left: nat)
    requires fs.keepsSlash
    ensures Walk(fs, ctx, done, todo, true, left) == Walk(fs, Following(ctx), done, todo, true, left)
    decreases left, |todo|
  {
    if todo != [] {
      var rest, here := todo[1..], done + [todo[0]];
      if todo[0].Up? {
        SlashMeansFollow(fs, ctx, Init(done), rest, left);
      } else {
        SlashMeansFollow(fs, ctx, here, rest, left);
        match fs.entry(here)
        case Link(dest) =>
          if left > 0 {
            SlashMeansFollow(fs, ctx, if dest.abs then [] else done, dest.comps + RestAfter(fs, dest, rest), left - 1);
          }
        case _ =>
      }
    }
  }
}
