/** Facts about the reference walk: real directories cost nothing to walk again, and a ".."
    can be walked to by resolving what stands before it. */
module ReferenceProofs {
  import opened Resolution
  import opened Reference

  /** One name of a walk that looks at it. */
  lemma NameStep(fs: Fs, ctx: Context, done: seq<Comp>, c: Comp, rest: seq<Comp>, slash: bool, left: nat)
    requires c.Name? && !(rest == [] && ctx.dontResolveFinal && !slash)
    ensures
      var here, r := done + [c], Walk(fs, ctx, done, [c] + rest, slash, left);
      match fs.entry(here)
      case NotLink =>
        r == if rest == [] && ctx.mustBeDirectory && !IsDir(fs, here) then Error(KindError(fs.kind(here)))
             else Walk(fs, ctx, here, rest, slash, left)
      case Fails(e) =>
        r == if e == ENOENT && ((!ctx.mustExist && rest == []) || ctx.allowMissing)
             then Walk(fs, ctx, here, rest, slash, left) else Error(e)
      case Link(dest) =>
        if left == 0 then r == Loops
        else r == Walk(fs, ctx, if dest.abs then [] else done, dest.comps + RestAfter(fs, dest, rest),
                       SlashAfter(fs, dest, rest, slash), left - 1)
  {
    assert ([c] + rest)[0] == c && ([c] + rest)[1..] == rest;
  }

  /** A walk may stand on these names: the entry is there and is no link, or it is missing
      where that is tolerated. */
  predicate Accepted(fs: Fs, ctx: Context, p: seq<Comp>) {
    p == [] || fs.entry(p).NotLink? || Missing(fs, ctx, p)
  }

  /** ".." may follow these names. */
  predicate DirOk(fs: Fs, ctx: Context, p: seq<Comp>) {
    IsDir(fs, p) || Missing(fs, ctx, p)
  }

  ghost predicate Real(fs: Fs, ctx: Context, p: seq<Comp>) {
    && !HasUp(p)
    && (forall j {:trigger p[..j]} :: 0 <= j <= |p| ==> Accepted(fs, ctx, p[..j]))
  }

  lemma UpStep(fs: Fs, ctx: Context, done: seq<Comp>, rest: seq<Comp>, slash: bool, left: nat)
    requires DirOk(fs, ctx, done)
    ensures Walk(fs, ctx, done, [Up] + rest, slash, left) ==
            Walk(fs, ctx, Init(done), rest, slash || rest == [], left)
  {
    assert ([Up] + rest)[1..] == rest;
  }

  /** What a walk has gone through is a directory. */
  lemma ParentIsDir(fs: Fs, ctx: Context, p: seq<Comp>)
    requires Consistent(fs)
    requires p != [] && Accepted(fs, ctx, Init(p))
    requires fs.entry(p).Link? || Accepted(fs, ctx, p)
    ensures DirOk(fs, ctx, Init(p))
  {
    assert p == Init(p) + [p[|p| - 1]];
  }

  lemma RealInit(fs: Fs, ctx: Context, p: seq<Comp>)
    requires Consistent(fs) && Real(fs, ctx, p)
    ensures Real(fs, ctx, Init(p))
    ensures DirOk(fs, ctx, Init(p))
  {
    if p != [] {
      var q := Init(p);
      forall j | 0 <= j <= |q| ensures Accepted(fs, ctx, q[..j]) {
        assert q[..j] == p[..j];
      }
      assert p[..|p|] == p && q[..|q|] == q;
      ParentIsDir(fs, ctx, p);
    }
  }

  lemma RealSnoc(fs: Fs, ctx: Context, p: seq<Comp>, c: Comp)
    requires Real(fs, ctx, p) && c.Name?
    requires Accepted(fs, ctx, p + [c])
    ensures Real(fs, ctx, p + [c])
  {
    var q := p + [c];
    forall j | 0 <= j <= |q| ensures Accepted(fs, ctx, q[..j]) {
      if j <= |p| {
        assert q[..j] == p[..j];
      } else {
        assert q[..j] == q;
      }
    }
  }

  /** Starting over from the root costs nothing: the walk passes through real directories
      again without spending a link expansion. */
  lemma {:induction false} Rewalk(fs: Fs, ctx: Context, p: seq<Comp>, j: nat, todo: seq<Comp>, slash: bool, left: nat)
    requires Real(fs, ctx, p) && j <= |p|
    requires todo == [] ==> DirOk(fs, ctx, p)
    ensures Walk(fs, ctx, p[..j], p[j..] + todo, slash, left) == Walk(fs, ctx, p, todo, slash, left)
    decreases |p| - j
  {
    if j == |p| {
      assert p[..j] == p && p[j..] + todo == todo;
    } else {
      var all := p[j..] + todo;
      assert all[0] == p[j] && all[1..] == p[j + 1..] + todo;
      assert p[..j] + [p[j]] == p[..j + 1];
      Rewalk(fs, ctx, p, j + 1, todo, slash, left);
      if all[1..] == [] {
        assert p[..j + 1] == p && todo == [];
      }
      assert Accepted(fs, ctx, p[..j + 1]);
    }
  }

  lemma RewalkAll(fs: Fs, ctx: Context, p: seq<Comp>, todo: seq<Comp>, slash: bool, left: nat)
    requires Real(fs, ctx, p)
    requires todo == [] ==> DirOk(fs, ctx, p)
    ensures Walk(fs, ctx, [], p + todo, slash, left) == Walk(fs, ctx, p, todo, slash, left)
  {
    Rewalk(fs, ctx, p, 0, todo, slash, left);
    assert p[..0] == [] && p[0..] == p;
  }

  lemma {:induction false} WalkSpends(fs: Fs, ctx: Context, done: seq<Comp>, todo: seq<Comp>, slash: bool, left: nat)
    ensures
      var r := Walk(fs, ctx, done, todo, slash, left);
      r.Arrived? ==> r.left <= left
    decreases left, |todo|
  {
    if todo != [] {
      var rest, here := todo[1..], done + [todo[0]];
      if todo[0].Up? {
        WalkSpends(fs, ctx, Init(done), rest, slash || rest == [], left);
      } else {
        WalkSpends(fs, ctx, here, rest, slash, left);
        match fs.entry(here)
        case Link(dest) =>
          if left > 0 {
            WalkSpends(fs, ctx, if dest.abs then [] else done, dest.comps + RestAfter(fs, dest, rest),
                       SlashAfter(fs, dest, rest, slash), left - 1);
          }
        case _ =>
      }
    }
  }

  /** What the walk still does after it has arrived at the parent of a "..". */
  function AfterParent(fs: Fs, ctx: Context, r: Walked, todo: seq<Comp>, slash: bool): Walked {
    match r
    case Arrived(names, _, left) => Walk(fs, ctx, Init(names), todo, slash || todo == [], left)
    case _ => r
  }

  lemma {:induction false} FromUpAppend(a: seq<Comp>, up: seq<Comp>)
    requires up != [] && up[0].Up?
    ensures FromUp(a + up) == FromUp(a) + up
    decreases |a|
  {
    if a == [] {
      assert a + up == up;
    } else {
      assert (a + up)[1..] == a[1..] + up;
      FromUpAppend(a[1..], up);
    }
  }

  lemma {:induction false} FromUpClean(a: seq<Comp>)
    requires !HasUp(a)
    ensures FromUp(a) == []
  {
    if a != [] {
      FromUpClean(a[1..]);
    }
  }

  /** Walking up to a ".." and beyond it is walking to its parent, which must be a directory,
      and then on from the parent's parent. The slash of the whole path is not touched before,
      and that of the walk to the parent does not matter. */
  lemma {:induction false} WalkUp(fs: Fs, ctx: Context, done: seq<Comp>, a: seq<Comp>, todo: seq<Comp>,
                                  slash: bool, inner: bool, left: nat)
    requires Consistent(fs) && Real(fs, ctx, done)
    requires a == [] ==> DirOk(fs, ctx, done)
    ensures
      var r := Walk(fs, ParentContext(ctx), done, a, inner, left);
      && Walk(fs, ctx, done, a + ([Up] + todo), slash, left) == AfterParent(fs, ctx, r, todo, slash)
      && (r.Arrived? ==> Real(fs, ctx, r.names) && DirOk(fs, ctx, r.names))
    decreases left, |a|, 0
  {
    var up := [Up] + todo;
    if a == [] {
      assert a + up == up && up[1..] == todo;
    } else {
      var c, rest := a[0], a[1..];
      assert (a + up)[0] == c && (a + up)[1..] == rest + up;
      assert a == [c] + rest && a + up == [c] + (rest + up);
      if c.Up? {
        if DirOk(fs, ctx, done) {
          RealInit(fs, ctx, done);
          WalkUp(fs, ctx, Init(done), rest, todo, slash, inner || rest == [], left);
        }
      } else {
        WalkUpPastName(fs, ctx, done, c, rest, todo, slash, inner, left);
      }
    }
  }

  lemma {:induction false} WalkUpPastName(fs: Fs, ctx: Context, done: seq<Comp>, c: Comp, rest: seq<Comp>,
                                          todo: seq<Comp>, slash: bool, inner: bool, left: nat)
    requires Consistent(fs) && Real(fs, ctx, done) && c.Name?
    ensures
      var r := Walk(fs, ParentContext(ctx), done, [c] + rest, inner, left);
      && Walk(fs, ctx, done, [c] + (rest + ([Up] + todo)), slash, left) == AfterParent(fs, ctx, r, todo, slash)
      && (r.Arrived? ==> Real(fs, ctx, r.names) && DirOk(fs, ctx, r.names))
    decreases left, |rest|, 1
  {
    var here, up := done + [c], [Up] + todo;
    var a, long := [c] + rest, [c] + (rest + up);
    assert a[0] == c && a[1..] == rest && long[0] == c && long[1..] == rest + up;
    match fs.entry(here)
    case NotLink =>
      if rest != [] || IsDir(fs, here) {
        RealSnoc(fs, ctx, done, c);
        WalkUp(fs, ctx, here, rest, todo, slash, inner, left);
      } else {
        assert rest + up == up;
      }
    case Fails(e) =>
      if e == ENOENT && ctx.allowMissing {
        RealSnoc(fs, ctx, done, c);
        WalkUp(fs, ctx, here, rest, todo, slash, inner, left);
      }
    case Link(dest) =>
      if left > 0 {
        WalkUpPastLink(fs, ctx, done, c, dest, rest, todo, slash, inner, left);
      }
  }

  /** Where a link is followed from. */
  lemma LinkBase(fs: Fs, ctx: Context, done: seq<Comp>, c: Comp, dest: Target)
    requires Consistent(fs) && Real(fs, ctx, done) && fs.entry(done + [c]) == Link(dest)
    ensures
      var from := if dest.abs then [] else done;
      Real(fs, ctx, from) && DirOk(fs, ctx, from)
  {
    if !dest.abs {
      assert Init(done + [c]) == done && done[..|done|] == done;
      ParentIsDir(fs, ctx, done + [c]);
    }
  }

  /** What is left behind a link, and the slash, when a ".." follows. */
  lemma LinkBeforeUp(fs: Fs, dest: Target, rest: seq<Comp>, up: seq<Comp>, slash: bool)
    requires up != [] && up[0].Up?
    ensures dest.comps + RestAfter(fs, dest, rest + up) == (dest.comps + RestAfter(fs, dest, rest)) + up
    ensures SlashAfter(fs, dest, rest + up, slash) == slash
  {
    hide FromUp;
    FromUpAppend(rest, up);
    var kept := RestAfter(fs, dest, rest);
    assert dest.comps + (kept + up) == (dest.comps + kept) + up;
    assert (rest + up)[|rest|].Up?;
  }

  lemma {:induction false} WalkUpPastLink(fs: Fs, ctx: Context, done: seq<Comp>, c: Comp, dest: Target, rest: seq<Comp>,
                                          todo: seq<Comp>, slash: bool, inner: bool, left: nat)
    requires Consistent(fs) && Real(fs, ctx, done) && c.Name?
    requires left > 0 && fs.entry(done + [c]) == Link(dest)
    ensures
      var r := Walk(fs, ParentContext(ctx), done, [c] + rest, inner, left);
      && Walk(fs, ctx, done, [c] + (rest + ([Up] + todo)), slash, left) == AfterParent(fs, ctx, r, todo, slash)
      && (r.Arrived? ==> Real(fs, ctx, r.names) && DirOk(fs, ctx, r.names))
    decreases left, |rest|, 0
  {
    hide Walk, FromUp, Real, DirOk, Consistent, RestAfter, SlashAfter;
    var up, from := [Up] + todo, if dest.abs then [] else done;
    NameStep(fs, ParentContext(ctx), done, c, rest, inner, left);
    NameStep(fs, ctx, done, c, rest + up, slash, left);
    LinkBeforeUp(fs, dest, rest, up, slash);
    LinkBase(fs, ctx, done, c, dest);
    WalkUp(fs, ctx, from, dest.comps + RestAfter(fs, dest, rest), todo, slash, SlashAfter(fs, dest, rest, inner), left - 1);
  }
}
