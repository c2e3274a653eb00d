/** The main result: on a consistent file system the engine, which restarts from the root
    after every link and cleans ".." by resolving what stands before it, gives the answers of
    the left-to-right walk, whatever the links contain. */
module ResolutionTheorem {
  import opened Options
  import opened Resolution
  import opened Reference
  import opened ReferenceProofs

  // ---------------------------------------------------------------- path lists

  /** The flagged front of a list is real. */
  ghost predicate ListOk(fs: Fs, ctx: Context, l: PathList) {
    l.known <= |l.names| && Real(fs, ctx, l.names[..l.known]) && DirOk(fs, ctx, l.names[..l.known])
  }

  lemma {:induction false} CountAppend(a: seq<Comp>, b: seq<Comp>)
    ensures CountUps(a + b) == CountUps(a) + CountUps(b)
    decreases |a|
  {
    if a == [] {
      assert a + b == b;
    } else {
      assert (a + b)[1..] == a[1..] + b;
      CountAppend(a[1..], b);
    }
  }

  lemma {:induction false} CountZero(a: seq<Comp>)
    ensures CountUps(a) == 0 <==> !HasUp(a)
  {
    if a != [] {
      CountZero(a[1..]);
    }
  }

  // ---------------------------------------------------------------- steps 1 and 2

  lemma {:induction false} Step1Agrees(fs: Fs, ctx: Context, names: seq<Comp>, slash: bool, left: nat)
    ensures
      var names1 := DropLeading(names);
      && Walk(fs, ctx, [], names1, slash || (names != [] && names1 == []), left) ==
         Walk(fs, ctx, [], names, slash, left)
      && (names1 == [] || names1[0].Name?)
      && CountUps(names1) <= CountUps(names) - (if names != [] && names[0].Up? then 1 else 0)
      && (names != [] && names[0].Name? ==> names1 == names)
  {
    if names != [] && names[0].Up? {
      Step1Agrees(fs, ctx, names[1..], slash || |names| == 1, left);
    }
  }

  /** Once a component that is not known to be real has been passed, step 2 keeps everything. */
  lemma {:induction false} Step2Keeps(done: seq<Comp>, known: nat, todo: seq<Comp>, slash: bool)
    requires known < |done|
    ensures Step2(done, known, todo, slash) == PathList(done + todo, known, slash)
    decreases |todo|
  {
    if todo == [] {
      assert done + todo == done;
    } else {
      Step2Keeps(done + [todo[0]], known, todo[1..], slash);
      assert done + [todo[0]] + todo[1..] == done + todo;
    }
  }

  lemma {:induction false} Step2Agrees(fs: Fs, ctx: Context, done: seq<Comp>, todo: seq<Comp>,
                                       slash: bool, left: nat)
    requires Consistent(fs) && Real(fs, ctx, done) && DirOk(fs, ctx, done)
    ensures
      var l := Step2(done, |done|, todo, slash);
      && ListOk(fs, ctx, l)
      && Walk(fs, ctx, [], l.names, l.slash, left) == Walk(fs, ctx, done, todo, slash, left)
      && CountUps(l.names) <= CountUps(todo) - (if todo != [] && todo[0].Up? then 1 else 0)
    decreases |todo|
  {
    CountZero(done);
    if todo == [] {
      RewalkAll(fs, ctx, done, [], slash, left);
      assert done + [] == done && done[..|done|] == done;
    } else if todo[0].Up? {
      RealInit(fs, ctx, done);
      Step2Agrees(fs, ctx, Init(done), todo[1..], slash || |todo| == 1, left);
    } else {
      var kept := done + [todo[0]];
      Step2Keeps(kept, |done|, todo[1..], slash);
      assert kept + todo[1..] == done + todo;
      RewalkAll(fs, ctx, done, todo, slash, left);
      CountAppend(done, todo);
      assert (done + todo)[..|done|] == done;
    }
  }

  /** Steps 1 and 2 leave the walk alone. */
  lemma TrivialUpsAgree(fs: Fs, ctx: Context, l: PathList, left: nat)
    requires Consistent(fs) && ListOk(fs, ctx, l)
    ensures
      var l2 := TrivialUps(l);
      && ListOk(fs, ctx, l2)
      && Walk(fs, ctx, [], l2.names, l2.slash, left) == Walk(fs, ctx, [], l.names, l.slash, left)
      && CountUps(l2.names) + (if l.known < |l.names| && l.names[l.known].Up? then 1 else 0) <= CountUps(l.names)
  {
    var l1, k := Step1(l), l.known;
    Step1Agrees(fs, ctx, l.names, l.slash, left);
    if k > 0 {
      assert l.names[..k][0] == l.names[0];
    }
    if HasUp(l1.names) {
      var front, back := l1.names[..k], l1.names[k..];
      assert front + back == l1.names;
      RewalkAll(fs, ctx, front, back, l1.slash, left);
      Step2Agrees(fs, ctx, front, back, l1.slash, left);
      CountAppend(front, back);
      CountZero(front);
    } else {
      CountZero(l1.names);
    }
  }

  // ---------------------------------------------------------------- the setting

  /** A uniform name space: the same rule applies to every path, from the first component on,
      and what it finds for each component is the entry of one virtual file system. */
  ghost predicate Uniform(sys: System, fs: Fs) {
    && (forall ctx: Context, names: seq<Comp>, slash: bool {:trigger sys.start(ctx, names, slash)} ::
          sys.start(ctx, names, slash) == Some(Begin(0, false)))
    && (forall ctx: Context, names: seq<Comp>, slash: bool, i: nat {:trigger sys.probe(ctx, names, slash, i)} ::
          i < |names| && !HasUp(names) ==> sys.probe(ctx, names, slash, i) == fs.entry(names[..i + 1]))
    && (forall ctx: Context, names: seq<Comp>, slash: bool, i: nat {:trigger sys.kind(ctx, names, slash, i)} ::
          i < |names| && !HasUp(names) ==> sys.kind(ctx, names, slash, i) == fs.kind(names[..i + 1]))
  }

  ghost predicate Setting(sys: System, fs: Fs) {
    Uniform(sys, fs) && Consistent(fs) && !fs.keepsSlash && !fs.keepsRest
  }

  /** The stack has room for the expansions, and the walk does not run out of them, unless the
      links are free of ".." and the engine's own count runs out at the same one. */
  ghost predicate Budget(fs: Fs, r: Walked, nest: nat, depth: nat, left: nat) {
    && left <= depth
    && (r == Loops ==> NoUpLinks(fs) && nest + left == MAX_NEST && left < depth)
  }

  /** The engine gives the walk's answer, or reports too many links where the walk may have
      needed more expansions than the engine had left. */
  predicate Agrees(o: Outcome, r: Walked, nest: nat, left: nat) {
    Seen(o) == Said(r) || (o == TooManyLinks && nest + left > MAX_NEST)
  }

  // ---------------------------------------------------------------- the induction

  lemma {:induction false} LoopAgrees(sys: System, fs: Fs, ctx: Context, l: PathList,
                                      nest: nat, depth: nat, i: nat, left: nat)
    requires Setting(sys, fs) && ListOk(fs, ctx, l) && !HasUp(l.names)
    requires i <= |l.names| && Real(fs, ctx, l.names[..i])
    requires Budget(fs, Walk(fs, ctx, l.names[..i], l.names[i..], l.slash, left), nest, depth, left)
    ensures Agrees(Loop(sys, ctx, l, nest, depth, i),
                   Walk(fs, ctx, l.names[..i], l.names[i..], l.slash, left), nest, left)
    decreases left, 2, |l.names| - i, 1
  {
    var names := l.names;
    if i == |names| {
      assert names[..i] == names;
    } else {
      WalkOne(fs, ctx, names, i, l.slash, left);
      if ctx.dontResolveFinal && !l.slash && i + 1 == |names| {
      } else if i < l.known {
        KnownIsReal(fs, ctx, l, i);
        assert names[..i + 1][..i + 1] == names[..i + 1];
        LoopAgrees(sys, fs, ctx, l, nest, depth, i + 1, left);
      } else {
        ProbeAgrees(sys, fs, ctx, l, nest, depth, i, left);
      }
    }
  }

  /** One name of the walk, seen as an index into the whole list. */
  lemma WalkOne(fs: Fs, ctx: Context, names: seq<Comp>, i: nat, slash: bool, left: nat)
    requires !HasUp(names) && i < |names|
    ensures
      var here, r := names[..i + 1], Walk(fs, ctx, names[..i], names[i..], slash, left);
      var next := Walk(fs, ctx, here, names[i + 1..], slash, left);
      && (i + 1 == |names| ==> here == names && next == Arrived(names, slash, left))
      && if i + 1 == |names| && ctx.dontResolveFinal && !slash then r == next
         else match fs.entry(here)
           case NotLink =>
             if i + 1 == |names| && ctx.mustBeDirectory && !IsDir(fs, here)
             then r == Error(KindError(fs.kind(here)))
             else r == next
           case Fails(e) =>
             if e == ENOENT && ((!ctx.mustExist && i + 1 == |names|) || ctx.allowMissing)
             then r == next
             else r == Error(e)
           case Link(_) => true
  {
    assert names[i..][0] == names[i] && names[i..][1..] == names[i + 1..];
    assert names[..i] + [names[i]] == names[..i + 1];
    if i + 1 == |names| {
      assert names[..i + 1] == names;
    }
  }

  /** A component whose nature is not known yet. */
  lemma {:induction false} ProbeAgrees(sys: System, fs: Fs, ctx: Context, l: PathList,
                                       nest: nat, depth: nat, i: nat, left: nat)
    requires Setting(sys, fs) && ListOk(fs, ctx, l) && !HasUp(l.names)
    requires l.known <= i < |l.names| && Real(fs, ctx, l.names[..i])
    requires ctx.dontResolveFinal && !l.slash ==> i + 1 < |l.names|
    requires Budget(fs, Walk(fs, ctx, l.names[..i], l.names[i..], l.slash, left), nest, depth, left)
    ensures Agrees(Loop(sys, ctx, l, nest, depth, i),
                   Walk(fs, ctx, l.names[..i], l.names[i..], l.slash, left), nest, left)
    decreases left, 2, |l.names| - i, 0
  {
    hide Walk, Real, Consistent;
    var names := l.names;
    var here := names[..i + 1];
    WalkOne(fs, ctx, names, i, l.slash, left);
    assert here == names[..i] + [names[i]];
    if fs.entry(here).Link? {
      FollowAgrees(sys, fs, ctx, l, nest, depth, i, fs.entry(here).dest, left);
    } else if i + 1 < |names| {
      if Accepted(fs, ctx, here) {
        RealSnoc(fs, ctx, names[..i], names[i]);
        LoopAgrees(sys, fs, ctx, l, nest, depth, i + 1, left);
      }
    }
  }

  /** A flagged component is passed by the walk, too. */
  lemma KnownIsReal(fs: Fs, ctx: Context, l: PathList, i: nat)
    requires Consistent(fs) && ListOk(fs, ctx, l) && i < l.known
    ensures Real(fs, ctx, l.names[..i + 1]) && DirOk(fs, ctx, l.names[..i + 1])
    decreases l.known - i
  {
    if i + 1 < l.known {
      KnownIsReal(fs, ctx, l, i + 1);
      RealInit(fs, ctx, l.names[..i + 2]);
      assert Init(l.names[..i + 2]) == l.names[..i + 1];
    }
  }

  /** One link expansion, as the walk sees it, starting over from the root: it is the engine's
      own. */
  lemma WalkFollows(fs: Fs, ctx: Context, l: PathList, i: nat, dest: Target, left: nat)
    requires Consistent(fs) && !HasUp(l.names) && !fs.keepsSlash && !fs.keepsRest
    requires i < |l.names| && Real(fs, ctx, l.names[..i]) && fs.entry(l.names[..i + 1]) == Link(dest)
    requires ctx.dontResolveFinal && !l.slash ==> i + 1 < |l.names|
    ensures
      var r, l1 := Walk(fs, ctx, l.names[..i], l.names[i..], l.slash, left), Spliced(l, i, dest);
      if left == 0 then r == Loops else r == Walk(fs, ctx, [], l1.names, l1.slash, left - 1)
  {
    var names, here, rest := l.names, l.names[..i + 1], l.names[i + 1..];
    assert names[i..][0] == names[i] && names[i..][1..] == rest && names[..i] + [names[i]] == here;
    if left > 0 {
      var from, kept := if dest.abs then [] else names[..i], RestAfter(fs, dest, rest);
      SplicedIs(fs, l, i, dest);
      assert Init(here) == names[..i] && names[..i][..i] == names[..i];
      ParentIsDir(fs, ctx, here);
      RewalkAll(fs, ctx, from, dest.comps + kept, SlashAfter(fs, dest, rest, l.slash), left - 1);
    }
  }

  lemma SplicedIs(fs: Fs, l: PathList, i: nat, dest: Target)
    requires !HasUp(l.names) && !fs.keepsSlash && !fs.keepsRest && i < |l.names|
    ensures
      var l1, rest := Spliced(l, i, dest), l.names[i + 1..];
      && l1.names == (if dest.abs then [] else l.names[..i]) + (dest.comps + RestAfter(fs, dest, rest))
      && l1.slash == SlashAfter(fs, dest, rest, l.slash)
      && l1.known == 0 && l1.names[..0] == []
      && (HasUp(l1.names) ==> HasUp(dest.comps))
  {
    var rest := l.names[i + 1..];
    assert !HasUp(rest);
    FromUpClean(rest);
    if dest.abs {
      var kept := dest.comps + RestAfter(fs, dest, rest);
      assert [] + kept == kept;
    }
  }

  lemma {:induction false} FollowAgrees(sys: System, fs: Fs, ctx: Context, l: PathList,
                                        nest: nat, depth: nat, i: nat, dest: Target, left: nat)
    requires Setting(sys, fs) && !HasUp(l.names)
    requires i < |l.names| && Real(fs, ctx, l.names[..i])
    requires fs.entry(l.names[..i + 1]) == Link(dest)
    requires ctx.dontResolveFinal && !l.slash ==> i + 1 < |l.names|
    requires Budget(fs, Walk(fs, ctx, l.names[..i], l.names[i..], l.slash, left), nest, depth, left)
    ensures Agrees(FollowLink(sys, ctx, l, i, dest, nest, depth),
                   Walk(fs, ctx, l.names[..i], l.names[i..], l.slash, left), nest, left)
    decreases left, 1
  {
    WalkFollows(fs, ctx, l, i, dest, left);
    var l1 := Spliced(l, i, dest);
    assert NoUpLinks(fs) ==> !UpLink(fs.entry(l.names[..i + 1]));
    SplicedIs(fs, l, i, dest);
    if left > 0 {
      FollowList(sys, fs, ctx, l1, nest + 1, depth, left - 1);
    } else {
      OneTooMany(sys, ctx, l, nest, depth, i, dest);
    }
  }

  /** The expansion that the nesting bound refuses. */
  lemma OneTooMany(sys: System, ctx: Context, l: PathList, nest: nat, depth: nat, i: nat, dest: Target)
    requires i < |l.names| && !HasUp(l.names) && !HasUp(dest.comps) && nest >= MAX_NEST && depth > 0
    ensures FollowLink(sys, ctx, l, i, dest, nest, depth) == TooManyLinks
  {
    var l1 := Spliced(l, i, dest);
    assert !HasUp(l1.names);
    assert Resolve(sys, ctx, l1, nest + 1, depth - 1) == TooManyLinks;
    assert ResolveDirty(sys, ctx, l1, nest + 1, depth) == TooManyLinks;
  }

  /** The spliced list is cleaned, if need be, and resolved. */
  lemma {:induction false} FollowList(sys: System, fs: Fs, ctx: Context, l: PathList,
                                      nest: nat, depth: nat, left: nat)
    requires Setting(sys, fs) && ListOk(fs, ctx, l)
    requires l.known == 0 && 0 < depth
    requires Budget(fs, Walk(fs, ctx, [], l.names, l.slash, left), nest, depth - 1, left)
    requires HasUp(l.names) ==> Walk(fs, ctx, [], l.names, l.slash, left) != Loops
    ensures Agrees(ResolveDirty(sys, ctx, l, nest, depth), Walk(fs, ctx, [], l.names, l.slash, left), nest, left)
    decreases left, 4
  {
    if !HasUp(l.names) {
      FollowClean(sys, fs, ctx, l, nest, depth - 1, left);
    } else {
      var left2 := CleanAgrees(sys, fs, ctx, l, left, depth, CountUps(l.names));
      match CleanDotdots(sys, ctx, l, depth, CountUps(l.names))
      case Clean(l2) => FollowClean(sys, fs, ctx, l2, nest, depth - 1, left2);
      case Dirty(_) =>
    }
  }

  /** Resolution of a clean list, from its first component. */
  lemma {:induction false} FollowClean(sys: System, fs: Fs, ctx: Context, l: PathList,
                                       nest: nat, depth: nat, left: nat)
    requires Setting(sys, fs) && ListOk(fs, ctx, l) && !HasUp(l.names)
    requires Budget(fs, Walk(fs, ctx, [], l.names, l.slash, left), nest, depth, left)
    ensures Agrees(Resolve(sys, ctx, l, nest, depth), Walk(fs, ctx, [], l.names, l.slash, left), nest, left)
    decreases left, 2, |l.names| + 1, 0
  {
    assert l.names[..0] == [] && l.names[0..] == l.names;
    LoopAgrees(sys, fs, ctx, l, nest, depth, 0, left);
  }

  /** Cleaning hands over to resolution exactly where the walk stands, or fails as it does, or
      reports too many links where the walk may have needed more than the engine had. */
  ghost predicate CleanOk(fs: Fs, ctx: Context, c: CleanResult, r: Walked, left: nat, left2: nat) {
    match c
    case Clean(l) =>
      && left2 <= left && ListOk(fs, ctx, l) && !HasUp(l.names)
      && Walk(fs, ctx, [], l.names, l.slash, left2) == r
    case Dirty(why) => (r.Error? && why == Failed(r.errno)) || (why == TooManyLinks && left > MAX_NEST)
  }

  lemma {:induction false} CleanAgrees(sys: System, fs: Fs, ctx: Context, l: PathList,
                                       left: nat, depth: nat, restarts: nat) returns (left2: nat)
    requires Setting(sys, fs) && ListOk(fs, ctx, l)
    requires Walk(fs, ctx, [], l.names, l.slash, left) != Loops && left < depth
    requires restarts + (if l.known < |l.names| && l.names[l.known].Up? then 1 else 0) >= CountUps(l.names)
    ensures CleanOk(fs, ctx, CleanDotdots(sys, ctx, l, depth, restarts),
                    Walk(fs, ctx, [], l.names, l.slash, left), left, left2)
    decreases left, 3, restarts, 1, 0, 0
  {
    var l2 := TrivialUps(l);
    TrivialUpsAgree(fs, ctx, l, left);
    left2 := left;
    if HasUp(l2.names) {
      assert [] + l2.names == l2.names;
      left2 := Step3Agrees(sys, fs, ctx, [], l2.known, l2.names, l2.slash, left, depth, restarts);
    }
  }

  lemma {:induction false} Step3Agrees(sys: System, fs: Fs, ctx: Context,
                                       done: seq<Comp>, known: nat, todo: seq<Comp>, slash: bool,
                                       left: nat, depth: nat, restarts: nat) returns (left2: nat)
    requires Setting(sys, fs) && ListOk(fs, ctx, PathList(done + todo, known, slash))
    requires !HasUp(done)
    requires Walk(fs, ctx, [], done + todo, slash, left) != Loops && left < depth
    requires CountUps(todo) <= restarts
    ensures CleanOk(fs, ctx, Step3(sys, ctx, done, known, todo, slash, depth, restarts),
                    Walk(fs, ctx, [], done + todo, slash, left), left, left2)
    decreases left, 3, restarts, 0, |todo|, 0
  {
    left2 := left;
    if todo == [] {
      assert done + todo == done;
    } else if !todo[0].Up? {
      assert done + [todo[0]] + todo[1..] == done + todo;
      left2 := Step3Agrees(sys, fs, ctx, done + [todo[0]], known, todo[1..], slash, left, depth, restarts);
    } else {
      var rest, pctx := todo[1..], ParentContext(ctx);
      assert todo == [Up] + rest;
      WalkUp(fs, ctx, [], done, rest, slash, slash, left);
      WalkSpends(fs, pctx, [], done, slash, left);
      FollowClean(sys, fs, pctx, PathList(done, 0, slash), 0, depth - 1, left);
      var r := Walk(fs, pctx, [], done, slash, left);
      var o := Resolve(sys, pctx, PathList(done, 0, slash), 0, depth - 1);
      if r.Arrived? && o.Resolved? {
        left2 := AfterResolvedParent(sys, fs, ctx, done, known, rest, slash, r.names, r.left, depth, restarts);
      }
    }
  }

  /** The parent of a ".." has been resolved: to itself, or to other names, which are then
      put in its place. */
  lemma {:induction false} AfterResolvedParent(sys: System, fs: Fs, ctx: Context,
                                               done: seq<Comp>, known: nat, rest: seq<Comp>, slash: bool,
                                               actual: seq<Comp>, left: nat, depth: nat, restarts: nat)
    returns (left2: nat)
    requires Setting(sys, fs) && ListOk(fs, ctx, PathList(done + ([Up] + rest), known, slash))
    requires !HasUp(done)
    requires Real(fs, ctx, actual) && DirOk(fs, ctx, actual)
    requires Walk(fs, ctx, Init(actual), rest, slash || rest == [], left) != Loops && left < depth
    requires CountUps([Up] + rest) <= restarts
    requires
      var o := Resolve(sys, ParentContext(ctx), PathList(done, 0, slash), 0, depth - 1);
      o.Resolved? && o.names == actual
    ensures CleanOk(fs, ctx, Step3(sys, ctx, done, known, [Up] + rest, slash, depth, restarts),
                    Walk(fs, ctx, Init(actual), rest, slash || rest == [], left), left, left2)
    decreases left, 3, restarts, 0, |rest|, 3
  {
    var todo := [Up] + rest;
    var o := Resolve(sys, ParentContext(ctx), PathList(done, 0, slash), 0, depth - 1);
    assert todo[0] == Up && todo[1..] == rest;
    if PrintsSame(o.names, o.slash, done, slash) {
      left2 := ParentIsItself(sys, fs, ctx, done, known, rest, slash, left, depth, restarts);
    } else {
      left2 := ParentIsElsewhere(sys, fs, ctx, rest, slash, actual, left, depth, restarts - 1);
    }
  }

  lemma {:induction false} ParentIsItself(sys: System, fs: Fs, ctx: Context,
                                          done: seq<Comp>, known: nat, rest: seq<Comp>, slash: bool,
                                          left: nat, depth: nat, restarts: nat)
    returns (left2: nat)
    requires Setting(sys, fs) && ListOk(fs, ctx, PathList(done + ([Up] + rest), known, slash))
    requires Real(fs, ctx, done)
    requires Walk(fs, ctx, Init(done), rest, slash || rest == [], left) != Loops && left < depth
    requires CountUps([Up] + rest) <= restarts
    ensures CleanOk(fs, ctx, Step3(sys, ctx, Init(done), Min(known, |Init(done)|), rest,
                                   slash || rest == [], depth, restarts),
                    Walk(fs, ctx, Init(done), rest, slash || rest == [], left), left, left2)
    decreases left, 3, restarts, 0, |rest|, 2
  {
    assert ([Up] + rest)[1..] == rest;
    RealInit(fs, ctx, done);
    RewalkAll(fs, ctx, Init(done), rest, slash || rest == [], left);
    ListOkAfterPop(fs, ctx, done, known, rest, slash || rest == []);
    left2 := Step3Agrees(sys, fs, ctx, Init(done), Min(known, |Init(done)|), rest,
                         slash || rest == [], left, depth, restarts);
  }

  lemma {:induction false} ParentIsElsewhere(sys: System, fs: Fs, ctx: Context,
                                             rest: seq<Comp>, slash: bool, actual: seq<Comp>,
                                             left: nat, depth: nat, restarts: nat)
    returns (left2: nat)
    requires Setting(sys, fs)
    requires Real(fs, ctx, actual) && DirOk(fs, ctx, actual)
    requires Walk(fs, ctx, Init(actual), rest, slash || rest == [], left) != Loops && left < depth
    requires CountUps([Up] + rest) <= restarts + 1
    ensures CleanOk(fs, ctx, CleanDotdots(sys, ctx,
                                          PathList(actual + ([Up] + rest), |actual|, slash), depth, restarts),
                    Walk(fs, ctx, Init(actual), rest, slash || rest == [], left), left, left2)
    decreases left, 3, restarts, 2, 0, 0
  {
    var todo := [Up] + rest;
    var l := PathList(actual + todo, |actual|, slash);
    assert todo[0] == Up && todo[1..] == rest;
    assert l.names[..|actual|] == actual && l.names[|actual|] == Up;
    RewalkAll(fs, ctx, actual, todo, slash, left);
    CountAppend(actual, todo);
    CountZero(actual);
    left2 := CleanAgrees(sys, fs, ctx, l, left, depth, restarts);
  }

  lemma ListOkAfterPop(fs: Fs, ctx: Context, done: seq<Comp>, known: nat, rest: seq<Comp>, slash: bool)
    requires Consistent(fs) && Real(fs, ctx, done)
    requires known <= |done + ([Up] + rest)| && Real(fs, ctx, (done + ([Up] + rest))[..known])
          && DirOk(fs, ctx, (done + ([Up] + rest))[..known])
    ensures ListOk(fs, ctx, PathList(Init(done) + rest, Min(known, |Init(done)|), slash))
  {
    var names, names', known' := done + ([Up] + rest), Init(done) + rest, Min(known, |Init(done)|);
    if known' == known {
      assert names'[..known'] == names[..known];
    } else {
      RealInit(fs, ctx, done);
      assert names'[..known'] == Init(done);
    }
  }

  // ---------------------------------------------------------------- the result

  /** A path list that has not been looked at yet. Where the walk gets by with 16 expansions
      the engine gives its answer. Where it needs more, whatever the number, the engine gives
      its answer or reports too many links; a stack with room for them is never exhausted. */
  lemma EngineIsWalk(sys: System, fs: Fs, ctx: Context, names: seq<Comp>, slash: bool, depth: nat, budget: nat)
    requires Setting(sys, fs) && depth >= budget + 2
    requires Walk(fs, ctx, [], names, slash, budget) == Loops ==>
             budget == MAX_NEST && NoUpLinks(fs) && !HasUp(names)
    ensures
      var o, r := ResolveDirty(sys, ctx, PathList(names, 0, slash), 0, depth), Walk(fs, ctx, [], names, slash, budget);
      && (Seen(o) == Said(r) || (o == TooManyLinks && budget > MAX_NEST))
      && o != OutOfStack
  {
    var l := PathList(names, 0, slash);
    assert l.names[..0] == [];
    FollowList(sys, fs, ctx, l, 0, depth, budget);
  }
}
