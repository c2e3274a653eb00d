/** Where the engine departs from the reference walk. */
module Limits {
  import opened Resolution
  import opened Reference
  import opened NaturalWalk
  import opened ResolutionTheorem

  // ---------------------------------------------------------------- ".." restarts the count

  /** Cleaning ".." out of a link's target resolves the part before it with the link count
      set back to zero. A link to its own parent, a -> "a/..", therefore exhausts any stack,
      where the walk reports too many links. */
  lemma {:induction false} SelfParentLinkDiverges(sys: System, fs: Fs, ctx: Context, a: Comp, tail: bool,
                                                  slash: bool, nest: nat, depth: nat)
    requires Uniform(sys, fs) && a.Name? && fs.entry([a]) == Link(Target(false, [a, Up], tail, false))
    requires slash || !ctx.dontResolveFinal
    requires nest <= MAX_NEST
    ensures Resolve(sys, ctx, PathList([a], 0, slash), nest, depth) == OutOfStack
    decreases depth
  {
    var l, dest := PathList([a], 0, slash), Target(false, [a, Up], tail, false);
    assert [a][..1] == [a];
    assert Resolve(sys, ctx, l, nest, depth) == FollowLink(sys, ctx, l, 0, dest, nest, depth);
    if depth > 0 {
      var l1 := Spliced(l, 0, dest);
      assert l1 == PathList([a, Up], 0, slash || tail);
      SelfParentLinkDiverges(sys, fs, ParentContext(ctx), a, tail, l1.slash, 0, depth - 1);
      CleanMeetsParent(sys, ctx, a, l1.slash, depth, CountUps(l1.names));
      assert HasUp(l1.names) by {
        assert l1.names[1] == Up;
      }
      assert ResolveDirty(sys, ctx, l1, nest + 1, depth) == OutOfStack;
    }
  }

  /** Cleaning "a/.." begins by resolving "a". */
  lemma CleanMeetsParent(sys: System, ctx: Context, a: Comp, slash: bool, depth: nat, restarts: nat)
    requires a.Name? && 0 < depth
    requires !Resolve(sys, ParentContext(ctx), PathList([a], 0, slash), 0, depth - 1).Resolved?
    ensures CleanDotdots(sys, ctx, PathList([a, Up], 0, slash), depth, restarts) ==
            Dirty(Resolve(sys, ParentContext(ctx), PathList([a], 0, slash), 0, depth - 1))
  {
    var l := PathList([a, Up], 0, slash);
    assert Step1(l) == l;
    assert l.names[1] == Up;
    assert l.names[..0] == [] && l.names[0..] == l.names;
    assert l.names[1..] == [Up] && [] + [a] == [a] && [Up][1..] == [] && [a] + [Up] == [a, Up];
    assert Step2([a], 0, [Up], slash) == Step2([a, Up], 0, [], slash);
    assert Step2([], 0, l.names, slash) == l;
    assert Step3(sys, ctx, [], 0, l.names, slash, depth, restarts)
        == Step3(sys, ctx, [a], 0, [Up], slash, depth, restarts);
  }

  lemma {:induction false} SelfParentLinkLoops(fs: Fs, ctx: Context, a: Comp, tail: bool, ups: seq<Comp>,
                                               slash: bool, left: nat)
    requires a.Name? && fs.entry([a]) == Link(Target(false, [a, Up], tail, false))
    requires ups != [] || slash || !ctx.dontResolveFinal
    ensures Walk(fs, ctx, [], [a] + ups, slash, left) == Loops
    decreases left
  {
    var todo := [a] + ups;
    assert todo[0] == a && todo[1..] == ups && [] + [a] == [a];
    if left > 0 {
      var dest := Target(false, [a, Up], tail, false);
      SelfParentLinkLoops(fs, ctx, a, tail, [Up] + ups, SlashAfter(fs, dest, ups, slash), left - 1);
      assert [a, Up] + ups == [a] + ([Up] + ups);
    }
  }

  // ---------------------------------------------------------------- what an expansion loses

  /** The target followed by the rest of the path: what an expansion should leave to walk. */
  function Whole(l: PathList, i: nat, dest: Target): seq<Comp>
    requires i < |l.names|
  {
    (if dest.abs then [] else l.names[..i]) + dest.comps + l.names[i + 1..]
  }

  /** An expansion keeps the rest of the path exactly when there is none, or the target is
      not made of slashes only. */
  lemma RestIsKeptIff(l: PathList, i: nat, dest: Target)
    requires i < |l.names| && (dest.bare ==> dest.comps == [])
    ensures Spliced(l, i, dest).names == Whole(l, i, dest) <==>
            (i + 1 == |l.names| || !dest.abs || !dest.bare)
  {
    var rest := l.names[i + 1..];
    if dest.abs {
      assert Whole(l, i, dest) == dest.comps + rest;
      if dest.bare {
        assert Spliced(l, i, dest).names == [];
        assert |Whole(l, i, dest)| == |rest|;
      }
    } else {
      assert l.names[..i] + dest.comps + rest == l.names[..i] + (dest.comps + rest);
    }
  }

  /** A link a -> "/" below which a name is looked up: the engine answers with the root
      directory, a natural walk with the name. */
  lemma BareLinkLosesTheRest(sys: System, fs: Fs, ctx: Context, a: Comp, c: Comp, depth: nat)
    requires Uniform(sys, fs) && a.Name? && c.Name? && depth > 0
    requires fs.entry([a]) == Link(Target(true, [], true, true)) && fs.entry([c]) == NotLink
    requires !ctx.mustBeDirectory
    ensures Resolve(sys, ctx, PathList([a, c], 0, false), 0, depth) == Resolved([], false)
    ensures Walk(Natural(fs), ctx, [], [a, c], false, MAX_NEST) == Arrived([c], false, MAX_NEST - 1)
  {
    var l, dest := PathList([a, c], 0, false), Target(true, [], true, true);
    assert l.names[..1] == [a] && [] + [a] == [a] && [a, c][1..] == [c] && [] + [c] == [c];
    assert Spliced(l, 0, dest) == PathList([], 0, false);
    assert Resolve(sys, ctx, PathList([], 0, false), 1, depth - 1) == Resolved([], false);
    assert FollowLink(sys, ctx, l, 0, dest, 0, depth) == Resolved([], false);
    assert [c][1..] == [] && !HasUp([c]);
    assert Walk(Natural(fs), ctx, [], [c], false, MAX_NEST - 1) == Arrived([c], false, MAX_NEST - 1);
  }

  /** A slash at the end asks for the final link to be followed even in calls that leave it
      alone; an absolute link on the way drops that slash. With a -> "/b" and b a link to c,
      a path "a/" stops at b. */
  lemma AbsoluteLinkDropsTheSlash(sys: System, fs: Fs, ctx: Context, a: Comp, b: Comp, c: Comp, depth: nat)
    requires Uniform(sys, fs) && a.Name? && b.Name? && c.Name? && depth > 0
    requires fs.entry([a]) == Link(Target(true, [b], false, false))
    requires fs.entry([b]) == Link(Target(false, [c], false, false)) && fs.entry([c]) == NotLink
    requires ctx.dontResolveFinal && !ctx.mustBeDirectory
    ensures Resolve(sys, ctx, PathList([a], 0, true), 0, depth) == Resolved([b], false)
    ensures Walk(Natural(fs), ctx, [], [a], true, MAX_NEST) == Arrived([c], true, MAX_NEST - 2)
  {
    var l, dest, n := PathList([a], 0, true), Target(true, [b], false, false), Natural(fs);
    assert l.names[..1] == [a] && [] + [a] == [a] && [] + [b] == [b] && [] + [c] == [c];
    assert [b] + [] == [b] && [c] + [] == [c] && [a][1..] == [] && [b][1..] == [] && [c][1..] == [];
    assert Spliced(l, 0, dest) == PathList([b], 0, false);
    assert Resolve(sys, ctx, PathList([b], 0, false), 1, depth - 1) == Resolved([b], false);
    assert FollowLink(sys, ctx, l, 0, dest, 0, depth) == Resolved([b], false);
    assert Walk(n, ctx, [], [c], true, MAX_NEST - 2) == Arrived([c], true, MAX_NEST - 2);
    assert Walk(n, ctx, [], [b], true, MAX_NEST - 1) == Arrived([c], true, MAX_NEST - 2);
  }
}
