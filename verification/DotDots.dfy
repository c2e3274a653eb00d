/** Removing ".." from a path list, with a flag on each entry: the three steps of
    clean_dotdots_from_path on the entries themselves (pathmapping/pathresolution.c). */
module DotDots {
  import opened Options
  import opened Resolution

  /** `flagged`: the entry carries PATH_FLAGS_NOT_SYMLINK. */
  datatype Entry = Entry(comp: Comp, flagged: bool)

  datatype Cleaned = Cleaned(entries: seq<Entry>, slash: bool) | Stuck(why: Outcome)

  /** Resolves what stands before a "..". */
  type Parent = (seq<Comp>, bool) -> Outcome

  function Comps(es: seq<Entry>): (cs: seq<Comp>)
    ensures |cs| == |es|
  {
    if es == [] then [] else [es[0].comp] + Comps(es[1..])
  }

  function Flagged(cs: seq<Comp>): (es: seq<Entry>)
    ensures |es| == |cs|
  {
    if cs == [] then [] else [Entry(cs[0], true)] + Flagged(cs[1..])
  }

  predicate Unclean(es: seq<Entry>) {
    exists i :: 0 <= i < |es| && es[i].comp.Up?
  }

  predicate LastIsUp(es: seq<Entry>) {
    es != [] && es[|es| - 1].comp.Up?
  }

  /** Step 1, at the front of the list. */
  function Drop(es: seq<Entry>): seq<Entry> {
    if es != [] && es[0].comp.Up? then Drop(es[1..]) else es
  }

  function DropSlash(es: seq<Entry>, slash: bool): bool {
    slash || (es != [] && Drop(es) == [])
  }

  /** Step 2, having passed the entries `done`. */
  function Cancel(done: seq<Entry>, todo: seq<Entry>, slash: bool): (c: Cleaned)
    ensures c.Cleaned?
    decreases |todo|
  {
    if todo == [] then Cleaned(done, slash)
    else if todo[0].comp.Up? && (done == [] || done[|done| - 1].flagged) then
      Cancel(Init(done), todo[1..], slash || |todo| == 1)
    else Cancel(done + [todo[0]], todo[1..], slash)
  }

  predicate IsItself(parent: Parent, p: seq<Entry>, slash: bool) {
    var o := parent(Comps(p), slash);
    o.Resolved? && PrintsSame(o.names, o.slash, Comps(p), slash)
  }

  /** Step 3, having passed the entries `done`. What is handed to `parent` is always clean. */
  function Settle(parent: Parent, done: seq<Entry>, todo: seq<Entry>, slash: bool, restarts: nat): Cleaned
    requires !Unclean(done)
    decreases restarts, 0, |todo|
  {
    if todo == [] then Cleaned(done, slash)
    else if !todo[0].comp.Up? then Settle(parent, done + [todo[0]], todo[1..], slash, restarts)
    else
      var p := parent(Comps(done), slash);
      if !p.Resolved? then Stuck(p)
      else if PrintsSame(p.names, p.slash, Comps(done), slash) then
        Settle(parent, Init(done), todo[1..], slash || |todo| == 1, restarts)
      else if restarts == 0 then Stuck(OutOfStack)
      else CleanEntries(parent, Flagged(p.names) + todo, slash, restarts - 1)
  }

  /** Steps 1 and 2. */
  function TrivialEntries(es: seq<Entry>, slash: bool): (c: Cleaned)
    ensures c.Cleaned?
  {
    var es1, slash1 := Drop(es), DropSlash(es, slash);
    if Unclean(es1) then Cancel([], es1, slash1) else Cleaned(es1, slash1)
  }

  function CleanEntries(parent: Parent, es: seq<Entry>, slash: bool, restarts: nat): Cleaned
    decreases restarts, 1, 0
  {
    var c := TrivialEntries(es, slash);
    if !Unclean(c.entries) then c else Settle(parent, [], c.entries, c.slash, restarts)
  }

  // ---------------------------------------------------------------- stack normalization

  /** ".." pops, and does nothing at the root. */
  function Normal(stack: seq<Comp>, todo: seq<Comp>): seq<Comp>
    decreases |todo|
  {
    if todo == [] then stack
    else Normal(if todo[0].Up? then Init(stack) else stack + [todo[0]], todo[1..])
  }

  /** The same on entries, as long as every parent of a ".." on the way resolves to itself. */
  function Pop(parent: Parent, stack: seq<Entry>, todo: seq<Entry>): Option<seq<Entry>>
    decreases |todo|
  {
    if todo == [] then Some(stack)
    else if !todo[0].comp.Up? then Pop(parent, stack + [todo[0]], todo[1..])
    else if IsItself(parent, stack, true) && IsItself(parent, stack, false) then
      Pop(parent, Init(stack), todo[1..])
    else None
  }

  lemma {:induction false} CompsSnoc(a: seq<Entry>, e: Entry)
    ensures Comps(a + [e]) == Comps(a) + [e.comp]
  {
    if a == [] {
      assert a + [e] == [e] && Comps([e]) == [e.comp] + Comps([]);
    } else {
      assert (a + [e])[1..] == a[1..] + [e];
      CompsSnoc(a[1..], e);
    }
  }

  lemma {:induction false} CompsInit(a: seq<Entry>)
    ensures Comps(Init(a)) == Init(Comps(a))
  {
    if a != [] {
      var e := a[|a| - 1];
      assert a == Init(a) + [e];
      CompsSnoc(Init(a), e);
    }
  }

  lemma {:induction false} PopIsNormal(parent: Parent, stack: seq<Entry>, todo: seq<Entry>)
    requires Pop(parent, stack, todo).Some?
    ensures Comps(Pop(parent, stack, todo).value) == Normal(Comps(stack), Comps(todo))
    decreases |todo|
  {
    if todo != [] {
      assert Comps(todo) == [todo[0].comp] + Comps(todo[1..]);
      CompsSnoc(stack, todo[0]);
      CompsInit(stack);
      PopIsNormal(parent, if todo[0].comp.Up? then Init(stack) else stack + [todo[0]], todo[1..]);
    }
  }

  lemma {:induction false} PopAppend(parent: Parent, stack: seq<Entry>, a: seq<Entry>, b: seq<Entry>)
    ensures Pop(parent, stack, a + b) ==
            match Pop(parent, stack, a) case None => None case Some(mid) => Pop(parent, mid, b)
    decreases |a|
  {
    if a == [] {
      assert a + b == b;
    } else {
      assert (a + b)[1..] == a[1..] + b;
      PopAppend(parent, if a[0].comp.Up? then Init(stack) else stack + [a[0]], a[1..], b);
    }
  }

  lemma {:induction false} PopIsClean(parent: Parent, stack: seq<Entry>, todo: seq<Entry>)
    requires !Unclean(stack)
    ensures
      var r := Pop(parent, stack, todo);
      && (r.Some? ==> !Unclean(r.value))
      && (!Unclean(todo) ==> r == Some(stack + todo))
    decreases |todo|
  {
    if todo == [] {
      assert stack + todo == stack;
    } else {
      PopIsClean(parent, if todo[0].comp.Up? then Init(stack) else stack + [todo[0]], todo[1..]);
      assert stack + [todo[0]] + todo[1..] == stack + todo;
    }
  }

  /** A name followed by ".." is nothing. */
  lemma {:induction false} PopPair(parent: Parent, front: seq<Entry>, c: Entry, up: Entry, back: seq<Entry>)
    requires c.comp.Name? && up.comp.Up? && Pop(parent, [], front + [c] + ([up] + back)).Some?
    ensures Pop(parent, [], front + back) == Pop(parent, [], front + [c] + ([up] + back))
  {
    PopAppend(parent, [], front + [c], [up] + back);
    PopAppend(parent, [], front, [c]);
    PopAppend(parent, [], front, back);
    assert [c][1..] == [] && ([up] + back)[1..] == back;
    var stack := Pop(parent, [], front).value;
    assert Init(stack + [c]) == stack;
  }

  // ---------------------------------------------------------------- the three steps

  /** No flag sits on a "..". */
  predicate FlagsOnNames(es: seq<Entry>) {
    forall i :: 0 <= i < |es| && es[i].flagged ==> es[i].comp.Name?
  }

  lemma {:induction false} DropPops(parent: Parent, es: seq<Entry>)
    requires Pop(parent, [], es).Some? && FlagsOnNames(es)
    ensures
      var d := Drop(es);
      && Pop(parent, [], d) == Pop(parent, [], es)
      && FlagsOnNames(d)
      && LastIsUp(es) == (if d == [] then es != [] else LastIsUp(d))
  {
    if es != [] && es[0].comp.Up? {
      DropPops(parent, es[1..]);
    }
  }

  lemma CancelHead(done: seq<Entry>, todo: seq<Entry>, slash: bool)
    requires todo != []
    ensures Cancel(done, todo, slash) ==
            if todo[0].comp.Up? && (done == [] || done[|done| - 1].flagged)
            then Cancel(Init(done), todo[1..], slash || |todo| == 1)
            else Cancel(done + [todo[0]], todo[1..], slash)
  {
  }

  /** A ".." takes the flagged entry before it away, if there is one. */
  lemma PopTop(parent: Parent, done: seq<Entry>, e: Entry, rest: seq<Entry>)
    requires FlagsOnNames(done) && e.comp.Up? && (done == [] || done[|done| - 1].flagged)
    requires Pop(parent, [], done + ([e] + rest)).Some?
    ensures Pop(parent, [], done + ([e] + rest)) == Pop(parent, [], Init(done) + rest)
  {
    if done == [] {
      assert done + ([e] + rest) == [e] + rest && Init(done) + rest == rest && ([e] + rest)[1..] == rest;
    } else {
      var c := done[|done| - 1];
      assert done + ([e] + rest) == Init(done) + [c] + ([e] + rest);
      PopPair(parent, Init(done), c, e, rest);
    }
  }

  lemma {:induction false} CancelPops(parent: Parent, done: seq<Entry>, todo: seq<Entry>, slash: bool)
    requires FlagsOnNames(done) && FlagsOnNames(todo) && Pop(parent, [], done + todo).Some?
    ensures Pop(parent, [], Cancel(done, todo, slash).entries) == Pop(parent, [], done + todo)
    decreases |todo|
  {
    if todo == [] {
      assert done + todo == done;
    } else {
      hide Cancel, Pop;
      CancelHead(done, todo, slash);
      var e, rest := todo[0], todo[1..];
      assert todo == [e] + rest;
      if e.comp.Up? && (done == [] || done[|done| - 1].flagged) {
        PopTop(parent, done, e, rest);
        CancelPops(parent, Init(done), rest, slash || |todo| == 1);
      } else {
        assert done + [e] + rest == done + todo;
        CancelPops(parent, done + [e], rest, slash);
      }
    }
  }

  lemma {:induction false} CancelSlash(done: seq<Entry>, todo: seq<Entry>, slash: bool)
    ensures
      var c := Cancel(done, todo, slash);
      c.slash || LastIsUp(c.entries) <==> slash || LastIsUp(if todo == [] then done else todo)
    decreases |todo|
  {
    if todo != [] {
      var rest := todo[1..];
      assert rest != [] ==> rest[|rest| - 1] == todo[|todo| - 1];
      if todo[0].comp.Up? && (done == [] || done[|done| - 1].flagged) {
        CancelSlash(Init(done), rest, slash || |todo| == 1);
      } else {
        CancelSlash(done + [todo[0]], rest, slash);
        assert (done + [todo[0]])[|done|] == todo[0];
      }
    }
  }

  lemma {:induction false} SettlePops(parent: Parent, done: seq<Entry>, todo: seq<Entry>, slash: bool, restarts: nat)
    requires !Unclean(done) && Pop(parent, done, todo).Some?
    ensures
      var c := Settle(parent, done, todo, slash, restarts);
      && c.Cleaned? && Some(c.entries) == Pop(parent, done, todo)
      && (c.slash <==> slash || LastIsUp(todo))
    decreases |todo|
  {
    if todo != [] {
      if todo[0].comp.Up? {
        SettlePops(parent, Init(done), todo[1..], slash || |todo| == 1, restarts);
      } else {
        SettlePops(parent, done + [todo[0]], todo[1..], slash, restarts);
      }
    }
  }

  /** When the parents of all ".." resolve to themselves, the three steps come to stack
      normalization, whichever names are flagged, and the list is marked as ending in a slash
      exactly when its last component was "..". */
  lemma {:induction false} CleaningIsNormalization(parent: Parent, es: seq<Entry>, slash: bool, restarts: nat)
    requires FlagsOnNames(es) && Pop(parent, [], es).Some?
    ensures
      var c := CleanEntries(parent, es, slash, restarts);
      && c.Cleaned? && Comps(c.entries) == Normal([], Comps(es)) && !Unclean(c.entries)
      && (c.slash <==> slash || LastIsUp(es))
  {
    PopIsNormal(parent, [], es);
    PopIsClean(parent, [], es);
    CleaningPops(parent, es, slash, restarts);
  }

  lemma {:induction false} CleaningPops(parent: Parent, es: seq<Entry>, slash: bool, restarts: nat)
    requires FlagsOnNames(es) && Pop(parent, [], es).Some?
    ensures
      var c := CleanEntries(parent, es, slash, restarts);
      c.Cleaned? && Some(c.entries) == Pop(parent, [], es) && (c.slash <==> slash || LastIsUp(es))
  {
    var es1, slash1 := Drop(es), DropSlash(es, slash);
    DropPops(parent, es);
    if !Unclean(es1) {
      CleanPops(parent, es1);
    } else {
      var c := Cancel([], es1, slash1);
      assert [] + es1 == es1;
      CancelSlash([], es1, slash1);
      CancelPops(parent, [], es1, slash1);
      if !Unclean(c.entries) {
        CleanPops(parent, c.entries);
      } else {
        SettlePops(parent, [], c.entries, c.slash, restarts);
      }
    }
  }

  lemma {:induction false} CleanPops(parent: Parent, es: seq<Entry>)
    requires !Unclean(es)
    ensures Pop(parent, [], es) == Some(es) && !LastIsUp(es)
  {
    PopIsClean(parent, [], es);
    assert [] + es == es;
  }

  // ---------------------------------------------------------------- the engine's lists

  /** The entries of a list whose first `known` components carry the flag. */
  function Mark(names: seq<Comp>, known: nat): (es: seq<Entry>)
    ensures |es| == |names|
  {
    if names == [] then []
    else [Entry(names[0], known > 0)] + Mark(names[1..], if known > 0 then known - 1 else 0)
  }

  function Beyond(known: nat, n: nat): nat {
    if known > n then known - n else 0
  }

  lemma {:induction false} MarkAppend(a: seq<Comp>, b: seq<Comp>, known: nat)
    ensures Mark(a + b, known) == Mark(a, known) + Mark(b, Beyond(known, |a|))
    decreases |a|
  {
    if a == [] {
      assert a + b == b;
    } else {
      assert (a + b)[1..] == a[1..] + b;
      MarkAppend(a[1..], b, Beyond(known, 1));
    }
  }

  lemma {:induction false} MarkSnoc(a: seq<Comp>, c: Comp, known: nat)
    ensures Mark(a + [c], known) == Mark(a, known) + [Entry(c, known > |a|)]
  {
    MarkAppend(a, [c], known);
    assert [c][1..] == [];
  }

  lemma {:induction false} MarkInit(a: seq<Comp>, known: nat)
    ensures Mark(Init(a), known) == Init(Mark(a, known))
    ensures a != [] ==> Mark(a, known)[|a| - 1] == Entry(a[|a| - 1], known >= |a|)
  {
    if a != [] {
      MarkSnoc(Init(a), a[|a| - 1], known);
      assert a == Init(a) + [a[|a| - 1]];
    }
  }

  /** Flags behind the end are of no account. */
  lemma {:induction false} MarkAll(a: seq<Comp>, known: nat)
    ensures known >= |a| ==> Mark(a, known) == Mark(a, |a|)
    ensures Mark(a, Min(known, |a|)) == Mark(a, known)
    ensures Comps(Mark(a, known)) == a
    ensures Mark(a, |a|) == Flagged(a)
    decreases |a|
  {
    if a != [] {
      MarkAll(a[1..], Beyond(known, 1));
      assert [a[0]] + a[1..] == a;
    }
  }

  lemma {:induction false} MarkUnclean(a: seq<Comp>, known: nat)
    ensures Unclean(Mark(a, known)) <==> HasUp(a)
    ensures forall i :: 0 <= i < |a| ==> Mark(a, known)[i].comp == a[i]
    decreases |a|
  {
    if a != [] {
      MarkUnclean(a[1..], Beyond(known, 1));
      if HasUp(a) {
        var i :| 0 <= i < |a| && a[i].Up?;
        assert Mark(a, known)[i].comp.Up?;
      }
    }
  }

  lemma {:induction false} DropMark(names: seq<Comp>, known: nat)
    requires known > 0 ==> names == [] || names[0].Name?
    ensures Drop(Mark(names, known)) == Mark(DropLeading(names), known)
    ensures DropSlash(Mark(names, known), false) == (names != [] && DropLeading(names) == [])
  {
    if names != [] && names[0].Up? {
      DropMark(names[1..], 0);
    }
  }

  /** Step 2 passes the flagged front. */
  lemma {:induction false} CancelFront(done: seq<Entry>, front: seq<Comp>, rest: seq<Entry>, slash: bool)
    requires !HasUp(front)
    ensures Cancel(done, Flagged(front) + rest, slash) == Cancel(done + Flagged(front), rest, slash)
    decreases |front|
  {
    if front == [] {
      assert Flagged(front) + rest == rest && done + Flagged(front) == done;
    } else {
      var e := Entry(front[0], true);
      assert (Flagged(front) + rest)[1..] == Flagged(front[1..]) + rest;
      assert done + [e] + Flagged(front[1..]) == done + Flagged(front);
      CancelFront(done + [e], front[1..], rest, slash);
    }
  }

  function AsCleaned(l: PathList): Cleaned {
    Cleaned(Mark(l.names, l.known), l.slash)
  }

  lemma {:induction false} CancelMark(done: seq<Comp>, known: nat, todo: seq<Comp>, slash: bool)
    requires known <= |done|
    ensures Cancel(Mark(done, known), Mark(todo, 0), slash) == AsCleaned(Step2(done, known, todo, slash))
    decreases |todo|
  {
    if todo != [] {
      MarkInit(done, known);
      MarkAll(Init(done), known);
      MarkSnoc(done, todo[0], known);
      if todo[0].Up? && known >= |done| {
        CancelMark(Init(done), |Init(done)|, todo[1..], slash || |todo| == 1);
      } else {
        CancelMark(done + [todo[0]], known, todo[1..], slash);
      }
    }
  }

  /** The flagged front has no "..". */
  predicate FrontIsNames(l: PathList) {
    l.known <= |l.names| && !HasUp(l.names[..l.known])
  }

  lemma {:induction false} Step2Front(done: seq<Comp>, known: nat, todo: seq<Comp>, slash: bool)
    requires known <= |done| && !HasUp(done[..known])
    ensures FrontIsNames(Step2(done, known, todo, slash))
    decreases |todo|
  {
    if todo != [] {
      if todo[0].Up? && known >= |done| {
        assert Init(done)[..|Init(done)|] == Init(done) && done[..known] == done;
        Step2Front(Init(done), |Init(done)|, todo[1..], slash || |todo| == 1);
      } else {
        assert (done + [todo[0]])[..known] == done[..known];
        Step2Front(done + [todo[0]], known, todo[1..], slash);
      }
    }
  }

  lemma {:induction false} FrontStays(l: PathList)
    requires FrontIsNames(l)
    ensures l.known > 0 ==> l.names != [] && l.names[0].Name? && DropLeading(l.names) == l.names
    ensures FrontIsNames(TrivialUps(l))
  {
    var names1, k := DropLeading(l.names), l.known;
    if k > 0 {
      assert l.names[..k][0] == l.names[0];
    }
    if HasUp(names1) {
      assert names1[..k][..k] == names1[..k];
      Step2Front(names1[..k], k, names1[k..], Step1(l).slash);
    }
  }

  lemma {:induction false} CancelWhole(names: seq<Comp>, known: nat, slash: bool)
    requires known <= |names| && !HasUp(names[..known])
    ensures Cancel([], Mark(names, known), slash) == AsCleaned(Step2(names[..known], known, names[known..], slash))
  {
    hide Mark, Cancel, Step2, Flagged;
    var front, back := names[..known], names[known..];
    assert front + back == names;
    MarkAppend(front, back, known);
    MarkAll(front, known);
    CancelFront([], front, Mark(back, 0), slash);
    assert [] + Flagged(front) == Flagged(front);
    CancelMark(front, known, back, slash);
  }

  lemma {:induction false} TrivialMark(l: PathList)
    requires FrontIsNames(l)
    ensures AsCleaned(TrivialUps(l)) == TrivialEntries(Mark(l.names, l.known), l.slash)
  {
    hide Mark, Cancel, Step2, Drop, DropLeading, HasUp, Unclean;
    var names1, k := DropLeading(l.names), l.known;
    FrontStays(l);
    DropMark(l.names, k);
    MarkUnclean(names1, k);
    if HasUp(names1) {
      CancelWhole(names1, k, Step1(l).slash);
    }
  }

  /** How the engine resolves the parent of a "..". */
  function ParentOf(sys: System, ctx: Context, depth: nat): Parent
    requires 0 < depth
  {
    (p: seq<Comp>, slash: bool) => Resolve(sys, ParentContext(ctx), PathList(p, 0, slash), 0, depth - 1)
  }

  function Marked(c: CleanResult): Cleaned {
    match c
    case Clean(l) => AsCleaned(l)
    case Dirty(why) => Stuck(why)
  }

  lemma {:induction false} SettleMark(sys: System, ctx: Context, done: seq<Comp>, known: nat, todo: seq<Comp>,
                                      slash: bool, depth: nat, restarts: nat)
    requires 0 < depth && !HasUp(done) && FrontIsNames(PathList(done + todo, known, slash))
    ensures !Unclean(Mark(done, known))
    ensures Settle(ParentOf(sys, ctx, depth), Mark(done, known), Mark(todo, Beyond(known, |done|)), slash, restarts)
         == Marked(Step3(sys, ctx, done, known, todo, slash, depth, restarts))
    decreases restarts, 0, |todo|, 1
  {
    hide CleanEntries, CleanDotdots, Resolve, Comps;
    MarkUnclean(done, known);
    MarkAll(done, known);
    if todo != [] {
      MarkSnoc(done, todo[0], known);
      if !todo[0].Up? {
        assert done + [todo[0]] + todo[1..] == done + todo;
        SettleMark(sys, ctx, done + [todo[0]], known, todo[1..], slash, depth, restarts);
      } else {
        SettleMarkUp(sys, ctx, done, known, todo, slash, depth, restarts);
      }
    }
  }

  lemma {:induction false} SettleMarkUp(sys: System, ctx: Context, done: seq<Comp>, known: nat, todo: seq<Comp>,
                                        slash: bool, depth: nat, restarts: nat)
    requires 0 < depth && !HasUp(done) && FrontIsNames(PathList(done + todo, known, slash))
    requires todo != [] && todo[0].Up? && !Unclean(Mark(done, known)) && Comps(Mark(done, known)) == done
    ensures Settle(ParentOf(sys, ctx, depth), Mark(done, known), Mark(todo, Beyond(known, |done|)), slash, restarts)
         == Marked(Step3(sys, ctx, done, known, todo, slash, depth, restarts))
    decreases restarts, 0, |todo|, 0
  {
    hide Mark, Flagged, CleanEntries, CleanDotdots, Resolve, Comps;
    UpIsBeyond(done, known, todo);
    MarkHead(todo, Beyond(known, |done|));
    var p := Resolve(sys, ParentContext(ctx), PathList(done, 0, slash), 0, depth - 1);
    assert ParentOf(sys, ctx, depth)(done, slash) == p;
    if p.Resolved? {
      if PrintsSame(p.names, p.slash, done, slash) {
        PopMark(done, known, todo[1..]);
        SettleMark(sys, ctx, Init(done), Min(known, |Init(done)|), todo[1..], slash || |todo| == 1, depth, restarts);
      } else if restarts > 0 {
        RestartMark(p.names, todo);
        CleanMark(sys, ctx, PathList(p.names + todo, |p.names|, slash), depth, restarts - 1);
      }
    }
  }

  lemma {:induction false} MarkHead(todo: seq<Comp>, known: nat)
    requires todo != []
    ensures Mark(todo, known)[0] == Entry(todo[0], known > 0)
    ensures Mark(todo, known)[1..] == Mark(todo[1..], Beyond(known, 1))
  {
  }

  lemma {:induction false} UpIsBeyond(done: seq<Comp>, known: nat, todo: seq<Comp>)
    requires known <= |done + todo| && !HasUp((done + todo)[..known]) && todo != [] && todo[0].Up?
    ensures known <= |done|
  {
    assert forall i :: 0 <= i < known ==> (done + todo)[..known][i] == (done + todo)[i];
    assert (done + todo)[|done|].Up?;
  }

  lemma {:induction false} PopMark(done: seq<Comp>, known: nat, rest: seq<Comp>)
    requires known <= |done| && !HasUp(done)
    ensures Mark(Init(done), Min(known, |Init(done)|)) == Init(Mark(done, known))
    ensures !HasUp(Init(done)) && FrontIsNames(PathList(Init(done) + rest, Min(known, |Init(done)|), false))
  {
    MarkInit(done, known);
    MarkAll(Init(done), known);
    var k := Min(known, |Init(done)|);
    assert (Init(done) + rest)[..k] == done[..k];
  }

  lemma {:induction false} RestartMark(actual: seq<Comp>, todo: seq<Comp>)
    requires !HasUp(actual)
    ensures Mark(actual + todo, |actual|) == Flagged(actual) + Mark(todo, 0)
    ensures (actual + todo)[..|actual|] == actual
  {
    MarkAppend(actual, todo, |actual|);
    MarkAll(actual, |actual|);
  }

  /** The engine's cleaning is the cleaning of entries, its flags being a front of the list. */
  lemma {:induction false} CleanMark(sys: System, ctx: Context, l: PathList, depth: nat, restarts: nat)
    requires 0 < depth && FrontIsNames(l)
    ensures CleanEntries(ParentOf(sys, ctx, depth), Mark(l.names, l.known), l.slash, restarts)
         == Marked(CleanDotdots(sys, ctx, l, depth, restarts))
    decreases restarts, 1, 0
  {
    var l2 := TrivialUps(l);
    TrivialMark(l);
    FrontStays(l);
    MarkUnclean(l2.names, l2.known);
    if HasUp(l2.names) {
      assert [] + l2.names == l2.names;
      SettleMark(sys, ctx, [], l2.known, l2.names, l2.slash, depth, restarts);
    }
  }

  lemma {:induction false} MarkFlags(names: seq<Comp>, known: nat)
    requires known <= |names| && !HasUp(names[..known])
    ensures FlagsOnNames(Mark(names, known))
    decreases |names|
  {
    if names != [] {
      var k := Beyond(known, 1);
      assert forall i :: 0 <= i < k ==> names[1..][..k][i] == names[..known][i + 1];
      MarkFlags(names[1..], k);
      assert known > 0 ==> names[..known][0] == names[0];
    }
  }

  /** The engine's cleaning of a path, when the parents of all ".." resolve to themselves. */
  lemma {:induction false} EngineCleaningIsNormalization(sys: System, ctx: Context, l: PathList, depth: nat, restarts: nat)
    requires 0 < depth && FrontIsNames(l)
    requires Pop(ParentOf(sys, ctx, depth), [], Mark(l.names, l.known)).Some?
    ensures
      var c := CleanDotdots(sys, ctx, l, depth, restarts);
      && c.Clean? && c.list.names == Normal([], l.names)
      && (c.list.slash <==> l.slash || (l.names != [] && l.names[|l.names| - 1].Up?))
  {
    hide Pop, Normal, CleanEntries, CleanDotdots;
    var es := Mark(l.names, l.known);
    MarkFlags(l.names, l.known);
    MarkAll(l.names, l.known);
    MarkInit(l.names, l.known);
    CleanMark(sys, ctx, l, depth, restarts);
    CleaningIsNormalization(ParentOf(sys, ctx, depth), es, l.slash, restarts);
    var c := CleanDotdots(sys, ctx, l, depth, restarts);
    if c.Clean? {
      MarkAll(c.list.names, c.list.known);
    }
  }
}
