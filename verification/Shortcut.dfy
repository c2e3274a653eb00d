/** The performance shortcut of the resolution loop, where the engine applies it: what it
    probes for a component is the translation of the whole path up to that component. */
module Shortcut {
  import opened Options
  import opened Paths
  import opened Rules
  import opened Resolution
  import opened Namespace
  import opened Skipping

  // ---------------------------------------------------------------- the last component

  lemma {:induction false} CutAtLastSlash(y: string) returns (a: string, b: string)
    requires '/' in y
    ensures y == a + "/" + b && '/' !in b
  {
    var init, c := y[..|y| - 1], y[|y| - 1];
    assert y == init + [c];
    if c == '/' {
      a, b := init, "";
    } else {
      var b';
      a, b' := CutAtLastSlash(init);
      b := b' + [c];
    }
  }

  lemma WithoutDotsKeepsLast(cs: seq<string>)
    requires cs != [] && cs[|cs| - 1] != "."
    ensures WithoutDots(cs) != []
  {
    var init, last := cs[..|cs| - 1], cs[|cs| - 1];
    assert cs == init + [last];
    WithoutDotsAppend(init, [last]);
    WithoutDotsClean([last]);
  }

  /** A host path that ends in a name does not end in "/" or "/.". */
  lemma NameEndsHost(y: string, n: string)
    requires IsName(n) && n != "."
    ensures
      var s := y + n;
      s[|s| - 1] != '/' && Components(s) != [] && Components(s)[|Components(s)| - 1] != "."
  {
    hide Components;
    var s := y + n;
    assert n[|n| - 1] in n && s[|s| - 1] == n[|n| - 1];
    if '/' in y {
      var a, b := CutAtLastSlash(y);
      assert s == a + "/" + (b + n);
      ComponentsSnoc(a, b + n);
      LongerIsNoDot(b, n);
    } else {
      ComponentsCons(s, "");
      LongerIsNoDot(y, n);
    }
  }

  lemma LongerIsNoDot(b: string, n: string)
    requires n != "" && n != "."
    ensures b + n != "."
  {
    if b == "" {
      assert b + n == n;
    }
  }

  lemma CleanNameEnds(y: string, n: string)
    requires IsName(n) && n != "." && (y + n)[0] == '/'
    ensures !EndsInSlash(CleanHost(y + n))
  {
    hide Components, Print, WithoutDots;
    var s := y + n;
    NameEndsHost(y, n);
    WithoutDotsKeepsLast(Components(s));
    var p := RemoveDots(Split(s));
    assert p == Path(WithoutDots(Components(s)), true, false);
    PrintAppend(p.names, p.slash, n);
  }

  // ---------------------------------------------------------------- the first translation

  /** A rule whose selector lies within `x` leaves what follows `x` alone. */
  lemma ActionKeepsEnd(r: Rule, x: string, n: string) returns (y: string)
    requires PrefixRule(r) && (r.action.ReplaceBy? ==> |r.selector.text| <= |x|)
    ensures StdAction(r, x + n) == Host(y + n)
  {
    y := x;
    match r.action
    case MapTo(t) =>
      if t != "" && t != "/" {
        y := t + x;
        assert t + (x + n) == (t + x) + n;
      }
    case ReplaceBy(rep) =>
      var k := |r.selector.text|;
      y := rep + x[k..];
      assert (x + n)[k..] == x[k..] + n;
      assert rep + (x[k..] + n) == (rep + x[k..]) + n;
    case _ =>
  }

  /** The selector of the chosen rule ends before the first component that is looked at. */
  lemma SelectorIsPassed(rules: seq<Item>, ctx: Context, names: seq<Comp>, slash: bool, h: Hit)
    requires RuleFor(rules, ctx, names, slash) == Some(h)
    ensures
      var first := Skip(Lengths(names), 1, h.minLen);
      first < |names| ==>
        (h.rule.selector.ByPrefix? || h.rule.selector.ByDir? ==> |h.rule.selector.text| == h.minLen)
        && h.minLen + |TextOf(names[first])| <= |VirtualPath(names[..first + 1], false)|
  {
    hide VirtualPath, FindFrom, Covered, Skip, Lengths;
    ChosenLength(rules, Query(VirtualPath(names, slash), ctx.classes, ctx.binaryName), h);
    var first := Skip(Lengths(names), 1, h.minLen);
    if first < |names| {
      PassedAt(Lengths(names), h.minLen);
      FrontLength(names, first + 1);
    }
  }

  lemma PassedAt(lengths: seq<nat>, minLen: nat)
    requires Skip(lengths, 1, minLen) < |lengths|
    ensures
      var first := Skip(lengths, 1, minLen);
      minLen + lengths[first] + 1 <= Covered(lengths, first + 1)
  {
    SkipStops(lengths, 0, minLen);
    assert lengths[0..] == lengths;
  }

  lemma PrefixEndsInName(names: seq<Comp>, i: nat) returns (x: string)
    requires i < |names|
    ensures Prefix(Texts(names), i) == x + TextOf(names[i])
  {
    hide Join, Texts;
    var cs := Texts(names);
    if i == 0 {
      x := "/";
      assert cs[..1] == [cs[0]];
      JoinSnoc([], cs[0]);
      assert [] + [cs[0]] == [cs[0]];
    } else {
      PrefixSnoc(cs, i - 1);
      x := Prefix(cs, i - 1) + "/";
    }
  }

  /** The first translation never ends in a slash. */
  lemma FirstEndsInName(rules: seq<Item>, ctx: Context, names: seq<Comp>, slash: bool, h: Hit,
                        other: string -> Option<string>)
    requires RuleFor(rules, ctx, names, slash) == Some(h) && PrefixRule(h.rule) && !HasUp(names)
    requires Skip(Lengths(names), 1, h.minLen) < |names|
    requires GoodRaw(StdAction(h.rule, Prefix(Texts(names), Skip(Lengths(names), 1, h.minLen))))
    ensures
      var start := Translate(h.rule, Prefix(Texts(names), Skip(Lengths(names), 1, h.minLen)), other);
      start.Some? && !EndsInSlash(start.value)
  {
    hide RuleFor, StdAction, CleanHost, Components, Prefix, VirtualPath, Skip, Lengths, Texts;
    var first := Skip(Lengths(names), 1, h.minLen);
    var n := TextOf(names[first]);
    SelectorIsPassed(rules, ctx, names, slash, h);
    PrefixIsVirtual(names, first);
    var x := PrefixEndsInName(names, first);
    var y := ActionKeepsEnd(h.rule, x, n);
    CleanNameEnds(y, n);
  }

  lemma PrefixIsVirtual(names: seq<Comp>, i: nat)
    requires i < |names|
    ensures Prefix(Texts(names), i) == VirtualPath(names[..i + 1], false)
  {
    TextsOfFront(names, i + 1);
  }

  /** Under any rules: for every rule that keeps or prefixes the path, or replaces a prefix of
      it, the host path that is probed for a component is the translation of the whole virtual
      path up to that component, cleaned. */
  lemma ProbedIsTranslated(w: World, rules: seq<Item>, ctx: Context, names: seq<Comp>, slash: bool, i: nat, h: Hit)
    requires RuleFor(rules, ctx, names, slash) == Some(h) && PrefixRule(h.rule) && !HasUp(names)
    requires Skip(Lengths(names), 1, h.minLen) <= i < |names|
    requires GoodRaw(StdAction(h.rule, Prefix(Texts(names), Skip(Lengths(names), 1, h.minLen))))
    ensures HostAt(w, rules, ctx, names, slash, i) == Translate(h.rule, Prefix(Texts(names), i), w.other)
  {
    hide RuleFor, StdAction, CleanHost, Components, Prefix, Translate, MappedAt;
    TextsAreNames(names);
    FirstEndsInName(rules, ctx, names, slash, h, w.other);
    ShortcutIsTranslation(h.rule, Texts(names), slash, Skip(Lengths(names), 1, h.minLen), i, w.other);
  }
}
