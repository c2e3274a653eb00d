/** What mapping rules do to paths, in terms of names: which rule is taken, where it puts a path
    on the host, and when links are left alone (pathmapping/paths_ruletree_mapping.c,
    pathmapping/pathresolution.c). */
module Translation {
  import opened Options
  import opened Paths
  import opened Rules
  import opened Resolution
  import opened Namespace
  import opened Shortcut

  // ---------------------------------------------------------------- spelling of paths

  lemma EndsInName(s: string)
    requires s != "" && s[|s| - 1] != '/'
    ensures Components(s) != []
  {
    hide Components;
    if '/' in s {
      var a, b := CutAtLastSlash(s);
      assert b != "";
      ComponentsSnoc(a, b);
    } else {
      ComponentsOfName(s);
    }
  }

  /** "." inside a path is nothing. */
  lemma DotInside(a: string, b: string)
    ensures RemoveDots(Split(a + "/./" + b)) == RemoveDots(Split(a + "/" + b))
  {
    hide Components, WithoutDots;
    var with, without := a + "/./" + b, a + "/" + b;
    assert with == a + "/" + ("." + "/" + b);
    ComponentsConcat(a, "." + "/" + b);
    ComponentsConcat(a, b);
    ComponentsCons(".", b);
    OneDot();
    WithoutDotsAppend(Components(a), ["."] + Components(b));
    WithoutDotsAppend(["."], Components(b));
    WithoutDotsAppend(Components(a), Components(b));
    if b != "" && b[|b| - 1] != '/' {
      EndsInName(b);
    }
  }

  lemma OneDot()
    ensures WithoutDots(["."]) == []
  {
  }

  /** "." at the end of a path is a slash. */
  lemma DotIsSlash(path: string)
    ensures RemoveDots(Split(path + "/.")) == RemoveDots(Split(path + "/"))
  {
    hide Components, WithoutDots;
    ComponentsSnoc(path, ".");
    ComponentsConcat(path, "");
    ComponentsOfNone();
    assert path + "/" + "" == path + "/" && path + "/" + "." == path + "/.";
    assert (path + "/.")[0] == (path + "/")[0];
    OneDot();
    WithoutDotsAppend(Components(path), ["."]);
    WithoutDotsAppend(Components(path), []);
    assert Components(path) + [] == Components(path);
  }

  lemma DoubledSlash(a: string, b: string)
    ensures Split(a + "//" + b) == Split(a + "/" + b)
  {
    hide Components;
    assert a + "//" + b == a + "/" + ("/" + b);
    ComponentsConcat(a, "/" + b);
    ComponentsConcat(a, b);
    ComponentsSlash(b);
  }

  /** Under every rule list: however a path is spelled, it is resolved and mapped alike. A final
      "." asks for a directory just as a slash does. */
  lemma SpellingDoesNotMatter(w: World, rules: seq<Item>, ctx: Context, a: string, b: string, depth: nat)
    requires 0 < depth
    ensures ResolvePath(w, rules, ctx, a + "/.", depth) == ResolvePath(w, rules, ctx, a + "/", depth)
    ensures ResolvePath(w, rules, ctx, a + "/./" + b, depth) == ResolvePath(w, rules, ctx, a + "/" + b, depth)
    ensures ResolvePath(w, rules, ctx, a + "//" + b, depth) == ResolvePath(w, rules, ctx, a + "/" + b, depth)
    ensures MapPath(w, rules, ctx, a + "/.", depth) == MapPath(w, rules, ctx, a + "/", depth)
    ensures MapPath(w, rules, ctx, a + "/./" + b, depth) == MapPath(w, rules, ctx, a + "/" + b, depth)
  {
    hide ResolveDirty, SystemOf, MapOutcome, RemoveDots, Split;
    DotIsSlash(a);
    DotInside(a, b);
    DoubledSlash(a, b);
  }

  /** The target of a relative link reads as it was written. */
  lemma ParseOfRelative(names: seq<Comp>, slash: bool)
    requires names != []
    ensures Parse(Print(Path(Texts(names), false, slash))) == Target(false, names, slash, false)
  {
    hide Components, Join;
    var cs := Texts(names);
    CompsOfTexts(names);
    WithoutDotsClean(cs);
    SplitOfPrint(Path(cs, false, slash));
  }

  // ---------------------------------------------------------------- which rule is taken

  /** A rule that is meant for the query: its selector matches, its function classes, if it has
      any, share one with the query's, and its binary, if it names one, is the query's. */
  ghost predicate MeantFor(r: Rule, q: Query) {
    && PathMatch(q.path, r.selector) >= 0
    && (r.classes == {} || exists c :: c in r.classes && c in q.classes)
    && (r.binaryName == None || r.binaryName == Some(q.binaryName))
  }

  lemma ShareOne(a: set<nat>, b: set<nat>)
    ensures a * b != {} <==> exists c :: c in a && c in b
  {
    if a * b != {} {
      var c :| c in a * b;
      assert c in a && c in b;
    } else {
      forall c | c in a ensures c !in b {
        assert c !in a * b;
      }
    }
  }

  lemma AcceptsMeant(r: Rule, q: Query)
    ensures Accepts(r, q) <==> MeantFor(r, q)
  {
    hide PathMatch;
    ShareOne(r.classes, q.classes);
  }

  lemma {:induction false} AllMeantOnTheWay(list: seq<Item>, pos: seq<nat>, q: Query, j: nat)
    requires Eligible(list, pos, q) && 0 < j <= |pos|
    ensures
      var r := RuleAt(list, pos[..j]);
      && r.Some? && MeantFor(r.value, q) && !r.value.conditional
      && (r.value.action.Subtree? <==> j < |pos|)
    decreases j
  {
    hide Accepts, MeantFor;
    AcceptsMeant(list[pos[0]].rule, q);
    if j > 1 {
      AllMeantOnTheWay(list[pos[0]].rule.action.rules, pos[1..], q, j - 1);
      assert pos[..j][1..] == pos[1..][..j - 1];
    }
  }

  /** A rule that is selected is meant for the query, and so is every subtree on the way to it. */
  lemma SelectedIsMeant(list: seq<Item>, q: Query, h: Hit)
    requires FindFrom(list, 0, q) == Some(h)
    ensures MeantFor(h.rule, q) && !h.rule.conditional && !h.rule.action.Subtree?
    ensures forall j :: 0 < j <= |h.pos| ==> RuleAt(list, h.pos[..j]).Some? && MeantFor(RuleAt(list, h.pos[..j]).value, q)
  {
    hide MeantFor, Accepts, FindFrom, RuleAt, Eligible;
    FindIsFirstEligible(list, 0, q);
    EligibleIsSomewhere(list, h.pos, q);
    forall j | 0 < j <= |h.pos|
      ensures RuleAt(list, h.pos[..j]).Some? && MeantFor(RuleAt(list, h.pos[..j]).value, q)
    {
      AllMeantOnTheWay(list, h.pos, q, j);
    }
    AllMeantOnTheWay(list, h.pos, q, |h.pos|);
    assert h.pos[..|h.pos|] == h.pos;
  }

  lemma EligibleIsSomewhere(list: seq<Item>, pos: seq<nat>, q: Query)
    requires Eligible(list, pos, q)
    ensures pos != []
  {
  }

  /** A plain rule that is meant for the query is selected, when nothing before it is, and nothing
      up to it has a condition. */
  lemma {:induction false} FirstMeantIsSelected(list: seq<Item>, i: nat, k: nat, q: Query)
    requires i <= k < |list| && list[k].Has? && !list[k].rule.action.Subtree? && MeantFor(list[k].rule, q)
    requires forall j :: i <= j <= k && list[j].Has? ==> !list[j].rule.conditional
    requires forall j :: i <= j < k && list[j].Has? ==> !MeantFor(list[j].rule, q)
    ensures FindFrom(list, i, q) == Some(Hit([k], list[k].rule, |list[k].rule.selector.text|))
    decreases k - i
  {
    hide Accepts;
    if list[i].Has? {
      AcceptsMeant(list[i].rule, q);
    }
    if i < k {
      FirstMeantIsSelected(list, i + 1, k, q);
    }
  }

  // ---------------------------------------------------------------- where a rule puts a path

  lemma CleanHostComponents(raw: string)
    requires raw != "" && raw[0] == '/'
    ensures Components(CleanHost(raw)) == WithoutDots(Components(raw))
  {
    hide Components, Join, WithoutDots;
    var p := RemoveDots(Split(raw));
    if p.names == [] {
      ComponentsOfNone();
    } else {
      SplitOfPrint(p);
    }
  }

  lemma JoinedComponents(t: string, rest: string)
    requires rest == "" || rest[0] == '/'
    ensures Components(t + rest) == Components(t) + Components(rest)
  {
    hide Components;
    if rest == "" {
      ComponentsOfNone();
      assert t + rest == t && Components(t) + [] == Components(t);
    } else {
      var s := rest[1..];
      assert rest == "/" + s && t + rest == t + "/" + s;
      ComponentsConcat(t, s);
      ComponentsSlash(s);
    }
  }

  /** A host path that a rule may hold: absolute, and clear of "..". */
  predicate HostText(t: string) {
    t != "" && t[0] == '/' && !HasDotdot(Components(t))
  }

  predicate IsPlain(a: Action) {
    a.UseOrigPath? || a.ForceOrigPath? || a.ForceOrigPathUnlessChroot? || a.MapTo? || a.ReplaceBy? || a.SetPath?
  }

  /** The text in a rule, if it has one, is good; a map_to without text, or to "/", changes
      nothing. */
  predicate TextOk(a: Action) {
    match a
    case MapTo(t) => t == "" || HostText(t)
    case ReplaceBy(t) => HostText(t)
    case SetPath(t) => HostText(t)
    case _ => true
  }

  /** A selector is the path, or ends where a name of it ends. */
  predicate EndsAtName(path: string, s: Selector) {
    s.ByPath? || ((s.ByPrefix? || s.ByDir?) && |s.text| <= |path| && (|s.text| == |path| || path[|s.text|] == '/'))
  }

  /** Where the rule puts a path of these names: behind the names of the rule's own path, all of
      it, or what is left of it behind the selector; or at one fixed place. */
  function HostNames(r: Rule, names: seq<string>): seq<string> {
    match r.action
    case MapTo(t) => WithoutDots(Components(t)) + names
    case ReplaceBy(t) =>
      WithoutDots(Components(t)) +
      (if r.selector.ByPath? || r.selector.Defunct? || r.selector.Strange? || |Components(r.selector.text)| > |names| then []
       else names[|Components(r.selector.text)|..])
    case SetPath(t) => WithoutDots(Components(t))
    case _ => names
  }

  /** A replacement takes the place of the selector, whatever follows. */
  lemma ReplacesSelector(r: Rule, rest: string)
    requires r.action.ReplaceBy? && (r.selector.ByPrefix? || r.selector.ByDir?)
    ensures StdAction(r, r.selector.text + rest) == Host(r.action.replacement + rest)
  {
    assert (r.selector.text + rest)[|r.selector.text|..] == rest;
  }

  lemma PrintedComponents(names: seq<string>, slash: bool)
    requires AllNames(names)
    ensures
      var path := Print(Path(names, true, slash));
      path != "" && path[0] == '/' && Components(path) == names
  {
    hide Components, Join;
    if names == [] {
      ComponentsOfNone();
    } else {
      SplitOfPrint(Path(names, true, slash));
    }
  }

  lemma CleanedResult(r: Rule, path: string, a: string, rest: string, other: string -> Option<string>)
    requires StdAction(r, path) == Host(a + rest) && a + rest != "" && (a + rest)[0] == '/'
    requires (rest == "" || rest[0] == '/') && !HasDotdot(Components(a)) && IsClean(Components(rest))
    ensures
      var host := Translate(r, path, other);
      host.Some? && Components(host.value) == WithoutDots(Components(a)) + Components(rest)
  {
    hide Components, StdAction, CleanHost, WithoutDots;
    JoinedComponents(a, rest);
    NoDotdotAppend(Components(a), Components(rest));
    CleanHostComponents(a + rest);
    WithoutDotsAppend(Components(a), Components(rest));
    WithoutDotsClean(Components(rest));
  }

  lemma RestOfNames(text: string, rest: string, names: seq<string>)
    requires IsClean(names) && (rest == "" || rest[0] == '/') && Components(text + rest) == names
    ensures |Components(text)| <= |names| && Components(rest) == names[|Components(text)|..] && IsClean(Components(rest))
  {
    hide Components;
    JoinedComponents(text, rest);
    var n := |Components(text)|;
    assert names == Components(text) + Components(rest);
    assert names[n..] == Components(rest);
    forall i | 0 <= i < |Components(rest)| ensures Components(rest)[i] == names[n + i] {
    }
  }

  /** Every rule with a plain action puts a path that it matches where its text says. A replacement
      rule does so whenever its selector ends where a name ends. */
  lemma TranslationMeans(r: Rule, names: seq<string>, slash: bool, other: string -> Option<string>)
    requires AllNames(names) && IsClean(names) && IsPlain(r.action) && TextOk(r.action)
    requires PathMatch(Print(Path(names, true, slash)), r.selector) >= 0
    requires r.action.ReplaceBy? ==> EndsAtName(Print(Path(names, true, slash)), r.selector)
    ensures
      var host := Translate(r, Print(Path(names, true, slash)), other);
      host.Some? && Components(host.value) == HostNames(r, names)
  {
    hide Components, Translate, WithoutDots, Print, HasDotdot;
    var path := Print(Path(names, true, slash));
    PrintedComponents(names, slash);
    NothingUp();
    assert "" + path == path && [] + names == names;
    if r.action.ReplaceBy? {
      ReplacementMeans(r, path, names, other);
    } else if r.action.SetPath? {
      assert r.action.path + "" == r.action.path;
      CleanedResult(r, path, r.action.path, "", other);
    } else if r.action.MapTo? && r.action.target != "" && r.action.target != "/" {
      CleanedResult(r, path, r.action.target, path, other);
    } else {
      CleanedResult(r, path, "", path, other);
    }
  }

  lemma NothingUp()
    ensures Components("") == [] && Components("/") == [] && WithoutDots([]) == [] && !HasDotdot([]) && IsClean([])
  {
    ComponentsOfNone();
  }

  lemma ReplacementMeans(r: Rule, path: string, names: seq<string>, other: string -> Option<string>)
    requires path != "" && path[0] == '/' && Components(path) == names && IsClean(names)
    requires r.action.ReplaceBy? && HostText(r.action.replacement) && PathMatch(path, r.selector) >= 0
    requires EndsAtName(path, r.selector)
    ensures
      var host := Translate(r, path, other);
      host.Some? && Components(host.value) == HostNames(r, names)
  {
    hide Components, Translate, WithoutDots, HasDotdot;
    var t, text := r.action.replacement, r.selector.text;
    NothingUp();
    if r.selector.ByPath? {
      assert t + "" == t;
      CleanedResult(r, path, t, "", other);
    } else {
      var rest := path[|text|..];
      assert path == text + rest;
      ReplacesSelector(r, rest);
      RestOfNames(text, rest, names);
      CleanedResult(r, path, t, rest, other);
    }
  }

  /** A directory selector that matches ends where a name ends, unless it is that of the root
      directory. */
  lemma DirectoryEndsAtName(path: string, text: string)
    requires PathMatch(path, ByDir(text)) >= 0 && text != "/"
    ensures EndsAtName(path, ByDir(text))
  {
  }

  /** For the root directory a replacement has no slash of its own to rely on: what it makes of
      the first name is right if and only if the replacement ends in a slash. */
  lemma RootReplacementIff(r: Rule, names: seq<string>)
    requires r.selector == ByDir("/") && r.action.ReplaceBy? && HostText(r.action.replacement)
    requires names != [] && AllNames(names)
    ensures
      var raw := StdAction(r, Print(Path(names, true, false)));
      raw.Host? && (Components(raw.path) == Components(r.action.replacement) + names <==> EndsInSlash(r.action.replacement))
  {
    hide Components, Join;
    var t, rest := r.action.replacement, Join(names);
    assert Print(Path(names, true, false)) == "/" + rest + "" && "/" + rest + "" == "/" + rest;
    ReplacesSelector(r, rest);
    ComponentsOfJoin(names, "");
    assert rest + "" == rest;
    if EndsInSlash(t) {
      var s := t[..|t| - 1];
      assert t == s + "/" && s + "/" + "" == t && t + rest == s + "/" + rest;
      ComponentsConcat(s, rest);
      ComponentsConcat(s, "");
      ComponentsOfNone();
    } else {
      GluedLength(t, names);
    }
  }

  lemma GluedLength(t: string, names: seq<string>)
    requires '/' in t && !EndsInSlash(t) && names != [] && AllNames(names)
    ensures |Components(t + Join(names))| < |Components(t) + names|
  {
    hide Components, Join;
    var a, b := CutAtLastSlash(t);
    assert b != "" && IsName(b);
    ComponentsSnoc(a, b);
    JoinHead(names);
    assert IsName(names[0]);
    var glued := b + names[0];
    assert IsName(glued);
    if |names| == 1 {
      assert t + Join(names) == a + "/" + glued;
      ComponentsSnoc(a, glued);
    } else {
      var more := Join(names[1..]);
      assert t + Join(names) == a + "/" + (glued + "/" + more);
      ComponentsConcat(a, glued + "/" + more);
      ComponentsCons(glued, more);
      ComponentsOfJoin(names[1..], "");
      assert more + "" == more;
    }
  }

  /** A rule whose text is no absolute path yields nothing, and so does a replacement for another
      path than the one it names; a text with ".." is left to the host. */
  lemma BadTextYieldsNothing(r: Rule, path: string, other: string -> Option<string>)
    requires path != "" && path[0] == '/'
    ensures r.action.MapTo? && r.action.target != "" && r.action.target[0] != '/' ==> Translate(r, path, other) == None
    ensures r.action.SetPath? && (r.action.path == "" || r.action.path[0] != '/') ==> Translate(r, path, other) == None
    ensures r.action.ReplaceBy? && r.selector.ByPath? && r.selector.text != path ==> Translate(r, path, other) == None
    ensures
      (r.action.MapTo? && r.action.target != "" && r.action.target[0] == '/' && HasDotdot(Components(r.action.target))) ==>
      Translate(r, path, other) == other(r.action.target + path)
  {
    hide Components, CleanHost;
    if r.action.MapTo? && r.action.target != "" && r.action.target[0] == '/' {
      var t := r.action.target;
      JoinedComponents(t, path);
      NothingUp();
      if HasDotdot(Components(t)) {
        var i :| 0 <= i < |Components(t)| && Components(t)[i] == "..";
        assert (Components(t) + Components(path))[i] == "..";
      }
    }
  }

  /** A clean absolute path is its own host path. */
  lemma CleanHostOfClean(names: seq<string>, slash: bool)
    requires AllNames(names) && NoDots(names)
    ensures CleanHost(Print(Path(names, true, slash))) == Print(Path(names, true, slash))
  {
    hide Components, Join;
    WithoutDotsClean(names);
    if names == [] {
      NothingUp();
    } else {
      SplitOfPrint(Path(names, true, slash));
      assert names[|names| - 1] != ".";
    }
  }

  // ---------------------------------------------------------------- links that are left alone

  predicate Forced(r: Rule) {
    r.forceOrig || r.action.ForceOrigPath? || r.action.ForceOrigPathUnlessChroot?
  }

  /** Under a rule that forces the original path nothing is looked at: whatever is on the host,
      the path stays as it is. */
  lemma ForcedPathStays(w: World, rules: seq<Item>, ctx: Context, l: PathList, nest: nat, depth: nat, h: Hit)
    requires RuleFor(rules, ctx, l.names, l.slash) == Some(h) && Forced(h.rule) && nest <= MAX_NEST
    ensures Resolve(SystemOf(w, rules), ctx, l, nest, depth) == Resolved(l.names, l.slash)
  {
    hide RuleFor, Loop, HostAt, Skip;
  }

  /** And it is mapped to itself. */
  lemma ForcedPathIsItself(w: World, rules: seq<Item>, ctx: Context, names: seq<Comp>, slash: bool, depth: nat, h: Hit)
    requires RuleFor(rules, ctx, names, slash) == Some(h) && !HasUp(names) && 0 < depth
    requires h.rule.action.ForceOrigPath? || h.rule.action.ForceOrigPathUnlessChroot?
    ensures MapPath(w, rules, ctx, VirtualPath(names, slash), depth) == Some(VirtualPath(names, slash))
  {
    hide Resolve, SystemOf, FindFrom, Components, Print, Texts, RuleFor, VirtualPath, Parse, Translate;
    ParseOfPrint(names, slash);
    SlashOfRoot(rules, ctx, names, slash);
    ForcedPathStays(w, rules, ctx, PathList(names, 0, slash || names == []), 0, depth - 1, h);
    OriginalPath(h.rule, names, slash, w.other);
  }

  lemma OriginalPath(r: Rule, names: seq<Comp>, slash: bool, other: string -> Option<string>)
    requires r.action.UseOrigPath? || r.action.ForceOrigPath? || r.action.ForceOrigPathUnlessChroot?
    requires !HasUp(names)
    ensures Translate(r, VirtualPath(names, slash), other) == Some(VirtualPath(names, slash))
  {
    hide Components, Print, Texts, CleanHost;
    TextsAreNames(names);
    CleanHostOfClean(Texts(names), slash);
    PrintedComponents(Texts(names), slash);
  }

  lemma SlashOfRoot(rules: seq<Item>, ctx: Context, names: seq<Comp>, slash: bool)
    ensures VirtualPath(names, slash || names == []) == VirtualPath(names, slash)
    ensures RuleFor(rules, ctx, names, slash || names == []) == RuleFor(rules, ctx, names, slash)
  {
  }

  /** Where a rule yields nothing, resolution fails. */
  lemma UnmappedFails(w: World, rules: seq<Item>, ctx: Context, l: PathList, nest: nat, depth: nat, h: Hit)
    requires RuleFor(rules, ctx, l.names, l.slash) == Some(h) && !Forced(h.rule) && nest <= MAX_NEST
    requires
      var first := Skip(Lengths(l.names), 1, h.minLen);
      && l.known <= first < |l.names| && (first + 1 < |l.names| || l.slash || !ctx.dontResolveFinal)
      && HostAt(w, rules, ctx, l.names, l.slash, first) == None
    ensures Resolve(SystemOf(w, rules), ctx, l, nest, depth) == Failed(EFAULT)
  {
    hide RuleFor, HostAt, Skip, FollowLink, Lengths;
  }

  /** Under any other rule the first component that it lets be looked at is looked at, and if it is
      a link it is followed: to what its text says. */
  lemma LinkIsFollowed(w: World, rules: seq<Item>, ctx: Context, l: PathList, nest: nat, depth: nat, h: Hit, text: string)
    requires RuleFor(rules, ctx, l.names, l.slash) == Some(h) && !Forced(h.rule) && nest <= MAX_NEST
    requires
      var first := Skip(Lengths(l.names), 1, h.minLen);
      && l.known <= first < |l.names| && (first + 1 < |l.names| || l.slash || !ctx.dontResolveFinal)
      && var host := HostAt(w, rules, ctx, l.names, l.slash, first);
         host.Some? && w.readlink(host.value) == LinkTo(text)
    ensures
      var first := Skip(Lengths(l.names), 1, h.minLen);
      Resolve(SystemOf(w, rules), ctx, l, nest, depth) ==
      FollowLink(SystemOf(w, rules), ctx, l, first, Parse(text), nest, depth)
  {
    hide RuleFor, HostAt, Skip, FollowLink, Parse, Lengths;
  }

  // ---------------------------------------------------------------- what is looked at

  /** Component `i` is there, is no link, and is a directory if it has to be one. */
  predicate PlainAt(w: World, rules: seq<Item>, ctx: Context, names: seq<Comp>, slash: bool, i: nat) {
    var host := HostAt(w, rules, ctx, names, slash, i);
    && host.Some? && w.readlink(host.value) == NoLink
    && (ctx.mustBeDirectory && i + 1 == |names| ==> w.stat(host.value).Directory?)
  }

  lemma {:induction false} PlainFrom(w: World, rules: seq<Item>, ctx: Context, l: PathList, nest: nat, depth: nat, i: nat)
    requires i <= |l.names| && forall j :: i <= j < |l.names| ==> PlainAt(w, rules, ctx, l.names, l.slash, j)
    ensures Loop(SystemOf(w, rules), ctx, l, nest, depth, i) == Resolved(l.names, l.slash)
    decreases |l.names| - i
  {
    hide HostAt, FollowLink;
    if i < |l.names| {
      assert PlainAt(w, rules, ctx, l.names, l.slash, i);
      PlainFrom(w, rules, ctx, l, nest, depth, i + 1);
    }
  }

  /** Under any rules, only what lies behind the selector of the chosen rule is looked at: if it is
      plain, the path is its own real path, whatever there is at the names that the selector
      covers. */
  lemma OnlyBehindSelector(w: World, rules: seq<Item>, ctx: Context, l: PathList, nest: nat, depth: nat, h: Hit)
    requires RuleFor(rules, ctx, l.names, l.slash) == Some(h) && nest <= MAX_NEST
    requires forall j :: Skip(Lengths(l.names), 1, h.minLen) <= j < |l.names| ==> PlainAt(w, rules, ctx, l.names, l.slash, j)
    ensures Resolve(SystemOf(w, rules), ctx, l, nest, depth) == Resolved(l.names, l.slash)
  {
    hide RuleFor, Loop, PlainAt, Skip, Lengths;
    PlainFrom(w, rules, ctx, l, nest, depth, Skip(Lengths(l.names), 1, h.minLen));
  }

  /** Rules with conditions, and those for /proc, are asked anew about every path on the way. */
  lemma ConditionalIsAsked(w: World, rules: seq<Item>, ctx: Context, names: seq<Comp>, slash: bool, i: nat, h: Hit)
    requires RuleFor(rules, ctx, names, slash) == Some(h) && (h.rule.action.ConditionalActions? || h.rule.action.Procfs?)
    requires Skip(Lengths(names), 1, h.minLen) <= i < |names|
    ensures HostAt(w, rules, ctx, names, slash, i) ==
            w.other(VirtualPath(names[..i + 1], slash && i > Skip(Lengths(names), 1, h.minLen)))
  {
    hide RuleFor, Skip, Lengths, Print, Texts, MappedAt;
    var first := Skip(Lengths(names), 1, h.minLen);
    ConditionalTranslation(h.rule, Texts(names), slash, first, i, w.other);
    TextsOfFront(names, i + 1);
  }

  lemma ConditionalTranslation(r: Rule, names: seq<string>, slash: bool, first: nat, i: nat,
                               other: string -> Option<string>)
    requires (r.action.ConditionalActions? || r.action.Procfs?) && first <= i < |names|
    ensures MappedAt(r, names, slash, first, i, other) == other(Print(Path(names[..i + 1], true, slash && i > first)))
  {
    hide Print;
  }

  /** Under any rules, what a path is mapped to is where the rule for its real path puts it. */
  lemma MappingMeans(w: World, rules: seq<Item>, ctx: Context, path: string, depth: nat, h: Hit)
    requires 0 < depth && ResolvePath(w, rules, ctx, path, depth).Resolved?
    requires
      var o := ResolvePath(w, rules, ctx, path, depth);
      && RuleFor(rules, ctx, o.names, o.slash) == Some(h) && IsPlain(h.rule.action) && TextOk(h.rule.action)
      && (h.rule.action.ReplaceBy? ==> EndsAtName(VirtualPath(o.names, o.slash), h.rule.selector))
    ensures
      var host := MapPath(w, rules, ctx, path, depth);
      host.Some? && Components(host.value) == HostNames(h.rule, Texts(ResolvePath(w, rules, ctx, path, depth).names))
  {
    var o := ResolvePath(w, rules, ctx, path, depth);
    assert !HasUp(o.names);
    hide ResolvePath, FindFrom, Components, Translate, Print, HostNames, Texts, TextOk;
    TextsAreNames(o.names);
    ChosenMatches(rules, ctx, o.names, o.slash, h);
    TranslationMeans(h.rule, Texts(o.names), o.slash, w.other);
  }

  lemma ChosenMatches(rules: seq<Item>, ctx: Context, names: seq<Comp>, slash: bool, h: Hit)
    requires RuleFor(rules, ctx, names, slash) == Some(h)
    ensures PathMatch(VirtualPath(names, slash), h.rule.selector) >= 0
  {
    hide FindFrom, VirtualPath, PathMatch;
    SelectedIsMeant(rules, Query(VirtualPath(names, slash), ctx.classes, ctx.binaryName), h);
  }
}
