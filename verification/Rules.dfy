/** Mapping rules: which rule applies to a virtual path, and what host path it yields
    (pathmapping/paths_ruletree_mapping.c). */
module Rules {
  import opened Options
  import opened Paths

  /** The selector of a rule. Type 0 marks a defunct rule; `Strange` is any other type. */
  datatype Selector = ByPath(text: string) | ByPrefix(text: string) | ByDir(text: string) | Defunct | Strange

  datatype Action =
    | UseOrigPath
    | ForceOrigPath
    | ForceOrigPathUnlessChroot
    | MapTo(target: string)
    | ReplaceBy(replacement: string)
    | SetPath(path: string)
    | ConditionalActions
    | Procfs
    | Subtree(rules: seq<Item>)

  /** `conditional`: the rule carries an auxiliary condition, which rule lists may not. The
      function classes are a set of bits; no bits means no restriction. */
  datatype Rule = Rule(
    selector: Selector,
    action: Action,
    conditional: bool,
    classes: set<nat>,
    binaryName: Option<string>,
    forceOrig: bool)

  /** An element of a rule list: nothing when the offset is 0 or does not hold a rule. */
  datatype Item = Hole | Has(rule: Rule)

  /** What a rule is selected for. */
  datatype Query = Query(path: string, classes: set<nat>, binaryName: string)

  // ---------------------------------------------------------------- matching

  /** ruletree_test_path_match: the length of the selector, or -1. */
  function PathMatch(path: string, s: Selector): (len: int)
    ensures len >= 0 ==> !s.Defunct? && !s.Strange? && len == |s.text| && s.text <= path
    ensures s.ByPath? ==> (len >= 0 <==> s.text == path)
    ensures s.ByPrefix? ==> (len >= 0 <==> s.text != "" && s.text <= path)
    ensures s.ByDir? ==>
      (len >= 0 <==> s.text != "" && s.text <= path
                     && (s.text == path || path[|s.text|] == '/' || s.text == "/"))
  {
    match s
    case ByPath(t) => if path == t then |t| else -1
    case ByPrefix(t) =>
      if t != "" && |path| >= |t| && path[|t| - 1] == t[|t| - 1] && path[..|t|] == t then |t| else -1
    case ByDir(t) =>
      if t != "" && |path| >= |t|
         && (|path| == |t| || path[|t|] == '/' || (|t| == 1 && path[0] == '/'))
         && path[..|t|] == t
      then |t| else -1
    case Defunct => -1
    case Strange => -1
  }

  /** Selector, function class and binary name all accept the query. */
  predicate Accepts(r: Rule, q: Query) {
    && PathMatch(q.path, r.selector) >= 0
    && (r.classes == {} || r.classes * q.classes != {})
    && (r.binaryName.Some? ==> r.binaryName.value == q.binaryName)
  }

  // ---------------------------------------------------------------- selection

  /** A selected rule, its place in the nested lists, and the length of its selector. */
  datatype Hit = Hit(pos: seq<nat>, rule: Rule, minLen: nat)

  /** ruletree_find_rule from element `i` on. */
  function FindFrom(list: seq<Item>, i: nat, q: Query): Option<Hit>
    requires i <= |list|
    decreases list, |list| - i
  {
    if i == |list| then None
    else if list[i].Hole? then FindFrom(list, i + 1, q)
    else
      var r := list[i].rule;
      if r.conditional then None
      else if r.selector.Defunct? || !Accepts(r, q) then FindFrom(list, i + 1, q)
      else if r.action.Subtree? then
        assert list[i].rule.action < list[i].rule < list[i];
        match FindFrom(r.action.rules, 0, q)
        case Some(h) => Some(h.(pos := [i] + h.pos))
        case None => FindFrom(list, i + 1, q)
      else Some(Hit([i], r, PathMatch(q.path, r.selector)))
  }

  /** A place is eligible when every rule on the way down accepts the query, the last one is
      not a subtree, and no list on the way has a conditional rule before it. */
  ghost predicate Eligible(list: seq<Item>, pos: seq<nat>, q: Query)
    decreases |pos|
  {
    && pos != [] && pos[0] < |list|
    && list[pos[0]].Has?
    && (forall j :: 0 <= j <= pos[0] && list[j].Has? ==> !list[j].rule.conditional)
    && Accepts(list[pos[0]].rule, q)
    && if |pos| == 1 then !list[pos[0]].rule.action.Subtree?
       else list[pos[0]].rule.action.Subtree? && Eligible(list[pos[0]].rule.action.rules, pos[1..], q)
  }

  function RuleAt(list: seq<Item>, pos: seq<nat>): Option<Rule>
    decreases |pos|
  {
    if pos == [] || pos[0] >= |list| || list[pos[0]].Hole? then None
    else if |pos| == 1 then Some(list[pos[0]].rule)
    else if list[pos[0]].rule.action.Subtree? then RuleAt(list[pos[0]].rule.action.rules, pos[1..])
    else None
  }

  /** Depth-first order of places. */
  predicate Before(a: seq<nat>, b: seq<nat>)
    decreases |a|
  {
    a == [] || (b != [] && (a[0] < b[0] || (a[0] == b[0] && Before(a[1..], b[1..]))))
  }

  /** The selected rule is the first eligible one in depth-first order, and it reports its
      own selector's length; when nothing is selected nothing is eligible. */
  lemma {:induction false} FindIsFirstEligible(list: seq<Item>, i: nat, q: Query)
    requires i <= |list|
    requires forall j :: 0 <= j < i && list[j].Has? ==> !list[j].rule.conditional
    ensures
      match FindFrom(list, i, q)
      case Some(h) =>
        && Eligible(list, h.pos, q) && i <= h.pos[0]
        && RuleAt(list, h.pos) == Some(h.rule)
        && h.minLen == PathMatch(q.path, h.rule.selector)
        && (forall pos :: Eligible(list, pos, q) && i <= pos[0] ==> Before(h.pos, pos))
      case None =>
        forall pos :: Eligible(list, pos, q) ==> pos[0] < i
    decreases list, |list| - i
  {
    if i < |list| {
      if list[i].Has? && list[i].rule.conditional {
        // nothing at or behind a conditional rule is eligible
      } else {
        FindIsFirstEligible(list, i + 1, q);
        if list[i].Has? && !list[i].rule.selector.Defunct? && Accepts(list[i].rule, q)
           && list[i].rule.action.Subtree?
        {
          SubtreeIsFirstEligible(list, i, q);
        }
      }
    }
  }

  lemma SubtreeIsFirstEligible(list: seq<Item>, i: nat, q: Query)
    requires i < |list| && list[i].Has? && list[i].rule.action.Subtree?
    requires forall j :: 0 <= j <= i && list[j].Has? ==> !list[j].rule.conditional
    requires Accepts(list[i].rule, q)
    ensures
      match FindFrom(list[i].rule.action.rules, 0, q)
      case Some(h) =>
        && Eligible(list, [i] + h.pos, q)
        && RuleAt(list, [i] + h.pos) == Some(h.rule)
        && h.minLen == PathMatch(q.path, h.rule.selector)
        && (forall pos :: Eligible(list, pos, q) && pos[0] == i ==> Before([i] + h.pos, pos))
      case None =>
        forall pos :: Eligible(list, pos, q) ==> pos[0] != i
    decreases list, 0
  {
    var sub := list[i].rule.action.rules;
    assert list[i].rule.action < list[i].rule < list[i];
    FindIsFirstEligible(sub, 0, q);
    match FindFrom(sub, 0, q)
    case Some(h) =>
      assert ([i] + h.pos)[1..] == h.pos;
    case None =>
  }

  /** What is reported with the selected rule is the length of its own selector, which starts
      the path. */
  lemma ChosenLength(list: seq<Item>, q: Query, h: Hit)
    requires FindFrom(list, 0, q) == Some(h)
    ensures h.minLen == PathMatch(q.path, h.rule.selector) && h.minLen <= |q.path|
    ensures !h.rule.selector.Defunct? && !h.rule.selector.Strange? && |h.rule.selector.text| == h.minLen
  {
    hide Eligible, RuleAt, Before, FindFrom;
    FindIsFirstEligible(list, 0, q);
  }

  /** The loop over a rule list, recursive in subtrees; a subtree without a match lets the
      loop go on. */
  method FindRule(list: seq<Item>, q: Query) returns (hit: Option<Hit>)
    ensures hit == FindFrom(list, 0, q)
    decreases list
  {
    var i := 0;
    while i < |list|
      invariant i <= |list|
      invariant FindFrom(list, i, q) == FindFrom(list, 0, q)
    {
      if list[i].Has? {
        var r := list[i].rule;
        if r.conditional {
          return None;
        }
        if !r.selector.Defunct? && Accepts(r, q) {
          if !r.action.Subtree? {
            return Some(Hit([i], r, PathMatch(q.path, r.selector)));
          }
          assert list[i].rule.action < list[i].rule < list[i];
          var sub := FindRule(r.action.rules, q);
          if sub.Some? {
            return Some(sub.value.(pos := [i] + sub.value.pos));
          }
        }
      }
      i := i + 1;
    }
    hit := None;
  }

  // ---------------------------------------------------------------- translation

  /** The raw result of an action. `Overrun`: the suffix that replace_by copies would start
      behind the end of the path. */
  datatype Raw = Host(path: string) | NoHost | Overrun

  function ReplaceRule(path: string, replacement: string, s: Selector): Raw {
    match s
    case ByPrefix(t) => if |t| <= |path| then Host(replacement + path[|t|..]) else Overrun
    case ByDir(t) => if |t| <= |path| then Host(replacement + path[|t|..]) else Overrun
    case ByPath(t) => if path == t then Host(replacement) else NoHost
    case _ => NoHost
  }

  function StdAction(r: Rule, path: string): Raw {
    match r.action
    case UseOrigPath => Host(path)
    case ForceOrigPath => Host(path)
    case ForceOrigPathUnlessChroot => Host(path)
    case MapTo(target) => Host(if target == "" || target == "/" then path else target + path)
    case ReplaceBy(replacement) => ReplaceRule(path, replacement, r.selector)
    case SetPath(p) => Host(p)
    case _ => NoHost
  }

  /** clean_and_log_fs_mapping_result on a path without "..": split, drop ".", print. */
  function CleanHost(raw: string): string {
    Print(RemoveDots(Split(raw)))
  }

  /** ruletree_translate_path. What a "..", or an action outside this model, turns into on
      the host is up to `other`. */
  function Translate(r: Rule, path: string, other: string -> Option<string>): Option<string> {
    match StdAction(r, path)
    case Host(raw) =>
      if raw == "" || raw[0] != '/' then None
      else if HasDotdot(Components(raw)) then other(raw)
      else Some(CleanHost(raw))
    case NoHost => if r.action.ConditionalActions? || r.action.Procfs? then other(path) else None
    case Overrun => None
  }

  // ---------------------------------------------------------------- the shortcut

  lemma {:induction false} ComponentsConcat(s: string, t: string)
    ensures Components(s + "/" + t) == Components(s) + Components(t)
    decreases |s|
  {
    hide NextSlash, Components;
    var i := NextSlash(s);
    if i == |s| {
      ComponentsOfName(s);
      ComponentsPrefix(s, t);
    } else {
      var a, rest := s[..i], s[i + 1..];
      assert s == a + "/" + rest;
      assert s + "/" + t == a + "/" + (rest + "/" + t);
      ComponentsConcat(rest, t);
      ComponentsPrefix(a, rest);
      ComponentsPrefix(a, rest + "/" + t);
      assert Components(a) + (Components(rest) + Components(t)) == Components(a) + Components(rest) + Components(t);
    }
  }

  lemma ComponentsSnoc(s: string, c: string)
    requires IsName(c)
    ensures Components(s + "/" + c) == Components(s) + [c]
  {
    ComponentsConcat(s, c);
    ComponentsCons(c, "");
  }

  /** Appending "/component" to a cleaned host path is cleaning the longer host path, unless
      the cleaned path ends in a slash: then, and only then, a doubled slash is left over. */
  lemma CleanAppend(raw: string, c: string)
    requires raw != "" && raw[0] == '/'
    requires IsName(c) && c != "." && c != ".."
    ensures CleanHost(raw) + "/" + c == CleanHost(raw + "/" + c) <==> !EndsInSlash(CleanHost(raw))
  {
    CleanOfLonger(raw, c);
    PrintAppend(WithoutDots(Components(raw)), RemoveDots(Split(raw)).slash, c);
  }

  predicate EndsInSlash(s: string) {
    s != "" && s[|s| - 1] == '/'
  }

  lemma CleanOfLonger(raw: string, c: string)
    requires raw == "" || raw[0] == '/'
    requires IsName(c) && c != "." && c != ".."
    ensures raw != "" ==>
      CleanHost(raw) == Print(Path(WithoutDots(Components(raw)), true, RemoveDots(Split(raw)).slash))
    ensures CleanHost(raw + "/" + c) == Print(Path(WithoutDots(Components(raw)) + [c], true, false))
  {
    hide Components, NextSlash, Print, WithoutDots;
    ComponentsSnoc(raw, c);
    WithoutDotsAppend(Components(raw), [c]);
    WithoutDotsClean([c]);
    LongerEnds(raw, c);
    assert (Components(raw) + [c])[|Components(raw)|] == c;
  }

  lemma LongerEnds(raw: string, c: string)
    requires (raw == "" || raw[0] == '/') && IsName(c)
    ensures
      var long := raw + "/" + c;
      long != "" && long[0] == '/' && long[|long| - 1] != '/'
  {
    assert c[|c| - 1] in c;
  }

  lemma PrintAppendLength(names: seq<string>, slash: bool, c: string)
    requires AllNames(names) && IsName(c)
    ensures |Print(Path(names, true, slash)) + "/" + c| ==
            |Print(Path(names + [c], true, false))| + (if names == [] || slash then 1 else 0)
  {
    JoinSnoc(names, c);
  }

  lemma PrintAppend(names: seq<string>, slash: bool, c: string)
    requires AllNames(names) && IsName(c)
    ensures EndsInSlash(Print(Path(names, true, slash))) <==> names == [] || slash
    ensures Print(Path(names, true, slash)) + "/" + c == Print(Path(names + [c], true, false)) <==>
            !EndsInSlash(Print(Path(names, true, slash)))
  {
    JoinSnoc(names, c);
    PrintAppendLength(names, slash, c);
    var short, long := Print(Path(names, true, slash)), Print(Path(names + [c], true, false));
    if names != [] {
      JoinEnds(names);
      if !slash {
        assert short + "/" + c == "/" + Join(names) + "" + "/" + c;
        assert long == "/" + (Join(names) + "/" + c) + "";
      }
    }
  }

  lemma {:induction false} JoinSnoc(cs: seq<string>, c: string)
    ensures Join(cs + [c]) == if cs == [] then c else Join(cs) + "/" + c
    decreases |cs|
  {
    if |cs| == 1 {
      assert (cs + [c])[1..] == [c];
    } else if |cs| > 1 {
      assert (cs + [c])[1..] == cs[1..] + [c];
      JoinSnoc(cs[1..], c);
    }
  }

  /** The virtual prefix that ends with component `i`, as it is handed to translation. */
  function Prefix(names: seq<string>, i: nat): string
    requires i < |names|
  {
    Print(Path(names[..i + 1], true, false))
  }

  /** Rules whose result is the path itself, or a fixed string in front of the path or of a
      suffix of it that starts behind the selector. */
  predicate PrefixRule(r: Rule) {
    match r.action
    case UseOrigPath => true
    case ForceOrigPath => true
    case ForceOrigPathUnlessChroot => true
    case MapTo(_) => true
    case ReplaceBy(_) => r.selector.ByPrefix? || r.selector.ByDir?
    case _ => false
  }

  /** Does the shortcut apply? It does not for rules with conditions or for /proc. */
  predicate TranslateForAll(r: Rule) {
    r.action.ConditionalActions? || r.action.Procfs?
  }

  /** A NULL host path, as "%s" prints it. */
  function Text(h: Option<string>): string {
    if h.Some? then h.value else "(null)"
  }

  /** The host path that the resolution loop probes for component `i`, when its first probe
      was for component `first`: translated once, then extended by "/component". */
  function MappedAt(r: Rule, names: seq<string>, slash: bool, first: nat, i: nat,
                    other: string -> Option<string>): Option<string>
    requires first <= i < |names|
    decreases i
  {
    if i == first then Translate(r, Prefix(names, i), other)
    else if TranslateForAll(r) then Translate(r, Print(Path(names[..i + 1], true, slash)), other)
    else Some(Text(MappedAt(r, names, slash, first, i - 1, other)) + "/" + names[i])
  }

  lemma PrefixSnoc(names: seq<string>, i: nat)
    requires i + 1 < |names|
    ensures Prefix(names, i + 1) == Prefix(names, i) + "/" + names[i + 1]
  {
    assert names[..i + 2] == names[..i + 1] + [names[i + 1]];
    JoinSnoc(names[..i + 1], names[i + 1]);
  }

  lemma RawSnoc(r: Rule, path: string, c: string)
    requires PrefixRule(r) && StdAction(r, path).Host?
    ensures StdAction(r, path + "/" + c) == Host(StdAction(r, path).path + "/" + c)
  {
    match r.action
    case MapTo(t) =>
      assert t + (path + "/" + c) == (t + path) + "/" + c;
    case ReplaceBy(rep) =>
      var n := |r.selector.text|;
      assert (path + "/" + c)[n..] == path[n..] + "/" + c;
      assert rep + (path[n..] + "/" + c) == (rep + path[n..]) + "/" + c;
    case _ =>
  }

  ghost predicate GoodRaw(raw: Raw) {
    raw.Host? && raw.path != "" && raw.path[0] == '/' && !HasDotdot(Components(raw.path))
  }

  /** One component further, on the host side. */
  lemma TranslateStep(r: Rule, path: string, c: string, other: string -> Option<string>)
    requires PrefixRule(r) && GoodRaw(StdAction(r, path))
    requires IsName(c) && c != "." && c != ".."
    ensures GoodRaw(StdAction(r, path + "/" + c))
    ensures
      var a, b := Translate(r, path, other), Translate(r, path + "/" + c, other);
      && a.Some? && b.Some? && !EndsInSlash(b.value)
      && |a.value + "/" + c| == |b.value| + (if EndsInSlash(a.value) then 1 else 0)
      && (!EndsInSlash(a.value) ==> a.value + "/" + c == b.value)
  {
    hide Components, NextSlash, Print, Join, Split, RemoveDots, CleanHost, StdAction, WithoutDots;
    var raw := StdAction(r, path).path;
    RawSnoc(r, path, c);
    ComponentsSnoc(raw, c);
    NoDotdotAppend(Components(raw), [c]);
    CleanOfLonger(raw, c);
    var ns, sl := WithoutDots(Components(raw)), RemoveDots(Split(raw)).slash;
    PrintAppend(ns, sl, c);
    PrintAppendLength(ns, sl, c);
    PrintAppend(ns + [c], false, c);
  }

  /** What the loop starts from: a translation that works and stays clear of "..". */
  ghost predicate Starts(r: Rule, names: seq<string>, first: nat)
    requires first < |names|
  {
    && PrefixRule(r) && AllNames(names) && IsClean(names)
    && GoodRaw(StdAction(r, Prefix(names, first)))
  }

  lemma {:induction false} RawAt(r: Rule, names: seq<string>, first: nat, i: nat,
                                 other: string -> Option<string>)
    requires first <= i < |names| && Starts(r, names, first)
    ensures GoodRaw(StdAction(r, Prefix(names, i)))
    decreases i
  {
    if i > first {
      RawAt(r, names, first, i - 1, other);
      PrefixSnoc(names, i - 1);
      assert IsName(names[i]) && names[i] in names;
      TranslateStep(r, Prefix(names, i - 1), names[i], other);
    }
  }

  /** How much longer the shortcut's string is than the full translation: not at all, or by
      the one slash that the first translation left at its end. */
  lemma {:induction false} ShortcutLength(r: Rule, names: seq<string>, slash: bool, first: nat, i: nat,
                                          other: string -> Option<string>)
    requires first < i < |names| && Starts(r, names, first)
    ensures
      var start := Translate(r, Prefix(names, first), other);
      var full := Translate(r, Prefix(names, i), other);
      var short := MappedAt(r, names, slash, first, i, other);
      && start.Some? && full.Some? && short.Some? && !EndsInSlash(full.value)
      && |short.value| == |full.value| + (if EndsInSlash(start.value) then 1 else 0)
      && (!EndsInSlash(start.value) ==> short == full)
    decreases i
  {
    hide Translate, StdAction, Prefix, Print, Join, Components, NextSlash;
    RawAt(r, names, first, i - 1, other);
    PrefixSnoc(names, i - 1);
    assert IsName(names[i]) && names[i] in names;
    TranslateStep(r, Prefix(names, i - 1), names[i], other);
    if i - 1 > first {
      ShortcutLength(r, names, slash, first, i - 1, other);
    }
  }

  /** The performance shortcut of the resolution loop: extending the mapped prefix by
      "/component" equals translating the whole longer prefix exactly when the first
      translation does not end in a slash. */
  lemma ShortcutIsTranslation(r: Rule, names: seq<string>, slash: bool, first: nat, i: nat,
                              other: string -> Option<string>)
    requires first <= i < |names| && Starts(r, names, first)
    ensures Translate(r, Prefix(names, first), other).Some?
    ensures MappedAt(r, names, slash, first, i, other) == Translate(r, Prefix(names, i), other) <==>
            (i == first || !EndsInSlash(Translate(r, Prefix(names, first), other).value))
  {
    if i > first {
      ShortcutLength(r, names, slash, first, i, other);
    }
  }
}
