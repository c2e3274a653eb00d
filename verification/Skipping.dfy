/** Which components resolution passes over before it looks at the file system: as many as
    the selector of the chosen rule covers (pathmapping/pathresolution.c). */
module Skipping {
  import opened Paths
  import opened Rules
  import opened Resolution
  import opened Namespace

  /** Characters that the first `n` components and the slashes around them take up. */
  function Covered(lengths: seq<nat>, n: nat): nat
    requires n <= |lengths|
  {
    if n == 0 then 1 else Covered(lengths, n - 1) + lengths[n - 1] + 1
  }

  /** The loop never runs past the last component when the selector is not longer than the
      path, which is so for every rule that matches (`SelectorIsCovered`). */
  method SkipLoop(lengths: seq<nat>, minLen: nat) returns (first: nat)
    requires minLen <= Covered(lengths, |lengths|)
    ensures first == Skip(lengths, 1, minLen)
    ensures first <= |lengths| && minLen <= Covered(lengths, first)
    ensures first > 0 ==> Covered(lengths, first - 1) < minLen
  {
    var covered := 1;
    first := 0;
    while covered < minLen
      invariant first <= |lengths| && covered == Covered(lengths, first)
      invariant first + Skip(lengths[first..], covered, minLen) == Skip(lengths, 1, minLen)
      invariant first > 0 ==> Covered(lengths, first - 1) < minLen
      decreases minLen - covered
    {
      assert lengths[first..][1..] == lengths[first + 1..];
      covered := covered + lengths[first];
      covered := covered + 1;
      first := first + 1;
    }
  }

  lemma {:induction false} SkipStops(lengths: seq<nat>, n: nat, minLen: nat)
    requires n <= |lengths|
    ensures
      var first := n + Skip(lengths[n..], Covered(lengths, n), minLen);
      && first <= |lengths|
      && (first < |lengths| ==> minLen <= Covered(lengths, first))
    decreases |lengths| - n
  {
    if n < |lengths| && Covered(lengths, n) < minLen {
      assert lengths[n..][1..] == lengths[n + 1..];
      SkipStops(lengths, n + 1, minLen);
    }
  }

  lemma {:induction false} CoveredGrows(lengths: seq<nat>, m: nat, n: nat)
    requires m < n <= |lengths|
    ensures Covered(lengths, m) + lengths[m] + 1 <= Covered(lengths, n)
    decreases n
  {
    if m + 1 < n {
      CoveredGrows(lengths, m, n - 1);
    }
  }

  // ---------------------------------------------------------------- lengths of printed paths

  lemma {:induction false} FrontLength(names: seq<Comp>, n: nat)
    requires 0 < n <= |names|
    ensures |VirtualPath(names[..n], false)| + 1 == Covered(Lengths(names), n)
    decreases n
  {
    var front := Texts(names[..n - 1]);
    assert Texts(names[..n]) == front + [TextOf(names[n - 1])];
    JoinSnoc(front, TextOf(names[n - 1]));
    if n > 1 {
      FrontLength(names, n - 1);
    }
  }

  lemma PathLength(names: seq<Comp>, slash: bool)
    ensures |VirtualPath(names, slash)| ==
            if names == [] then 1
            else Covered(Lengths(names), |names|) - (if slash then 0 else 1)
  {
    hide Join, Covered, Lengths;
    if names != [] {
      FrontLength(names, |names|);
      assert names[..|names|] == names;
    }
  }

  lemma MatchIsNotLonger(path: string, s: Selector)
    ensures PathMatch(path, s) <= |path|
  {
  }

  /** The selector of a rule that matches is covered by the components of the path. */
  lemma SelectorIsCovered(r: Rule, names: seq<Comp>, slash: bool)
    ensures PathMatch(VirtualPath(names, slash), r.selector) <= Covered(Lengths(names), |names|)
  {
    MatchIsNotLonger(VirtualPath(names, slash), r.selector);
    PathLength(names, slash);
  }

  // ---------------------------------------------------------------- the translated prefix

  /** What is translated before the loop over the components starts: the path up to and
      including the first component to examine, or all of it when none is left. */
  function FirstPrefix(names: seq<Comp>, first: nat): string {
    VirtualPath(if first < |names| then names[..first + 1] else names, false)
  }

  lemma FirstPrefixLength(names: seq<Comp>, first: nat)
    requires first <= |names|
    ensures |FirstPrefix(names, first)| ==
            if names == [] then 1
            else Covered(Lengths(names), if first < |names| then first + 1 else |names|) - 1
  {
    hide VirtualPath, Covered;
    if first < |names| {
      FrontLength(names, first + 1);
    } else {
      PathLength(names, false);
    }
  }

  /** The prefix falls short of the selector exactly when the selector takes in the whole
      path and the slash behind it. */
  lemma ShortIff(lengths: seq<nat>, minLen: nat)
    requires minLen <= Covered(lengths, |lengths|) && lengths != []
    ensures
      var first := Skip(lengths, 1, minLen);
      Covered(lengths, if first < |lengths| then first + 1 else first) - 1 < minLen <==>
      minLen == Covered(lengths, |lengths|)
  {
    var first := Skip(lengths, 1, minLen);
    SkipStops(lengths, 0, minLen);
    assert lengths[0..] == lengths;
    if first < |lengths| {
      CoveredGrows(lengths, first, |lengths|);
    }
  }

  lemma PrefixIsShortIff(names: seq<Comp>, slash: bool, minLen: nat)
    requires minLen <= |VirtualPath(names, slash)|
    ensures |FirstPrefix(names, Skip(Lengths(names), 1, minLen))| < minLen <==>
            names != [] && slash && minLen == |VirtualPath(names, slash)|
  {
    hide VirtualPath, FirstPrefix, Covered, Skip;
    PathLength(names, slash);
    FirstPrefixLength(names, Skip(Lengths(names), 1, minLen));
    if names != [] {
      ShortIff(Lengths(names), minLen);
    }
  }

  /** A replacement rule copies what stands behind its selector. The copy starts inside the
      translated prefix, except when the selector is the whole path and ends in a slash: then
      it starts one character behind the end. */
  lemma ReplacementOverrunsIff(r: Rule, names: seq<Comp>, slash: bool)
    requires r.action.ReplaceBy? && (r.selector.ByPrefix? || r.selector.ByDir?)
    requires PathMatch(VirtualPath(names, slash), r.selector) >= 0
    ensures StdAction(r, FirstPrefix(names, Skip(Lengths(names), 1, |r.selector.text|))) == Overrun <==>
            names != [] && slash && r.selector.text == VirtualPath(names, slash)
  {
    hide VirtualPath, FirstPrefix, Skip;
    var path, t := VirtualPath(names, slash), r.selector.text;
    assert t <= path;
    PrefixIsShortIff(names, slash, |t|);
    assert |t| == |path| ==> t == path;
  }

  /** The rule for "/a/" on the path "/a/". */
  lemma ReplacementOverruns(a: Comp, r: Rule)
    requires r.action.ReplaceBy? && r.selector == ByPrefix(VirtualPath([a], true))
    ensures StdAction(r, FirstPrefix([a], Skip(Lengths([a]), 1, |r.selector.text|))) == Overrun
  {
    hide FirstPrefix, Skip, Lengths, StdAction;
    PathLength([a], true);
    ReplacementOverrunsIff(r, [a], true);
  }
}
