/** Path strings and their components (pathmapping/pathlistutils.c). A C string is a
    sequence of characters; its terminator is not part of it. */
module Paths {

  /** A path as the engine keeps it: components, whether it is absolute, and whether it ends
      in a slash (PATH_FLAGS_ABSOLUTE, PATH_FLAGS_HAS_TRAILING_SLASH). */
  datatype Path = Path(names: seq<string>, abs: bool, slash: bool)

  predicate IsName(c: string) {
    c != "" && '/' !in c
  }

  predicate AllNames(cs: seq<string>) {
    forall i :: 0 <= i < |cs| ==> IsName(cs[i])
  }

  /** Index of the next slash, or the length when there is none. */
  function NextSlash(s: string): (i: nat)
    ensures i <= |s|
    ensures '/' !in s[..i]
    ensures i < |s| ==> s[i] == '/'
  {
    if s == "" || s[0] == '/' then 0 else 1 + NextSlash(s[1..])
  }

  /** The non-empty stretches between slashes. */
  function Components(s: string): (cs: seq<string>)
    ensures AllNames(cs)
    decreases |s|
  {
    var i := NextSlash(s);
    var rest := if i < |s| then Components(s[i + 1..]) else [];
    if i == 0 then rest else [s[..i]] + rest
  }

  function Split(s: string): Path {
    Path(Components(s), s != "" && s[0] == '/', s == "" || s[|s| - 1] == '/')
  }

  /** Components joined by single slashes. */
  function Join(cs: seq<string>): string {
    if cs == [] then "" else if |cs| == 1 then cs[0] else cs[0] + "/" + Join(cs[1..])
  }

  /** path_entries_to_string: an empty list prints as "/" whatever its flags say. */
  function Print(p: Path): string {
    if p.names == [] then "/"
    else (if p.abs then "/" else "") + Join(p.names) + (if p.slash then "/" else "")
  }

  // ---------------------------------------------------------------- round trips

  lemma {:induction false} NextSlashOf(c: string, s: string)
    requires '/' !in c && (s == "" || s[0] == '/')
    ensures NextSlash(c + s) == |c|
  {
    if c == "" {
      assert c + s == s;
    } else {
      assert (c + s)[1..] == c[1..] + s;
      NextSlashOf(c[1..], s);
    }
  }

  /** One component in front: of nothing, or of a slash and more. */
  lemma ComponentsCons(c: string, s: string)
    requires IsName(c)
    ensures Components(c) == [c]
    ensures Components(c + "/" + s) == [c] + Components(s)
  {
    NextSlashOf(c, "");
    assert c + "" == c && c[..|c|] == c;
    NextSlashOf(c, "/" + s);
    assert c + ("/" + s) == c + "/" + s;
    assert (c + "/" + s)[..|c|] == c;
    assert (c + "/" + s)[|c| + 1..] == s;
  }

  lemma ComponentsSlash(s: string)
    ensures Components("/" + s) == Components(s)
  {
    assert ("/" + s)[1..] == s;
  }

  /** A stretch without slashes, in front of a slash. */
  lemma ComponentsPrefix(a: string, s: string)
    requires '/' !in a
    ensures Components(a + "/" + s) == Components(a) + Components(s)
  {
    hide NextSlash, Components;
    ComponentsOfName(a);
    if a == "" {
      assert a + "/" + s == "/" + s && [] + Components(s) == Components(s);
      ComponentsSlash(s);
    } else {
      ComponentsCons(a, s);
    }
  }

  lemma ComponentsOfName(a: string)
    requires '/' !in a
    ensures Components(a) == if a == "" then [] else [a]
  {
    hide NextSlash, Components;
    ComponentsOfNone();
    if a != "" {
      ComponentsCons(a, "");
    }
  }

  lemma ComponentsOfNone()
    ensures Components("") == [] && Components("/") == []
  {
    ComponentsSlash("");
    assert "/" + "" == "/";
  }

  lemma JoinHead(cs: seq<string>)
    requires cs != []
    ensures Join(cs) == if |cs| == 1 then cs[0] else cs[0] + "/" + Join(cs[1..])
  {
  }

  lemma {:induction false} ComponentsOfJoin(cs: seq<string>, tail: string)
    requires AllNames(cs) && cs != [] && (tail == "" || tail == "/")
    ensures Components(Join(cs) + tail) == cs
    decreases |cs|
  {
    hide Components, NextSlash, Join;
    ComponentsOfNone();
    JoinHead(cs);
    if |cs| == 1 {
      ComponentsCons(cs[0], "");
      assert cs[0] + "/" + "" == cs[0] + "/" && cs[0] + "" == cs[0];
    } else {
      ComponentsOfJoin(cs[1..], tail);
      ComponentsCons(cs[0], Join(cs[1..]) + tail);
      assert Join(cs) + tail == cs[0] + "/" + (Join(cs[1..]) + tail);
    }
  }

  lemma {:induction false} JoinEnds(cs: seq<string>)
    requires AllNames(cs) && cs != []
    ensures Join(cs) != "" && Join(cs)[0] != '/' && Join(cs)[|Join(cs)| - 1] != '/'
    decreases |cs|
  {
    if |cs| == 1 {
      assert IsName(cs[0]);
    } else {
      assert IsName(cs[0]);
      JoinEnds(cs[1..]);
    }
  }

  lemma SplitOfBody(names: seq<string>, slash: bool)
    requires AllNames(names) && names != []
    ensures Split(Join(names) + if slash then "/" else "") == Path(names, false, slash)
  {
    hide Components, Join;
    var tail := if slash then "/" else "";
    ComponentsOfJoin(names, tail);
    JoinEnds(names);
  }

  /** Splitting what was printed gives back the components and both flags. */
  lemma SplitOfPrint(p: Path)
    requires AllNames(p.names) && p.names != []
    ensures Split(Print(p)) == p
  {
    hide Components, Join;
    var body := Join(p.names) + if p.slash then "/" else "";
    SplitOfBody(p.names, p.slash);
    if p.abs {
      assert Print(p) == "/" + body;
      ComponentsSlash(body);
    } else {
      assert Print(p) == body;
    }
  }

  /** The printed path uses exactly one character per slash: it never outgrows the buffer
      that path_entries_to_string_until measures before it fills it. */
  function BufferSize(cs: seq<string>): nat {
    if cs == [] then 2 else 1 + |cs[0]| + BufferSize(cs[1..])
  }

  lemma {:induction false} PrintFits(p: Path)
    ensures |Print(p)| + 1 <= BufferSize(p.names)
  {
    if p.names != [] {
      JoinLength(p.names);
    }
  }

  lemma {:induction false} JoinLength(cs: seq<string>)
    requires cs != []
    ensures |Join(cs)| + 3 == BufferSize(cs)
    decreases |cs|
  {
    if |cs| == 1 {
      assert BufferSize(cs[1..]) == 2;
    } else {
      JoinLength(cs[1..]);
    }
  }

  /** Printing what was split normalizes: doing it again changes nothing, and no run of
      slashes survives. */
  lemma PrintOfSplitIdempotent(s: string)
    ensures Print(Split(Print(Split(s)))) == Print(Split(s))
  {
    var p := Split(s);
    if p.names != [] {
      SplitOfPrint(p);
    } else {
      ComponentsOfNone();
    }
  }

  predicate HasDoubleSlash(s: string) {
    exists i :: 0 <= i < |s| - 1 && s[i] == '/' && s[i + 1] == '/'
  }

  lemma {:induction false} JoinIsSingleSlashed(cs: seq<string>)
    requires AllNames(cs)
    ensures !HasDoubleSlash(Join(cs))
    decreases |cs|
  {
    if |cs| == 1 {
      assert IsName(cs[0]);
    } else if |cs| > 1 {
      var rest := Join(cs[1..]);
      JoinIsSingleSlashed(cs[1..]);
      JoinEnds(cs[1..]);
      assert IsName(cs[0]);
      forall i | 0 <= i < |Join(cs)| - 1 && Join(cs)[i] == '/'
        ensures Join(cs)[i + 1] != '/'
      {
        if i > |cs[0]| {
          assert rest[i - |cs[0]| - 1] == '/';
        }
      }
    }
  }

  /** At most one slash before and one behind a text that has no runs of them. */
  lemma SingleSlashed(all: string, lead: nat, body: string)
    requires body != "" && !HasDoubleSlash(body) && body[0] != '/' && body[|body| - 1] != '/'
    requires lead <= 1 && lead + |body| <= |all| <= lead + |body| + 1 && all[lead..lead + |body|] == body
    ensures !HasDoubleSlash(all)
  {
    forall i | 0 <= i < |all| - 1 && all[i] == '/' ensures all[i + 1] != '/' {
      if lead <= i < lead + |body| {
        assert body[i - lead] == '/';
      }
    }
  }

  lemma PrintHasNoSlashRuns(s: string)
    ensures !HasDoubleSlash(Print(Split(s)))
  {
    hide Components, Join;
    var p := Split(s);
    if p.names != [] {
      var body := Join(p.names);
      JoinIsSingleSlashed(p.names);
      JoinEnds(p.names);
      var lead := if p.abs then 1 else 0;
      var tail := if p.slash then 1 else 0;
      var all := Print(p);
      assert |all| == lead + |body| + tail && all[lead..lead + |body|] == body;
      SingleSlashed(all, lead, body);
    }
  }

  // ---------------------------------------------------------------- "." and ".."

  predicate NoDots(cs: seq<string>) {
    forall i :: 0 <= i < |cs| ==> cs[i] != "."
  }

  predicate HasDotdot(cs: seq<string>) {
    exists i :: 0 <= i < |cs| && cs[i] == ".."
  }

  lemma NoDotdotAppend(xs: seq<string>, ys: seq<string>)
    requires !HasDotdot(xs) && !HasDotdot(ys)
    ensures !HasDotdot(xs + ys)
  {
    forall i | 0 <= i < |xs + ys| ensures (xs + ys)[i] != ".." {
      assert (xs + ys)[i] == if i < |xs| then xs[i] else ys[i - |xs|];
    }
  }

  /** remove_dots_from_path_list: a trailing "." counts as a trailing slash. */
  function WithoutDots(cs: seq<string>): (r: seq<string>)
    ensures AllNames(cs) ==> AllNames(r)
    ensures NoDots(r)
    ensures HasDotdot(r) ==> HasDotdot(cs)
  {
    if cs == [] then []
    else if cs[0] == "." then WithoutDots(cs[1..])
    else [cs[0]] + WithoutDots(cs[1..])
  }

  function RemoveDots(p: Path): Path {
    p.(names := WithoutDots(p.names),
       slash := p.slash || (p.names != [] && p.names[|p.names| - 1] == "."))
  }

  predicate IsClean(cs: seq<string>) {
    NoDots(cs) && !HasDotdot(cs)
  }

  lemma {:induction false} WithoutDotsClean(cs: seq<string>)
    requires NoDots(cs)
    ensures WithoutDots(cs) == cs
  {
    if cs != [] {
      WithoutDotsClean(cs[1..]);
    }
  }

  lemma {:induction false} WithoutDotsAppend(xs: seq<string>, ys: seq<string>)
    ensures WithoutDots(xs + ys) == WithoutDots(xs) + WithoutDots(ys)
    decreases |xs|
  {
    if xs == [] {
      assert xs + ys == ys;
    } else {
      assert (xs + ys)[1..] == xs[1..] + ys;
      WithoutDotsAppend(xs[1..], ys);
    }
  }
}
