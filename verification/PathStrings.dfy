/** The loops that take path strings apart and put them together (pathmapping/pathlistutils.c). */
module PathStrings {
  import opened Paths

  // ---------------------------------------------------------------- splitting

  method FindSlash(s: string, start: nat) returns (end: nat)
    requires start <= |s|
    ensures end == start + NextSlash(s[start..]) && end <= |s|
  {
    end := start;
    while end < |s| && s[end] != '/'
      invariant start <= end <= |s|
      invariant start + NextSlash(s[start..]) == end + NextSlash(s[end..])
    {
      assert s[end..][1..] == s[end + 1..];
      end := end + 1;
    }
  }

  method SkipSlashes(s: string) returns (start: nat)
    ensures start <= |s| && Components(s[start..]) == Components(s)
    ensures start > 0 ==> s[start - 1] == '/'
  {
    hide Components;
    start := 0;
    assert s[0..] == s;
    while start < |s| && s[start] == '/'
      invariant start <= |s| && Components(s[start..]) == Components(s)
      invariant start > 0 ==> s[start - 1] == '/'
    {
      assert s[start..] == "/" + s[start + 1..];
      ComponentsSlash(s[start + 1..]);
      start := start + 1;
    }
  }

  /** split_path_to_path_entries: stretches of length zero are dropped, but a string that
      ends in one has a trailing slash. */
  method SplitPath(s: string) returns (p: Path)
    ensures p == Split(s)
  {
    hide Components, NextSlash;
    var start := SkipSlashes(s);
    var names: seq<string>, slash, more := [], false, true;
    while more
      invariant start <= |s| && (start > 0 ==> s[start - 1] == '/')
      invariant more ==> names + Components(s[start..]) == Components(s) && !slash
      invariant !more ==> names == Components(s) && slash == (s == "" || s[|s| - 1] == '/')
      decreases more, |s| - start
    {
      var end := FindSlash(s, start);
      NextComponent(s, start, end);
      more := end < |s|;
      if end == start {
        slash := !more;
      } else {
        names := names + [s[start..end]];
      }
      if more {
        start := end + 1;
      }
    }
    p := Path(names, s != "" && s[0] == '/', slash);
  }

  lemma OneComponent(t: string)
    ensures
      var n := NextSlash(t);
      var rest := if n < |t| then Components(t[n + 1..]) else [];
      Components(t) == if n == 0 then rest else [t[..n]] + rest
  {
  }

  lemma NextComponent(s: string, start: nat, end: nat)
    requires start <= |s| && end == start + NextSlash(s[start..]) && end <= |s|
    ensures
      var rest := if end < |s| then Components(s[end + 1..]) else [];
      Components(s[start..]) == if end == start then rest else [s[start..end]] + rest
    ensures end < |s| ==> s[end] == '/'
    ensures start < end ==> s[end - 1] != '/'
  {
    hide NextSlash, Components;
    var t, n := s[start..], end - start;
    OneComponent(t);
    assert t[..n] == s[start..end];
    if end < |s| {
      assert t[n + 1..] == s[end + 1..];
    }
    SlashPositions(s, start, end);
  }

  lemma SlashPositions(s: string, start: nat, end: nat)
    requires start <= |s| && end == start + NextSlash(s[start..]) && end <= |s|
    ensures end < |s| ==> s[end] == '/'
    ensures start < end ==> s[end - 1] != '/'
  {
    hide NextSlash;
    var t, n := s[start..], end - start;
    if start < end {
      assert t[..n][n - 1] == s[end - 1];
    }
  }

  // ---------------------------------------------------------------- printing

  /** A component, and the slash behind it unless it is the last. */
  function Piece(names: seq<string>, k: nat): string
    requires k < |names|
  {
    names[k] + if k + 1 < |names| then "/" else ""
  }

  /** The text of the first `k` components. */
  function Written(names: seq<string>, k: nat): string
    requires k <= |names|
  {
    if k == 0 then "" else Written(names, k - 1) + Piece(names, k - 1)
  }

  lemma {:induction false} WrittenIsJoin(names: seq<string>, k: nat)
    requires k < |names|
    ensures Written(names, k) + Join(names[k..]) == Written(names, |names|)
    decreases |names| - k
  {
    var rest := names[k..];
    if k + 1 < |names| {
      WrittenIsJoin(names, k + 1);
      assert rest[1..] == names[k + 1..];
      assert Join(rest) == names[k] + "/" + Join(names[k + 1..]);
      assert Written(names, k) + (names[k] + "/" + Join(names[k + 1..])) ==
             (Written(names, k) + names[k] + "/") + Join(names[k + 1..]);
    } else {
      assert Join(rest) == names[k];
      assert Written(names, k) + names[k] + "" == Written(names, k) + names[k];
    }
  }

  lemma {:induction false} BufferPart(names: seq<string>, k: nat)
    requires k <= |names|
    ensures |Written(names, k)| + BufferSize(names[k..]) <= BufferSize(names)
    decreases k
  {
    if k > 0 {
      BufferPart(names, k - 1);
      assert names[k - 1..][1..] == names[k..];
    }
  }

  lemma {:induction false} BufferRest(names: seq<string>)
    ensures BufferSize(names) >= 2
  {
    if names != [] {
      BufferRest(names[1..]);
    }
  }

  method BufferLength(names: seq<string>) returns (len: nat)
    ensures len == BufferSize(names)
  {
    len := 0;
    var k := 0;
    while k < |names|
      invariant k <= |names| && len + BufferSize(names[k..]) == BufferSize(names)
    {
      assert names[k..][1..] == names[k + 1..];
      len := len + 1;
      len := len + |names[k]|;
      k := k + 1;
    }
    len := len + 2;
  }

  /** strcat: writes a text behind the first `n` characters. */
  method Append(buf: array<char>, n: nat, text: string) returns (end: nat)
    requires n + |text| < buf.Length
    modifies buf
    ensures end == n + |text| && buf[..end] == old(buf[..n]) + text
  {
    var i := 0;
    while i < |text|
      invariant i <= |text|
      invariant buf[..n + i] == old(buf[..n]) + text[..i]
    {
      buf[n + i] := text[i];
      i := i + 1;
    }
    end := n + i;
    assert text[..i] == text;
  }

  method AppendPiece(buf: array<char>, n: nat, names: seq<string>, k: nat) returns (end: nat)
    requires k < |names| && n + |Piece(names, k)| < buf.Length
    modifies buf
    ensures end == n + |Piece(names, k)| && buf[..end] == old(buf[..n]) + Piece(names, k)
  {
    ghost var start := buf[..n];
    end := Append(buf, n, names[k]);
    if k + 1 < |names| {
      end := Append(buf, end, "/");
      assert start + names[k] + "/" == start + (names[k] + "/");
    } else {
      assert start + names[k] == start + (names[k] + "");
    }
  }

  lemma PieceFits(names: seq<string>, k: nat)
    requires k < |names|
    ensures |Written(names, k)| + |Piece(names, k)| + 2 <= BufferSize(names)
  {
    BufferPart(names, k + 1);
    BufferRest(names[k + 1..]);
  }

  /** All components are written, with room for two more characters. */
  method AppendAll(buf: array<char>, n: nat, names: seq<string>) returns (end: nat)
    requires n <= 1 && buf.Length == BufferSize(names) && names != []
    modifies buf
    ensures end == n + |Join(names)| && end + 1 < buf.Length + n && buf[..end] == old(buf[..n]) + Join(names)
  {
    hide BufferSize, Piece, Join;
    end := n;
    var k := 0;
    BufferRest(names);
    ghost var start := buf[..n];
    assert start + Written(names, 0) == start;
    while k < |names|
      invariant k <= |names| && end == n + |Written(names, k)| && end < buf.Length
      invariant buf[..end] == start + Written(names, k)
    {
      PieceFits(names, k);
      end := AppendPiece(buf, end, names, k);
      assert start + Written(names, k) + Piece(names, k) == start + (Written(names, k) + Piece(names, k));
      k := k + 1;
    }
    PieceFits(names, |names| - 1);
    WrittenIsJoin(names, 0);
    assert names[0..] == names && "" + Join(names) == Join(names);
  }

  /** What is printed before the slash at the end. */
  function Body(p: Path): string {
    (if p.abs then "/" else "") + Join(p.names)
  }

  lemma PrintedBody(p: Path)
    requires AllNames(p.names) && p.names != []
    ensures Print(p) == Body(p) + if p.slash then "/" else ""
    ensures |Body(p)| + 2 <= BufferSize(p.names) && |Join(p.names)| + 3 == BufferSize(p.names)
    ensures Body(p) != "" && Body(p)[|Body(p)| - 1] != '/'
  {
    hide Join, BufferSize;
    JoinLength(p.names);
    JoinEnds(p.names);
  }

  /** path_entries_to_string: the buffer is measured first, and everything that is written
      to it, the terminator included, fits. */
  method PrintPath(p: Path) returns (buf: array<char>, n: nat)
    requires AllNames(p.names)
    ensures fresh(buf) && buf.Length == BufferSize(p.names)
    ensures n < buf.Length && buf[n] == '\0' && buf[..n] == Print(p)
  {
    if p.names == [] {
      return new char[2](i => if i == 0 then '/' else '\0'), 1;
    }
    hide Join, BufferSize, Print;
    var len := BufferLength(p.names);
    PrintedBody(p);
    buf := new char[len];
    n := 0;
    if p.abs {
      n := Append(buf, 0, "/");
    }
    n := AppendAll(buf, n, p.names);
    assert buf[..n] == Body(p);
    if p.slash && buf[n - 1] != '/' {
      n := Append(buf, n, "/");
    }
    buf[n] := '\0';
  }
}
