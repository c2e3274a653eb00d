/** Simulated user and group ids, and the string that hands them over to a program that is
    executed (preload/vperm_uid_gid_gates.c). */
module SimulatedIds {
  import opened Options

  const WORD: nat := 0x1_0000_0000
  const HALF: nat := 0x8000_0000

  type Id = n: nat | n < WORD

  /** Owner and group shown for files that the database does not know. */
  datatype Unknown = Unknown(owner: Id, group: Id)

  datatype Four = Four(actual: Id, effective: Id, saved: Id, fs: Id)

  /** vperm_uids_gids_s, once it is initialized. */
  datatype Ids = Ids(uids: Four, gids: Four, unknown: Option<Unknown>, simulateRoot: bool)

  /** (int)id, and back. */
  function ToSigned(n: Id): int {
    if n < HALF then n else n - WORD
  }

  function FromSigned(i: int): Id {
    i % WORD
  }

  // ---------------------------------------------------------------- printing and scanning numbers

  predicate IsDigit(c: char) {
    '0' <= c <= '9'
  }

  function Digit(d: nat): char
    requires d < 10
  {
    '0' + d as char
  }

  function Digits(n: nat): string {
    if n < 10 then [Digit(n)] else Digits(n / 10) + [Digit(n % 10)]
  }

  /** "%d" */
  function Decimal(i: int): string {
    if i < 0 then "-" + Digits(-i) else Digits(i)
  }

  datatype Scanned = Scanned(value: int, rest: string)

  /** The digits at the front of a string, behind a number that was read already. */
  function ScanDigits(s: string, before: nat): Scanned {
    if s != "" && IsDigit(s[0]) then ScanDigits(s[1..], 10 * before + (s[0] - '0') as nat)
    else Scanned(before, s)
  }

  /** "%d" of scanf: an optional sign and at least one digit. */
  function ScanInt(s: string): Option<Scanned> {
    var signed := s != "" && (s[0] == '-' || s[0] == '+');
    var t := if signed then s[1..] else s;
    if t == "" || !IsDigit(t[0]) then None
    else
      var r := ScanDigits(t, 0);
      Some(if signed && s[0] == '-' then Scanned(-r.value, r.rest) else r)
  }

  predicate Ends(s: string) {
    s == "" || !IsDigit(s[0])
  }

  lemma {:induction false} ScanDigitsOf(n: nat, rest: string)
    ensures ScanDigits(Digits(n) + rest, 0) == ScanDigits(rest, n)
    ensures Digits(n) != "" && IsDigit(Digits(n)[0])
  {
    var d := Digit(n % 10);
    if n < 10 {
      assert (Digits(n) + rest)[1..] == rest;
    } else {
      ScanDigitsOf(n / 10, [d] + rest);
      assert Digits(n / 10) + ([d] + rest) == Digits(n) + rest;
      assert ([d] + rest)[1..] == rest;
    }
  }

  lemma ScanDigitsStop(n: nat, rest: string)
    requires Ends(rest)
    ensures ScanDigits(rest, n) == Scanned(n, rest)
  {
  }

  /** What was printed is read back, up to the first character that is not a digit. */
  lemma ScanIntOf(i: int, rest: string)
    requires Ends(rest)
    ensures ScanInt(Decimal(i) + rest) == Some(Scanned(i, rest))
  {
    hide Digits, ScanDigits, IsDigit;
    var n := if i < 0 then -i else i;
    ScanDigitsOf(n, rest);
    ScanDigitsStop(n, rest);
    if i < 0 {
      assert (Decimal(i) + rest)[1..] == Digits(n) + rest;
    } else {
      assert (Decimal(i) + rest)[0] == Digits(n)[0];
    }
  }

  // ---------------------------------------------------------------- the string

  function PrintFour(f: Four, rest: string): string {
    Decimal(ToSigned(f.actual)) + (":" + (Decimal(ToSigned(f.effective)) + (":" +
      (Decimal(ToSigned(f.saved)) + (":" + (Decimal(ToSigned(f.fs)) + rest))))))
  }

  function PrintUnknown(u: Option<Unknown>, rest: string): string {
    match u
    case None => rest
    case Some(k) => ",f" + (Decimal(ToSigned(k.owner)) + ("." + (Decimal(ToSigned(k.group)) + rest)))
  }

  function PrintIds(ids: Ids): string {
    "u" + PrintFour(ids.uids, ",g" + PrintFour(ids.gids, PrintUnknown(ids.unknown, if ids.simulateRoot then "" else ",p")))
  }

  /** The ids that a program starts with: set-user-id and set-group-id programs get the ids of
      the file as their effective ids, and the saved ids are the effective ones. */
  function AtExec(ids: Ids, setUid: bool, setGid: bool, owner: Id, group: Id): Ids {
    var euid := if setUid then owner else ids.uids.effective;
    var egid := if setGid then group else ids.gids.effective;
    ids.(uids := ids.uids.(effective := euid, saved := euid), gids := ids.gids.(effective := egid, saved := egid))
  }

  /** vperm_export_ids_as_string_for_exec, without a user's request. */
  function Export(ids: Ids, setUid: bool, setGid: bool, owner: Id, group: Id): string {
    PrintIds(AtExec(ids, setUid, setGid, owner, group))
  }

  /** strchr: what stands behind the first `c`. */
  function Behind(s: string, c: char): Option<string> {
    if s == "" then None else if s[0] == c then Some(s[1..]) else Behind(s[1..], c)
  }

  function ScanSeparated(s: string, sep: char): Option<Scanned> {
    if s == "" || s[0] != sep then None else ScanInt(s[1..])
  }

  /** "%d:%d:%d:%d" */
  function ScanFour(s: string): Option<Four> {
    match ScanInt(s)
    case None => None
    case Some(a) =>
      match ScanSeparated(a.rest, ':')
      case None => None
      case Some(b) =>
        match ScanSeparated(b.rest, ':')
        case None => None
        case Some(c) =>
          match ScanSeparated(c.rest, ':')
          case None => None
          case Some(d) =>
            Some(Four(FromSigned(a.value), FromSigned(b.value), FromSigned(c.value), FromSigned(d.value)))
  }

  /** Four ids behind the letter `c`, if the string has them. */
  function FourFrom(s: string, c: char, os: Four): Four {
    match Behind(s, c)
    case None => os
    case Some(t) => (match ScanFour(t) case None => os case Some(f) => f)
  }

  function UnknownFrom(s: string): Option<Unknown> {
    match Behind(s, 'f')
    case None => None
    case Some(t) =>
      match ScanInt(t)
      case None => None
      case Some(a) =>
        match ScanSeparated(a.rest, '.')
        case None => None
        case Some(b) => Some(Unknown(FromSigned(a.value), FromSigned(b.value)))
  }

  /** initialize_simulated_ids: from the string, or from the operating system where the string
      has nothing. */
  function Initialize(s: string, osUids: Four, osGids: Four): Ids {
    Ids(FourFrom(s, 'u', osUids), FourFrom(s, 'g', osGids), UnknownFrom(s), Behind(s, 'p').None?)
  }

  // ---------------------------------------------------------------- the round trip

  predicate IsLetter(c: char) {
    'a' <= c <= 'z'
  }

  lemma {:induction false} Skips(a: string, b: string, c: char)
    requires c !in a
    ensures Behind(a + b, c) == Behind(b, c)
  {
    if a == "" {
      assert a + b == b;
    } else {
      assert (a + b)[1..] == a[1..] + b;
      Skips(a[1..], b, c);
    }
  }

  lemma {:induction false} DigitsAreDigits(n: nat, c: char)
    requires !IsDigit(c)
    ensures c !in Digits(n)
  {
    if n >= 10 {
      DigitsAreDigits(n / 10, c);
    }
  }

  lemma SkipsDecimal(i: int, b: string, c: char)
    requires IsLetter(c)
    ensures Behind(Decimal(i) + b, c) == Behind(b, c)
  {
    DigitsAreDigits(if i < 0 then -i else i, c);
    Skips(Decimal(i), b, c);
  }

  lemma SkipsChar(x: char, b: string, c: char)
    requires x != c
    ensures Behind([x] + b, c) == Behind(b, c)
  {
    Skips([x], b, c);
  }

  lemma ScanSeparatedOf(sep: char, i: int, rest: string)
    requires Ends(rest)
    ensures ScanSeparated([sep] + (Decimal(i) + rest), sep) == Some(Scanned(i, rest))
  {
    assert ([sep] + (Decimal(i) + rest))[1..] == Decimal(i) + rest;
    ScanIntOf(i, rest);
  }

  lemma ScanFourOf(f: Four, rest: string)
    requires Ends(rest)
    ensures ScanFour(PrintFour(f, rest)) == Some(f)
  {
    hide ScanInt, ScanSeparated, Decimal;
    var d := Decimal(ToSigned(f.fs)) + rest;
    var c := Decimal(ToSigned(f.saved)) + (":" + d);
    var b := Decimal(ToSigned(f.effective)) + (":" + c);
    ScanSeparatedOf(':', ToSigned(f.fs), rest);
    ScanSeparatedOf(':', ToSigned(f.saved), ":" + d);
    ScanSeparatedOf(':', ToSigned(f.effective), ":" + c);
    ScanIntOf(ToSigned(f.actual), ":" + b);
  }

  lemma SkipsFour(f: Four, b: string, c: char)
    requires IsLetter(c)
    ensures Behind(PrintFour(f, b), c) == Behind(b, c)
  {
    hide Behind, Decimal;
    var r3 := Decimal(ToSigned(f.fs)) + b;
    var r2 := Decimal(ToSigned(f.saved)) + (":" + r3);
    var r1 := Decimal(ToSigned(f.effective)) + (":" + r2);
    SkipsDecimal(ToSigned(f.actual), ":" + r1, c);
    SkipsChar(':', r1, c);
    SkipsDecimal(ToSigned(f.effective), ":" + r2, c);
    SkipsChar(':', r2, c);
    SkipsDecimal(ToSigned(f.saved), ":" + r3, c);
    SkipsChar(':', r3, c);
    SkipsDecimal(ToSigned(f.fs), b, c);
  }

  lemma SkipsMark(x: char, b: string, c: char)
    requires IsLetter(c)
    ensures Behind("," + ([x] + b), c) == if x == c then Some(b) else Behind(b, c)
  {
    SkipsChar(',', [x] + b, c);
    assert ([x] + b)[1..] == b;
  }

  lemma TailOf(simulate: bool, c: char)
    requires IsLetter(c)
    ensures
      var tail := if simulate then "" else ",p";
      Ends(tail) && (Behind(tail, c).Some? <==> c == 'p' && !simulate)
  {
    assert ",p" == "," + (['p'] + "");
    SkipsMark('p', "", c);
  }

  /** The last part of the string: the unknown owner, and the mark for file permissions. */
  lemma LastPart(u: Option<Unknown>, simulate: bool)
    ensures
      var s := PrintUnknown(u, if simulate then "" else ",p");
      && Ends(s) && UnknownFrom(s) == u
      && (Behind(s, 'p').None? <==> simulate)
      && Behind(s, 'u').None? && Behind(s, 'g').None?
  {
    var tail := if simulate then "" else ",p";
    TailOf(simulate, 'p');
    TailOf(simulate, 'f');
    TailOf(simulate, 'u');
    TailOf(simulate, 'g');
    if u.Some? {
      UnknownPart(u.value, tail);
      UnknownSkipped(u.value, tail, 'p');
      UnknownSkipped(u.value, tail, 'u');
      UnknownSkipped(u.value, tail, 'g');
    }
  }

  lemma UnknownPart(k: Unknown, tail: string)
    requires Ends(tail)
    ensures UnknownFrom(PrintUnknown(Some(k), tail)) == Some(k) && Ends(PrintUnknown(Some(k), tail))
  {
    hide Behind, ScanInt, ScanSeparated, Decimal;
    var b := Decimal(ToSigned(k.group)) + tail;
    var a := Decimal(ToSigned(k.owner)) + ("." + b);
    assert ",f" + a == "," + (['f'] + a);
    SkipsMark('f', a, 'f');
    ScanIntOf(ToSigned(k.owner), "." + b);
    ScanSeparatedOf('.', ToSigned(k.group), tail);
  }

  lemma UnknownSkipped(k: Unknown, tail: string, c: char)
    requires IsLetter(c) && c != 'f'
    ensures Behind(PrintUnknown(Some(k), tail), c) == Behind(tail, c)
  {
    hide Behind, Decimal;
    var b := Decimal(ToSigned(k.group)) + tail;
    var a := Decimal(ToSigned(k.owner)) + ("." + b);
    assert ",f" + a == "," + (['f'] + a);
    SkipsMark('f', a, c);
    SkipsDecimal(ToSigned(k.owner), "." + b, c);
    SkipsChar('.', b, c);
    SkipsDecimal(ToSigned(k.group), tail, c);
  }

  lemma GidPart(gids: Four, last: string, c: char)
    requires IsLetter(c)
    ensures
      var s := ",g" + PrintFour(gids, last);
      Ends(s) && Behind(s, c) == if c == 'g' then Some(PrintFour(gids, last)) else Behind(last, c)
  {
    hide Behind, PrintFour;
    var four := PrintFour(gids, last);
    assert ",g" + four == "," + (['g'] + four);
    SkipsMark('g', four, c);
    SkipsFour(gids, last, c);
  }

  lemma UidPart(uids: Four, rest: string, c: char)
    requires IsLetter(c)
    ensures Behind("u" + PrintFour(uids, rest), c) ==
            if c == 'u' then Some(PrintFour(uids, rest)) else Behind(rest, c)
  {
    hide PrintFour;
    var four := PrintFour(uids, rest);
    assert ("u" + four)[1..] == four;
    SkipsFour(uids, rest, c);
  }

  /** Printed ids are read back, all of them, whatever the operating system says. */
  lemma PrintedIdsAreRead(ids: Ids, osUids: Four, osGids: Four)
    ensures Initialize(PrintIds(ids), osUids, osGids) == ids
  {
    hide Behind, PrintFour, PrintUnknown, ScanFour, Ends;
    var last := PrintUnknown(ids.unknown, if ids.simulateRoot then "" else ",p");
    var mid := ",g" + PrintFour(ids.gids, last);
    LastPart(ids.unknown, ids.simulateRoot);
    GidPart(ids.gids, last, 'g');
    GidPart(ids.gids, last, 'f');
    GidPart(ids.gids, last, 'p');
    UidPart(ids.uids, mid, 'u');
    UidPart(ids.uids, mid, 'g');
    UidPart(ids.uids, mid, 'f');
    UidPart(ids.uids, mid, 'p');
    ScanFourOf(ids.uids, mid);
    ScanFourOf(ids.gids, last);
  }

  /** The ids of a program that was executed: its parent's, except that effective and saved ids
      are those of the file where it is set-user-id or set-group-id, and the parent's effective
      ids where it is not. */
  predicate Inherits(child: Ids, parent: Ids, setUid: bool, setGid: bool, owner: Id, group: Id) {
    && child.uids.actual == parent.uids.actual && child.uids.fs == parent.uids.fs
    && child.gids.actual == parent.gids.actual && child.gids.fs == parent.gids.fs
    && child.uids.effective == child.uids.saved == (if setUid then owner else parent.uids.effective)
    && child.gids.effective == child.gids.saved == (if setGid then group else parent.gids.effective)
    && child.unknown == parent.unknown && child.simulateRoot == parent.simulateRoot
  }

  lemma ExportedIdsAreRead(ids: Ids, setUid: bool, setGid: bool, owner: Id, group: Id, osUids: Four, osGids: Four)
    ensures Inherits(Initialize(Export(ids, setUid, setGid, owner, group), osUids, osGids),
                     ids, setUid, setGid, owner, group)
  {
    PrintedIdsAreRead(AtExec(ids, setUid, setGid, owner, group), osUids, osGids);
  }

  /** What the string does not have comes from the operating system, part by part; files of
      unknown owners are then left alone, and permissions simulated. */
  lemma MissingPartsAreOwn(s: string, osUids: Four, osGids: Four)
    ensures
      var ids := Initialize(s, osUids, osGids);
      && ('u' !in s ==> ids.uids == osUids)
      && ('g' !in s ==> ids.gids == osGids)
      && ('f' !in s ==> ids.unknown == None)
      && ids.simulateRoot == ('p' !in s)
    ensures Initialize("", osUids, osGids) == Ids(osUids, osGids, None, true)
  {
    NothingBehind(s, 'u');
    NothingBehind(s, 'g');
    NothingBehind(s, 'f');
    NothingBehind(s, 'p');
  }

  lemma {:induction false} NothingBehind(s: string, c: char)
    ensures Behind(s, c).None? <==> c !in s
  {
    if s != "" {
      NothingBehind(s[1..], c);
    }
  }

  // ---------------------------------------------------------------- the process-wide state

  /** The static structure, filled on first use and handed on at exec. */
  class IdState {
    var initialized: bool
    var uids: Four
    var gids: Four
    var setUnknown: bool
    var unknownOwner: Id
    var unknownGroup: Id
    var simulateRoot: bool

    constructor ()
      ensures !initialized && !setUnknown && simulateRoot
    {
      initialized, setUnknown, simulateRoot := false, false, true;
      uids, gids, unknownOwner, unknownGroup := Four(0, 0, 0, 0), Four(0, 0, 0, 0), 0, 0;
    }

    function Value(): Ids
      reads this
    {
      Ids(uids, gids, if setUnknown then Some(Unknown(unknownOwner, unknownGroup)) else None, simulateRoot)
    }

    /** initialize_simulated_ids: each part on its own, from the string or else from the
        operating system. */
    method InitializeIds(env: Option<string>, osUids: Four, osGids: Four)
      requires !initialized ==> !setUnknown && simulateRoot
      modifies this
      ensures initialized
      ensures Value() == if old(initialized) then old(Value())
                         else Initialize(if env.Some? then env.value else "", osUids, osGids)
    {
      if initialized {
        return;
      }
      uids, gids := osUids, osGids;
      if env.Some? {
        uids := FourFrom(env.value, 'u', osUids);
        gids := FourFrom(env.value, 'g', osGids);
        var unknown := UnknownFrom(env.value);
        if unknown.Some? {
          setUnknown, unknownOwner, unknownGroup := true, unknown.value.owner, unknown.value.group;
        }
        if Behind(env.value, 'p').Some? {
          simulateRoot := false;
        }
      }
      initialized := true;
    }

    /** vperm_export_ids_as_string_for_exec, when the user has not requested other ids. They are
        initialized first, if they are not yet; then, whatever the operating system says to it,
        a program that reads the string inherits them. */
    method ExportForExec(env: Option<string>, osUids: Four, osGids: Four,
                         setUid: bool, setGid: bool, owner: Id, group: Id) returns (s: string)
      requires !initialized ==> !setUnknown && simulateRoot
      modifies this
      ensures initialized
      ensures Value() == if old(initialized) then old(Value())
                         else Initialize(if env.Some? then env.value else "", osUids, osGids)
      ensures forall uids', gids' ::
        Inherits(Initialize(s, uids', gids'), Value(), setUid, setGid, owner, group)
    {
      hide PrintIds, Initialize;
      InitializeIds(env, osUids, osGids);
      var euid, egid := uids.effective, gids.effective;
      if setUid {
        euid := owner;
      }
      if setGid {
        egid := group;
      }
      var saved := Ids(uids.(effective := euid, saved := euid), gids.(effective := egid, saved := egid),
                       if setUnknown then Some(Unknown(unknownOwner, unknownGroup)) else None, simulateRoot);
      s := PrintIds(saved);
      forall uids', gids' ensures Initialize(s, uids', gids') == saved {
        PrintedIdsAreRead(saved, uids', gids');
      }
    }
  }
}
