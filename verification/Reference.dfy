/** The reference: pathname resolution as one left-to-right walk, in the style of section
    4.13 of POSIX.1-2017 (Base Definitions). */
module Reference {
  import opened Resolution

  /** A virtual file system: what each absolute list of names denotes. `keepsSlash` and
      `keepsRest` are the two respects in which an absolute link can be followed other than
      it should be: whether a slash at the end of the path stays in force, and whether the
      rest of the path is kept behind a target of slashes only. Both are true of a natural
      walk, and neither of the engine's. */
  datatype Fs = Fs(
    entry: seq<Comp> -> Probe,
    kind: seq<Comp> -> FileKind,
    keepsSlash: bool,
    keepsRest: bool)

  /** What the walk yields: the real names, whether a slash follows, and the link expansions
      left over; or an error. */
  datatype Walked = Arrived(names: seq<Comp>, slash: bool, left: nat) | Error(errno: int) | Loops

  predicate IsDir(fs: Fs, names: seq<Comp>) {
    names == [] || fs.kind(names).Directory?
  }

  /** A missing entry is walked through only where the caller tolerates it. */
  predicate Missing(fs: Fs, ctx: Context, names: seq<Comp>) {
    ctx.allowMissing && fs.entry(names) == Fails(ENOENT)
  }

  function FromUp(names: seq<Comp>): seq<Comp> {
    if names == [] || names[0].Up? then names else FromUp(names[1..])
  }

  /** What is left to walk behind a link. */
  function RestAfter(fs: Fs, dest: Target, rest: seq<Comp>): seq<Comp> {
    if !fs.keepsRest && dest.abs && dest.bare then FromUp(rest) else rest
  }

  /** Whether the path ends in a slash once a link in it is expanded. */
  predicate SlashAfter(fs: Fs, dest: Target, rest: seq<Comp>, slash: bool) {
    (dest.slash && rest == []) || (slash && (fs.keepsSlash || !dest.abs || HasUp(rest)))
  }

  /** From the real directory `done`, walk the components of `todo`, with `left` link
      expansions to go. The final name is not followed when the caller says so and no slash
      is behind it. */
  function Walk(fs: Fs, ctx: Context, done: seq<Comp>, todo: seq<Comp>, slash: bool, left: nat): Walked
    decreases left, |todo|
  {
    if todo == [] then Arrived(done, slash, left)
    else
      var rest := todo[1..];
      var here := done + [todo[0]];
      if todo[0].Up? then
        if !IsDir(fs, done) && !Missing(fs, ctx, done) then Error(KindError(fs.kind(done)))
        else Walk(fs, ctx, Init(done), rest, slash || rest == [], left)
      else if rest == [] && ctx.dontResolveFinal && !slash then Arrived(here, slash, left)
      else match fs.entry(here)
        case NotLink =>
          if rest == [] && ctx.mustBeDirectory && !IsDir(fs, here) then Error(KindError(fs.kind(here)))
          else Walk(fs, ctx, here, rest, slash, left)
        case Fails(e) =>
          if e == ENOENT && ((!ctx.mustExist && rest == []) || ctx.allowMissing)
          then Walk(fs, ctx, here, rest, slash, left)
          else Error(e)
        case Link(dest) =>
          if left == 0 then Loops
          else Walk(fs, ctx, if dest.abs then [] else done, dest.comps + RestAfter(fs, dest, rest),
                    SlashAfter(fs, dest, rest, slash), left - 1)
  }

  /** On a real file system nothing is found below an entry that is not a directory. */
  ghost predicate Consistent(fs: Fs) {
    forall p: seq<Comp>, c: Comp {:trigger fs.entry(p + [c])} ::
      p != [] && fs.entry(p).NotLink? && !IsDir(fs, p) ==>
      fs.entry(p + [c]).Fails? && fs.entry(p + [c]).errno != ENOENT
  }

  predicate UpLink(p: Probe) {
    p.Link? && HasUp(p.dest.comps)
  }

  /** No link mentions "..". */
  ghost predicate NoUpLinks(fs: Fs) {
    forall p: seq<Comp> {:trigger fs.entry(p)} :: !UpLink(fs.entry(p))
  }

  /** An answer. */
  datatype Verdict = At(names: seq<Comp>, slash: bool) | Err(errno: int) | TooMany | Nothing

  function Seen(o: Outcome): Verdict {
    match o
    case Resolved(names, slash) => At(names, slash)
    case Failed(e) => Err(e)
    case TooManyLinks => TooMany
    case _ => Nothing
  }

  function Said(r: Walked): Verdict {
    match r
    case Arrived(names, slash, _) => At(names, slash)
    case Error(e) => Err(e)
    case Loops => TooMany
  }
}
