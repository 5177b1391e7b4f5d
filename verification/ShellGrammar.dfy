/** The shell's recursive-descent parser on tokens, and a printer for its commands. */
module ShellGrammar {
  import opened Options

  /** `Sym('+')` stands for ">>". */
  datatype Tok = Word(w: string) | Sym(c: char)

  datatype Red = Red(file: string, out: bool)

  datatype Cmd =
    | Exec(args: seq<string>)
    | Redir(cmd: Cmd, red: Red)
    | Pipe(left: Cmd, right: Cmd)
    | List(first: Cmd, second: Cmd)
    | Back(job: Cmd)

  const MAXARGS: nat := 10

  /** Redirections around a command, the first one innermost. */
  function Wrap(c: Cmd, rs: seq<Red>): Cmd
  {
    if rs == [] then c else Redir(Wrap(c, rs[..|rs| - 1]), rs[|rs| - 1])
  }

  // The parser.

  predicate At(ts: seq<Tok>, cs: set<char>)
  {
    ts != [] && ts[0].Sym? && ts[0].c in cs
  }

  /** `parseredirs`. */
  function Redirs(rs: seq<Red>, ts: seq<Tok>): (r: Option<(seq<Red>, seq<Tok>)>)
    ensures r.Some? ==> |r.value.1| <= |ts|
    decreases |ts|
  {
    if !At(ts, {'<', '>', '+'}) then Some((rs, ts))
    else if |ts| == 1 || !ts[1].Word? then None
    else Redirs(rs + [Red(ts[1].w, ts[0].c != '<')], ts[2..])
  }

  /** The loop of `parseexec`. */
  function Args(args: seq<string>, rs: seq<Red>, ts: seq<Tok>): (r: Option<(seq<string>, seq<Red>, seq<Tok>)>)
    ensures r.Some? ==> |r.value.2| <= |ts|
    decreases |ts|
  {
    match Redirs(rs, ts)
    case None => None
    case Some((rs1, ts1)) =>
      if ts1 == [] || At(ts1, {'|', ')', '&', ';'}) then Some((args, rs1, ts1))
      else if !ts1[0].Word? || |args| + 1 >= MAXARGS then None
      else Args(args + [ts1[0].w], rs1, ts1[1..])
  }

  /** One round of the loop where no redirection stands. */
  lemma {:induction false} ArgsStep(args: seq<string>, rs: seq<Red>, ts: seq<Tok>)
    requires !At(ts, {'<', '>', '+'})
    ensures Args(args, rs, ts) ==
            if ts == [] || At(ts, {'|', ')', '&', ';'}) then Some((args, rs, ts))
            else if !ts[0].Word? || |args| + 1 >= MAXARGS then None
            else Args(args + [ts[0].w], rs, ts[1..])
  {
  }

  /** `parseexec` and `parseblock`. */
  function Simple(ts: seq<Tok>): (r: Option<(Cmd, seq<Tok>)>)
    ensures r.Some? ==> |r.value.1| <= |ts|
    decreases |ts|, 0
  {
    if At(ts, {'('}) then
      match Line(ts[1..])
      case None => None
      case Some((c, ts1)) =>
        if !At(ts1, {')'}) then None else
          match Redirs([], ts1[1..])
          case None => None
          case Some((rs, ts2)) => Some((Wrap(c, rs), ts2))
    else
      match Args([], [], ts)
      case None => None
      case Some((args, rs, ts1)) => Some((Wrap(Exec(args), rs), ts1))
  }

  /** `parsepipe`. */
  function Pipeline(ts: seq<Tok>): (r: Option<(Cmd, seq<Tok>)>)
    ensures r.Some? ==> |r.value.1| <= |ts|
    decreases |ts|, 1
  {
    match Simple(ts)
    case None => None
    case Some((c, ts1)) =>
      if !At(ts1, {'|'}) then Some((c, ts1)) else
        match Pipeline(ts1[1..])
        case None => None
        case Some((d, ts2)) => Some((Pipe(c, d), ts2))
  }

  function Backs(c: Cmd, ts: seq<Tok>): (r: (Cmd, seq<Tok>))
    ensures |r.1| <= |ts|
    decreases |ts|
  {
    if At(ts, {'&'}) then Backs(Back(c), ts[1..]) else (c, ts)
  }

  /** `parseline`. */
  function Line(ts: seq<Tok>): (r: Option<(Cmd, seq<Tok>)>)
    ensures r.Some? ==> |r.value.1| <= |ts|
    decreases |ts|, 2
  {
    match Pipeline(ts)
    case None => None
    case Some((c0, ts0)) =>
      var (c, ts1) := Backs(c0, ts0);
      if !At(ts1, {';'}) then Some((c, ts1)) else
        match Line(ts1[1..])
        case None => None
        case Some((d, ts2)) => Some((List(c, d), ts2))
  }

  /** `parsecmd`: the whole input is one line. */
  function Parse(ts: seq<Tok>): Option<Cmd>
  {
    match Line(ts)
    case None => None
    case Some((c, rest)) => if rest == [] then Some(c) else None
  }

  // The printer.

  function Core(t: Cmd): (c: Cmd)
    ensures !c.Redir?
  {
    if t.Redir? then Core(t.cmd) else t
  }

  function Reds(t: Cmd): seq<Red>
  {
    if t.Redir? then Reds(t.cmd) + [t.red] else []
  }

  lemma {:induction false} CoreReds(t: Cmd)
    ensures Wrap(Core(t), Reds(t)) == t
  {
    if t.Redir? {
      CoreReds(t.cmd);
      assert Reds(t)[..|Reds(t)| - 1] == Reds(t.cmd);
    }
  }

  function RedToks(rs: seq<Red>): seq<Tok>
  {
    if rs == [] then [] else [Sym(if rs[0].out then '>' else '<'), Word(rs[0].file)] + RedToks(rs[1..])
  }

  function Words(args: seq<string>): seq<Tok>
  {
    if args == [] then [] else [Word(args[0])] + Words(args[1..])
  }

  function Size(t: Cmd): nat
  {
    match t
    case Exec(_) => 0
    case Redir(c, _) => Size(c) + 1
    case Pipe(l, r) => Size(l) + Size(r) + 1
    case List(l, r) => Size(l) + Size(r) + 1
    case Back(c) => Size(c) + 1
  }

  lemma {:induction false} CoreSmaller(t: Cmd)
    ensures Size(Core(t)) <= Size(t)
  {
    if t.Redir? {
      CoreSmaller(t.cmd);
    }
  }

  function PrintSimple(t: Cmd): seq<Tok>
    decreases Size(t), 1
  {
    var c := Core(t);
    CoreSmaller(t);
    if c.Exec? then Words(c.args) + RedToks(Reds(t))
    else [Sym('(')] + PrintCore(c) + [Sym(')')] + RedToks(Reds(t))
  }

  /** A line that is no simple command. */
  function PrintCore(t: Cmd): seq<Tok>
    decreases Size(t), if t.Exec? || t.Redir? then 2 else 0
  {
    match t
    case Pipe(l, r) => PrintSimple(l) + [Sym('|')] + PrintPipe(r)
    case Back(c) => PrintBack(c) + [Sym('&')]
    case List(l, r) => PrintBack(l) + [Sym(';')] + PrintLine(r)
    case _ => PrintSimple(t)
  }

  function PrintPipe(t: Cmd): seq<Tok>
    decreases Size(t), 3
  {
    if t.Pipe? then PrintCore(t) else PrintSimple(t)
  }

  function PrintBack(t: Cmd): seq<Tok>
    decreases Size(t), 4
  {
    if t.Back? then PrintCore(t) else PrintPipe(t)
  }

  function PrintLine(t: Cmd): seq<Tok>
    decreases Size(t), 5
  {
    if t.List? then PrintCore(t) else PrintBack(t)
  }

  // Well-formed commands.

  predicate Space(c: char)
  {
    c in {' ', '\t', '\r', '\n', 11 as char}
  }

  predicate Symbol(c: char)
  {
    c in {'<', '|', '>', '&', ';', '(', ')'}
  }

  /** Blank, tab, line feed, vertical tab and carriage return; ampersand, parentheses, ";", "<", ">" and "|". */
  lemma {:induction false} Alphabet(c: char)
    ensures Space(c) <==> c as int == 32 || 9 <= c as int <= 11 || c as int == 13
    ensures Symbol(c) <==> c as int in {38, 40, 41, 59, 60, 62, 124}
  {
  }

  predicate GoodWord(w: string)
  {
    w != "" && forall i | 0 <= i < |w| :: !Space(w[i]) && !Symbol(w[i])
  }

  /** Fewer than MAXARGS words per command, all of them words. */
  ghost predicate Fine(t: Cmd)
  {
    match t
    case Exec(args) => |args| < MAXARGS && forall i | 0 <= i < |args| :: GoodWord(args[i])
    case Redir(c, red) => Fine(c) && GoodWord(red.file)
    case Pipe(l, r) => Fine(l) && Fine(r)
    case List(l, r) => Fine(l) && Fine(r)
    case Back(c) => Fine(c)
  }

  ghost predicate Good(ts: seq<Tok>)
  {
    forall i | 0 <= i < |ts| :: ts[i].Word? ==> GoodWord(ts[i].w)
  }

  lemma {:induction false} CoreFine(t: Cmd)
    requires Fine(t)
    ensures Fine(Core(t)) && forall i | 0 <= i < |Reds(t)| :: GoodWord(Reds(t)[i].file)
  {
    hide GoodWord;
    if t.Redir? {
      CoreFine(t.cmd);
    }
  }

  lemma {:induction false} CoreIsLine(t: Cmd)
    requires !t.Exec? && !t.Redir?
    ensures PrintLine(t) == PrintCore(t)
  {
    assert PrintPipe(t) == if t.Pipe? then PrintCore(t) else PrintSimple(t);
    assert PrintBack(t) == if t.Back? then PrintCore(t) else PrintPipe(t);
  }

  // What the parser returns is well-formed.

  lemma {:induction false} WrapFine(c: Cmd, rs: seq<Red>)
    requires Fine(c) && forall i | 0 <= i < |rs| :: GoodWord(rs[i].file)
    ensures Fine(Wrap(c, rs))
    decreases |rs|
  {
    hide GoodWord;
    if rs != [] {
      WrapFine(c, rs[..|rs| - 1]);
    }
  }

  lemma {:induction false} RedirsGood(rs: seq<Red>, ts: seq<Tok>)
    requires Good(ts) && Redirs(rs, ts).Some? && forall i | 0 <= i < |rs| :: GoodWord(rs[i].file)
    ensures var (rs', ts') := Redirs(rs, ts).value; Good(ts') && forall i | 0 <= i < |rs'| :: GoodWord(rs'[i].file)
    decreases |ts|
  {
    hide GoodWord;
    if At(ts, {'<', '>', '+'}) {
      RedirsGood(rs + [Red(ts[1].w, ts[0].c != '<')], ts[2..]);
    }
  }

  lemma {:induction false} ArgsGood(args: seq<string>, rs: seq<Red>, ts: seq<Tok>)
    requires Good(ts) && Args(args, rs, ts).Some? && |args| < MAXARGS
    requires (forall i | 0 <= i < |rs| :: GoodWord(rs[i].file)) && forall i | 0 <= i < |args| :: GoodWord(args[i])
    ensures var (args', rs', ts') := Args(args, rs, ts).value;
            && Good(ts') && |args'| < MAXARGS && (forall i | 0 <= i < |rs'| :: GoodWord(rs'[i].file))
              && forall i | 0 <= i < |args'| :: GoodWord(args'[i])
    decreases |ts|
  {
    hide GoodWord, Redirs;
    RedirsGood(rs, ts);
    var (rs1, ts1) := Redirs(rs, ts).value;
    if ts1 != [] && !At(ts1, {'|', ')', '&', ';'}) {
      ArgsGood(args + [ts1[0].w], rs1, ts1[1..]);
    }
  }

  lemma {:induction false} SimpleFine(ts: seq<Tok>)
    requires Good(ts) && Simple(ts).Some?
    ensures Fine(Simple(ts).value.0) && Good(Simple(ts).value.1)
    decreases |ts|, 0
  {
    hide GoodWord, Args, Line, Redirs;
    if At(ts, {'('}) {
      LineFine(ts[1..]);
      var (c, ts1) := Line(ts[1..]).value;
      RedirsGood([], ts1[1..]);
      WrapFine(c, Redirs([], ts1[1..]).value.0);
    } else {
      ArgsGood([], [], ts);
      var (args, rs, ts1) := Args([], [], ts).value;
      WrapFine(Exec(args), rs);
    }
  }

  lemma {:induction false} PipelineFine(ts: seq<Tok>)
    requires Good(ts) && Pipeline(ts).Some?
    ensures Fine(Pipeline(ts).value.0) && Good(Pipeline(ts).value.1)
    decreases |ts|, 1
  {
    hide GoodWord, Simple;
    SimpleFine(ts);
    var (c, ts1) := Simple(ts).value;
    if At(ts1, {'|'}) {
      PipelineFine(ts1[1..]);
    }
  }

  lemma {:induction false} BacksFine(c: Cmd, ts: seq<Tok>)
    requires Good(ts) && Fine(c)
    ensures Fine(Backs(c, ts).0) && Good(Backs(c, ts).1)
    decreases |ts|
  {
    hide GoodWord;
    if At(ts, {'&'}) {
      BacksFine(Back(c), ts[1..]);
    }
  }

  lemma {:induction false} LineFine(ts: seq<Tok>)
    requires Good(ts) && Line(ts).Some?
    ensures Fine(Line(ts).value.0) && Good(Line(ts).value.1)
    decreases |ts|, 2
  {
    hide GoodWord, Pipeline, Backs;
    PipelineFine(ts);
    var (c0, ts0) := Pipeline(ts).value;
    BacksFine(c0, ts0);
    var (c, ts1) := Backs(c0, ts0);
    if At(ts1, {';'}) {
      LineFine(ts1[1..]);
    }
  }
}
