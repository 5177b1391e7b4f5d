/**
 The shell's command language as a grammar: which commands a sequence of tokens may be read
 as, without saying how to find out. The parser finds the one reading there is, exactly if
 there is one.
 */
module ShellLanguage {
  import opened Options
  import opened ShellGrammar

  /** A redirection symbol and a file name. */
  ghost predicate IsRed(s: Tok, f: Tok, r: Red)
  {
    s.Sym? && s.c in {'<', '>', '+'} && f == Word(r.file) && (r.out <==> s.c != '<')
  }

  ghost predicate IsReds(ts: seq<Tok>, rs: seq<Red>)
  {
    if ts == [] then rs == []
    else |ts| >= 2 && rs != [] && IsRed(ts[0], ts[1], rs[0]) && IsReds(ts[2..], rs[1..])
  }

  /** Words and redirections in any order. */
  ghost predicate IsWords(ts: seq<Tok>, args: seq<string>, rs: seq<Red>)
  {
    if ts == [] then args == [] && rs == []
    else if ts[0].Word? then args != [] && ts[0].w == args[0] && IsWords(ts[1..], args[1..], rs)
    else |ts| >= 2 && rs != [] && IsRed(ts[0], ts[1], rs[0]) && IsWords(ts[2..], args, rs[1..])
  }

  /** `c` is `d` with redirections around it, the first one innermost. */
  ghost predicate Wraps(c: Cmd, d: Cmd, rs: seq<Red>)
  {
    if rs == [] then c == d
    else c.Redir? && c.red == rs[|rs| - 1] && Wraps(c.cmd, d, rs[..|rs| - 1])
  }

  /** A simple command. */
  ghost predicate IsExec(ts: seq<Tok>, c: Cmd, args: seq<string>, rs: seq<Red>)
  {
    |args| < MAXARGS && IsWords(ts, args, rs) && Wraps(c, Exec(args), rs)
  }

  /** A line in parentheses up to place `i`, then redirections. */
  ghost predicate IsBlock(ts: seq<Tok>, c: Cmd, i: nat, d: Cmd, rs: seq<Red>)
    decreases |ts|, 0
  {
    && 0 < i < |ts| && ts[0] == Sym('(') && ts[i] == Sym(')')
    && IsLine(ts[1..i], d) && IsReds(ts[i + 1..], rs) && Wraps(c, d, rs)
  }

  ghost predicate IsSimple(ts: seq<Tok>, c: Cmd)
    decreases |ts|, 1
  {
    (exists args, rs :: IsExec(ts, c, args, rs)) || (exists i: nat, d, rs :: IsBlock(ts, c, i, d, rs))
  }

  /** A simple command, "|" at place `i`, and a pipeline. */
  ghost predicate IsPiped(ts: seq<Tok>, c: Cmd, i: nat)
    decreases |ts|, 2
  {
    && i < |ts| && c.Pipe? && ts[i] == Sym('|') && IsSimple(ts[..i], c.left) && IsPipe(ts[i + 1..], c.right)
  }

  ghost predicate IsPipe(ts: seq<Tok>, c: Cmd)
    decreases |ts|, 3
  {
    IsSimple(ts, c) || exists i: nat :: IsPiped(ts, c, i)
  }

  ghost predicate IsBack(ts: seq<Tok>, c: Cmd)
    decreases |ts|, 4
  {
    || IsPipe(ts, c)
    || (c.Back? && ts != [] && ts[|ts| - 1] == Sym('&') && IsBack(ts[..|ts| - 1], c.job))
  }

  /** A line up to the first ";" outside parentheses, at place `i`, and the rest of it. */
  ghost predicate IsListed(ts: seq<Tok>, c: Cmd, i: nat)
    decreases |ts|, 5
  {
    && i < |ts| && c.List? && ts[i] == Sym(';') && IsBack(ts[..i], c.first) && IsLine(ts[i + 1..], c.second)
  }

  /** A whole line. */
  ghost predicate IsLine(ts: seq<Tok>, c: Cmd)
    decreases |ts|, 6
  {
    IsBack(ts, c) || exists i: nat :: IsListed(ts, c, i)
  }

  lemma {:induction false} WrapsIff(c: Cmd, d: Cmd, rs: seq<Red>)
    ensures Wraps(c, d, rs) <==> c == Wrap(d, rs)
    decreases |rs|
  {
    if rs != [] && c.Redir? {
      WrapsIff(c.cmd, d, rs[..|rs| - 1]);
    }
  }

  // What the parser returns is a reading of what it has consumed.

  /** `rest` is what is left of `ts` after the first `n` tokens. */
  ghost predicate Leaves(ts: seq<Tok>, rest: seq<Tok>, n: nat)
  {
    n <= |ts| && rest == ts[n..]
  }

  lemma {:induction false} RedirsSound(rs0: seq<Red>, ts: seq<Tok>)
    requires Redirs(rs0, ts).Some?
    ensures var (rs, rest) := Redirs(rs0, ts).value;
            var n := |ts| - |rest|;
            && Leaves(ts, rest, n) && rs0 <= rs && IsReds(ts[..n], rs[|rs0|..]) && !At(rest, {'<', '>', '+'})
    decreases |ts|
  {
    var (rs, rest) := Redirs(rs0, ts).value;
    var n := |ts| - |rest|;
    if At(ts, {'<', '>', '+'}) {
      var r := Red(ts[1].w, ts[0].c != '<');
      RedirsSound(rs0 + [r], ts[2..]);
      assert ts[..n][2..] == ts[2..][..n - 2];
      assert rs[|rs0|] == r && rs[|rs0|..][1..] == rs[|rs0| + 1..];
    }
  }

  lemma {:induction false} RedsWords(ts: seq<Tok>, rs: seq<Red>, us: seq<Tok>, args: seq<string>, ss: seq<Red>)
    requires IsReds(ts, rs) && IsWords(us, args, ss)
    ensures IsWords(ts + us, args, rs + ss)
    decreases |ts|
  {
    if ts == [] {
      assert ts + us == us && rs + ss == ss;
    } else {
      RedsWords(ts[2..], rs[1..], us, args, ss);
      assert (ts + us)[2..] == ts[2..] + us && (rs + ss)[1..] == rs[1..] + ss;
    }
  }

  /** A word and what follows it. */
  lemma {:induction false} WordThen(w: string, us: seq<Tok>, args: seq<string>, rs: seq<Red>)
    requires IsWords(us, args, rs)
    ensures IsWords([Word(w)] + us, [w] + args, rs)
  {
    assert ([Word(w)] + us)[1..] == us && ([w] + args)[1..] == args;
  }

  /** Redirections, a word, and what follows it. */
  lemma {:induction false} Joined(ts: seq<Tok>, m: nat, n: nat, w: string, args0: seq<string>, args: seq<string>,
                                  rs0: seq<Red>, rs1: seq<Red>, rs: seq<Red>)
    requires m < n <= |ts| && ts[m] == Word(w) && args0 + [w] <= args && rs0 <= rs1 <= rs
    requires IsReds(ts[..m], rs1[|rs0|..]) && IsWords(ts[m + 1..n], args[|args0| + 1..], rs[|rs1|..])
    ensures IsWords(ts[..n], args[|args0|..], rs[|rs0|..])
  {
    hide IsReds, IsWords;
    var us, more := ts[m + 1..n], args[|args0| + 1..];
    WordThen(w, us, more, rs[|rs1|..]);
    RedsWords(ts[..m], rs1[|rs0|..], [Word(w)] + us, [w] + more, rs[|rs1|..]);
    assert ts[..m] + ([Word(w)] + us) == ts[..n];
    assert [w] + more == args[|args0|..];
    assert rs1[|rs0|..] + rs[|rs1|..] == rs[|rs0|..];
  }

  lemma {:induction false} ArgsSound(args0: seq<string>, rs0: seq<Red>, ts: seq<Tok>)
    requires Args(args0, rs0, ts).Some? && |args0| < MAXARGS
    ensures var (args, rs, rest) := Args(args0, rs0, ts).value;
            var n := |ts| - |rest|;
            && Leaves(ts, rest, n) && args0 <= args && |args| < MAXARGS && rs0 <= rs
            && IsWords(ts[..n], args[|args0|..], rs[|rs0|..])
    decreases |ts|
  {
    hide Redirs, IsWords;
    RedirsSound(rs0, ts);
    var (rs1, ts1) := Redirs(rs0, ts).value;
    var (args, rs, rest) := Args(args0, rs0, ts).value;
    var m, n := |ts| - |ts1|, |ts| - |rest|;
    if ts1 == [] || At(ts1, {'|', ')', '&', ';'}) {
      ArgsDone(ts[..m], rs[|rs0|..]);
      assert args[|args0|..] == [];
    } else {
      var w := ts1[0].w;
      ArgsSound(args0 + [w], rs1, ts1[1..]);
      assert ts1[1..][..n - m - 1] == ts[m + 1..n] && ts1[1..] == ts[m + 1..];
      Joined(ts, m, n, w, args0, args, rs0, rs1, rs);
    }
  }

  lemma {:induction false} ArgsDone(ts: seq<Tok>, rs: seq<Red>)
    requires IsReds(ts, rs)
    ensures IsWords(ts, [], rs)
  {
    RedsWords(ts, rs, [], [], []);
    assert ts + [] == ts && rs + [] == rs;
  }

  lemma {:induction false} SimpleSound(ts: seq<Tok>)
    requires Simple(ts).Some?
    ensures var (c, rest) := Simple(ts).value;
            var n := |ts| - |rest|; Leaves(ts, rest, n) && IsSimple(ts[..n], c)
    decreases |ts|, 0
  {
    hide Line, Args, Redirs, IsLine, IsReds, IsWords, Wrap, Wraps;
    var (c, rest) := Simple(ts).value;
    var n := |ts| - |rest|;
    if At(ts, {'('}) {
      LineSound(ts[1..]);
      var (d, ts1) := Line(ts[1..]).value;
      var i := |ts| - |ts1|;
      RedirsSound([], ts1[1..]);
      var (rs, ts2) := Redirs([], ts1[1..]).value;
      assert rs[0..] == rs && ts[i] == ts1[0] && ts1[1..] == ts[i + 1..];
      assert ts[..n][1..i] == ts[1..][..i - 1] && ts[..n][i + 1..] == ts[i + 1..][..n - i - 1];
      WrapsIff(c, d, rs);
      assert IsBlock(ts[..n], c, i, d, rs);
    } else {
      ArgsSound([], [], ts);
      var (args, rs, ts1) := Args([], [], ts).value;
      assert args[0..] == args && rs[0..] == rs;
      WrapsIff(c, Exec(args), rs);
      assert IsExec(ts[..n], c, args, rs);
    }
  }

  lemma {:induction false} PipelineSound(ts: seq<Tok>)
    requires Pipeline(ts).Some?
    ensures var (c, rest) := Pipeline(ts).value;
            var n := |ts| - |rest|; Leaves(ts, rest, n) && IsPipe(ts[..n], c)
    decreases |ts|, 1
  {
    hide Simple, IsSimple;
    SimpleSound(ts);
    var (c, ts1) := Simple(ts).value;
    if At(ts1, {'|'}) {
      PipelineSound(ts1[1..]);
      var (d, ts2) := Pipeline(ts1[1..]).value;
      var i, n := |ts| - |ts1|, |ts| - |ts2|;
      var us := ts[..n];
      assert us[i] == ts1[0] && us[..i] == ts[..i] && us[i + 1..] == ts1[1..][..n - i - 1];
      assert IsPiped(us, Pipe(c, d), i);
    }
  }

  lemma {:induction false} BacksSound(pre: seq<Tok>, c: Cmd, ts: seq<Tok>)
    requires IsBack(pre, c)
    ensures var (d, rest) := Backs(c, ts);
            var n := |ts| - |rest|; Leaves(ts, rest, n) && IsBack(pre + ts[..n], d)
    decreases |ts|
  {
    hide IsPipe;
    var (d, rest) := Backs(c, ts);
    var n := |ts| - |rest|;
    if At(ts, {'&'}) {
      var us := pre + [ts[0]];
      assert us[..|us| - 1] == pre;
      BacksSound(us, Back(c), ts[1..]);
      assert us + ts[1..][..n - 1] == pre + ts[..n];
    } else {
      assert pre + ts[..0] == pre;
    }
  }

  lemma {:induction false} PipeIsBack(ts: seq<Tok>, c: Cmd)
    requires IsPipe(ts, c)
    ensures IsBack(ts, c)
  {
    hide IsPipe;
  }

  lemma {:induction false} BackSound(ts: seq<Tok>)
    requires Pipeline(ts).Some?
    ensures var (c0, ts0) := Pipeline(ts).value;
            var (c, rest) := Backs(c0, ts0);
            var n := |ts| - |rest|; Leaves(ts, rest, n) && IsBack(ts[..n], c)
    decreases |ts|, 2
  {
    hide Pipeline, Backs, IsPipe, IsBack;
    PipelineSound(ts);
    var (c0, ts0) := Pipeline(ts).value;
    var m := |ts| - |ts0|;
    PipeIsBack(ts[..m], c0);
    BacksSound(ts[..m], c0, ts0);
    var n := |ts| - |Backs(c0, ts0).1|;
    assert ts[..m] + ts0[..n - m] == ts[..n];
  }

  lemma {:induction false} ListSound(ts: seq<Tok>, i: nat, n: nat, c: Cmd, d: Cmd)
    requires i < n <= |ts| && ts[i] == Sym(';') && IsBack(ts[..i], c) && IsLine(ts[i + 1..n], d)
    ensures IsLine(ts[..n], List(c, d))
  {
    hide IsBack;
    var us := ts[..n];
    assert us[..i] == ts[..i] && us[i + 1..] == ts[i + 1..n];
    assert IsListed(us, List(c, d), i);
  }

  lemma {:induction false} LineSound(ts: seq<Tok>)
    requires Line(ts).Some?
    ensures var (c, rest) := Line(ts).value;
            var n := |ts| - |rest|; Leaves(ts, rest, n) && IsLine(ts[..n], c)
    decreases |ts|, 3
  {
    hide Pipeline, Backs, IsBack, IsListed;
    BackSound(ts);
    var (c0, ts0) := Pipeline(ts).value;
    var (c, ts1) := Backs(c0, ts0);
    var i := |ts| - |ts1|;
    if At(ts1, {';'}) {
      LineSound(ts1[1..]);
      var (d, ts2) := Line(ts1[1..]).value;
      var n := |ts| - |ts2|;
      assert ts[i + 1..n] == ts1[1..][..n - i - 1];
      ListSound(ts, i, n, c, d);
    }
  }

  // Every reading is found.

  predicate Ends(ts: seq<Tok>, cs: set<char>)
  {
    ts == [] || At(ts, cs)
  }

  lemma {:induction false} RedsFound(rs0: seq<Red>, ts: seq<Tok>, rs: seq<Red>, rest: seq<Tok>)
    requires IsReds(ts, rs) && !At(rest, {'<', '>', '+'})
    ensures Redirs(rs0, ts + rest) == Some((rs0 + rs, rest))
    decreases |ts|
  {
    if ts == [] {
      assert ts + rest == rest && rs0 + rs == rs0;
    } else {
      assert (ts + rest)[2..] == ts[2..] + rest;
      assert Red((ts + rest)[1].w, (ts + rest)[0].c != '<') == rs[0];
      RedsFound(rs0 + [rs[0]], ts[2..], rs[1..], rest);
      assert rs0 + [rs[0]] + rs[1..] == rs0 + rs;
    }
  }

  lemma {:induction false} WordsFound(args0: seq<string>, rs0: seq<Red>, ts: seq<Tok>, args: seq<string>,
                                      rs: seq<Red>, rest: seq<Tok>)
    requires IsWords(ts, args, rs) && |args0| + |args| < MAXARGS && Ends(rest, {'|', ')', '&', ';'})
    ensures Args(args0, rs0, ts + rest) == Some((args0 + args, rs0 + rs, rest))
    decreases |ts|
  {
    hide Args, Redirs;
    var us := ts + rest;
    if ts == [] {
      assert us == rest && rs0 + rs == rs0 && args0 + args == args0;
      ArgsStep(args0, rs0, us);
    } else if ts[0].Word? {
      assert us[1..] == ts[1..] + rest;
      ArgsStep(args0, rs0, us);
      WordsFound(args0 + [args[0]], rs0, ts[1..], args[1..], rs, rest);
      assert args0 + [args[0]] + args[1..] == args0 + args;
    } else {
      assert us[2..] == ts[2..] + rest && Red(us[1].w, us[0].c != '<') == rs[0];
      ArgsAfterRed(args0, rs0, us);
      WordsFound(args0, rs0 + [rs[0]], ts[2..], args, rs[1..], rest);
      assert rs0 + [rs[0]] + rs[1..] == rs0 + rs;
    }
  }

  /** A redirection in front of words is taken first. */
  lemma {:induction false} ArgsAfterRed(args: seq<string>, rs: seq<Red>, ts: seq<Tok>)
    requires |ts| >= 2 && At(ts, {'<', '>', '+'}) && ts[1].Word?
    ensures Args(args, rs, ts) == Args(args, rs + [Red(ts[1].w, ts[0].c != '<')], ts[2..])
  {
    assert Redirs(rs, ts) == Redirs(rs + [Red(ts[1].w, ts[0].c != '<')], ts[2..]);
  }

  lemma {:induction false} ExecFound(ts: seq<Tok>, c: Cmd, args: seq<string>, rs: seq<Red>, rest: seq<Tok>)
    requires IsExec(ts, c, args, rs) && Ends(rest, {'|', ')', '&', ';'})
    ensures Simple(ts + rest) == Some((c, rest))
  {
    hide Line, Args, Redirs, Wrap, Wraps;
    WordsFound([], [], ts, args, rs, rest);
    WrapsIff(c, Exec(args), rs);
    assert [] + args == args && [] + rs == rs;
    assert !At(ts + rest, {'('});
  }

  lemma {:induction false} BlockFound(ts: seq<Tok>, c: Cmd, i: nat, d: Cmd, rs: seq<Red>, rest: seq<Tok>)
    requires IsBlock(ts, c, i, d, rs) && !At(rest, {'<', '>', '+'})
    ensures Simple(ts + rest) == Some((c, rest))
    decreases |ts|, 0
  {
    hide Line, Args, Redirs, IsReds, IsLine, Wrap, Wraps;
    var us := ts + rest;
    var tail := [Sym(')')] + (ts[i + 1..] + rest);
    LineFound(ts[1..i], d, tail);
    assert us[1..] == ts[1..i] + tail && tail[1..] == ts[i + 1..] + rest;
    RedsFound([], ts[i + 1..], rs, rest);
    WrapsIff(c, d, rs);
    assert [] + rs == rs;
  }

  lemma {:induction false} SimpleFound(ts: seq<Tok>, c: Cmd, rest: seq<Tok>)
    requires IsSimple(ts, c) && Ends(rest, {'|', ')', '&', ';'})
    ensures Simple(ts + rest) == Some((c, rest))
    decreases |ts|, 1
  {
    hide Simple, IsExec, IsBlock;
    if args, rs :| IsExec(ts, c, args, rs) {
      ExecFound(ts, c, args, rs, rest);
    } else {
      var i: nat, d, rs :| IsBlock(ts, c, i, d, rs);
      BlockFound(ts, c, i, d, rs, rest);
    }
  }

  lemma {:induction false} PipedFound(ts: seq<Tok>, c: Cmd, i: nat, rest: seq<Tok>)
    requires IsPiped(ts, c, i) && Ends(rest, {')', '&', ';'})
    ensures Pipeline(ts + rest) == Some((c, rest))
    decreases |ts|, 2
  {
    hide Simple, IsSimple, IsPipe;
    var tail := [Sym('|')] + (ts[i + 1..] + rest);
    assert ts + rest == ts[..i] + tail && tail[1..] == ts[i + 1..] + rest;
    SimpleFound(ts[..i], c.left, tail);
    PipeFound(ts[i + 1..], c.right, rest);
  }

  lemma {:induction false} PipeFound(ts: seq<Tok>, c: Cmd, rest: seq<Tok>)
    requires IsPipe(ts, c) && Ends(rest, {')', '&', ';'})
    ensures Pipeline(ts + rest) == Some((c, rest))
    decreases |ts|, 3
  {
    hide Simple, IsSimple, IsPiped;
    if IsSimple(ts, c) {
      SimpleFound(ts, c, rest);
    } else {
      var i: nat :| IsPiped(ts, c, i);
      PipedFound(ts, c, i, rest);
    }
  }

  lemma {:induction false} BackFound(ts: seq<Tok>, c: Cmd, rest: seq<Tok>)
    requires IsBack(ts, c) && Ends(rest, {')', '&', ';'})
    ensures var r := Pipeline(ts + rest); r.Some? && Backs(r.value.0, r.value.1) == Backs(c, rest)
    decreases |ts|, 4
  {
    hide Pipeline, IsPipe;
    if IsPipe(ts, c) {
      PipeFound(ts, c, rest);
    } else {
      var tail := [Sym('&')] + rest;
      assert ts + rest == ts[..|ts| - 1] + tail && tail[1..] == rest;
      BackFound(ts[..|ts| - 1], c.job, tail);
    }
  }

  lemma {:induction false} ListedFound(ts: seq<Tok>, c: Cmd, i: nat, rest: seq<Tok>)
    requires IsListed(ts, c, i) && Ends(rest, {')'})
    ensures Line(ts + rest) == Some((c, rest))
    decreases |ts|, 5
  {
    hide Pipeline, IsBack, IsLine;
    var tail := [Sym(';')] + (ts[i + 1..] + rest);
    assert ts + rest == ts[..i] + tail && tail[1..] == ts[i + 1..] + rest;
    BackFound(ts[..i], c.first, tail);
    LineFound(ts[i + 1..], c.second, rest);
  }

  lemma {:induction false} LineFound(ts: seq<Tok>, c: Cmd, rest: seq<Tok>)
    requires IsLine(ts, c) && Ends(rest, {')'})
    ensures Line(ts + rest) == Some((c, rest))
    decreases |ts|, 6
  {
    hide Pipeline, IsBack, IsListed;
    if IsBack(ts, c) {
      BackFound(ts, c, rest);
    } else {
      var i: nat :| IsListed(ts, c, i);
      ListedFound(ts, c, i, rest);
    }
  }

  /** The parser accepts exactly the lines of the language, and returns what they mean. */
  lemma {:induction false} ParseIff(ts: seq<Tok>, c: Cmd)
    ensures Parse(ts) == Some(c) <==> IsLine(ts, c)
  {
    hide Line, IsLine;
    if Parse(ts) == Some(c) {
      LineSound(ts);
      assert ts[..|ts|] == ts;
    }
    if IsLine(ts, c) {
      LineFound(ts, c, []);
      assert ts + [] == ts;
    }
  }

  /** No line can be read in two ways. */
  lemma {:induction false} Unambiguous(ts: seq<Tok>, c: Cmd, d: Cmd)
    requires IsLine(ts, c) && IsLine(ts, d)
    ensures c == d
  {
    hide IsLine;
    ParseIff(ts, c);
    ParseIff(ts, d);
  }

  // What is printed reads as the command.

  lemma {:induction false} RedsPrinted(rs: seq<Red>)
    ensures IsReds(RedToks(rs), rs)
  {
    if rs != [] {
      RedsPrinted(rs[1..]);
      assert RedToks(rs)[2..] == RedToks(rs[1..]);
    }
  }

  lemma {:induction false} WordsPrinted(args: seq<string>, ts: seq<Tok>, rs: seq<Red>)
    requires IsReds(ts, rs)
    ensures IsWords(Words(args) + ts, args, rs)
    decreases |args|
  {
    hide IsWords;
    if args == [] {
      ArgsDone(ts, rs);
      assert Words(args) + ts == ts;
    } else {
      WordsPrinted(args[1..], ts, rs);
      WordThen(args[0], Words(args[1..]) + ts, args[1..], rs);
      assert Words(args) + ts == [Word(args[0])] + (Words(args[1..]) + ts) && args == [args[0]] + args[1..];
    }
  }

  lemma {:induction false} SimplePrinted(t: Cmd)
    requires Fine(t)
    ensures IsSimple(PrintSimple(t), t)
    decreases Size(t), 6
  {
    hide IsLine, IsReds, IsWords, Words, RedToks, PrintLine, Wrap, Wraps;
    var c, rs, ts := Core(t), Reds(t), PrintSimple(t);
    CoreFine(t);
    CoreReds(t);
    WrapsIff(t, c, rs);
    CoreSmaller(t);
    RedsPrinted(rs);
    if c.Exec? {
      WordsPrinted(c.args, RedToks(rs), rs);
      assert IsExec(ts, t, c.args, rs);
    } else {
      CoreIsLine(c);
      LinePrinted(c);
      var i := 1 + |PrintCore(c)|;
      assert ts == [Sym('(')] + PrintCore(c) + [Sym(')')] + RedToks(rs);
      assert ts[1..i] == PrintCore(c) && ts[i] == Sym(')') && ts[i + 1..] == RedToks(rs);
      assert IsBlock(ts, t, i, c, rs);
    }
  }

  lemma {:induction false} PipePrinted(t: Cmd)
    requires Fine(t)
    ensures IsPipe(PrintPipe(t), t)
    decreases Size(t), if t.Pipe? then 0 else 7
  {
    hide IsSimple, PrintSimple;
    if t.Pipe? {
      SimplePrinted(t.left);
      PipePrinted(t.right);
      var ts, i := PrintPipe(t), |PrintSimple(t.left)|;
      assert ts == PrintCore(t) == PrintSimple(t.left) + [Sym('|')] + PrintPipe(t.right);
      assert ts[i] == Sym('|') && ts[..i] == PrintSimple(t.left) && ts[i + 1..] == PrintPipe(t.right);
      assert IsPiped(ts, t, i);
    } else {
      SimplePrinted(t);
    }
  }

  lemma {:induction false} BackPrinted(t: Cmd)
    requires Fine(t)
    ensures IsBack(PrintBack(t), t)
    decreases Size(t), if t.Back? then 0 else if t.Pipe? then 1 else 8
  {
    hide IsPipe, PrintPipe;
    if t.Back? {
      BackPrinted(t.job);
      assert PrintBack(t) == PrintCore(t) == PrintBack(t.job) + [Sym('&')];
    } else {
      PipePrinted(t);
    }
  }

  lemma {:induction false} LinePrinted(t: Cmd)
    requires Fine(t)
    ensures IsLine(PrintLine(t), t)
    decreases Size(t), if t.List? then 0 else if t.Back? then 1 else if t.Pipe? then 2 else 9
  {
    hide IsBack, PrintBack;
    if t.List? {
      BackPrinted(t.first);
      LinePrinted(t.second);
      var ts, i := PrintLine(t), |PrintBack(t.first)|;
      assert ts == PrintCore(t) == PrintBack(t.first) + [Sym(';')] + PrintLine(t.second);
      assert ts[i] == Sym(';') && ts[..i] == PrintBack(t.first) && ts[i + 1..] == PrintLine(t.second);
      assert IsListed(ts, t, i);
    } else {
      BackPrinted(t);
    }
  }

  /** Printing a command and parsing the tokens gives the command back. */
  lemma {:induction false} TokenRoundTrip(t: Cmd)
    requires Fine(t)
    ensures Parse(PrintLine(t)) == Some(t)
  {
    hide IsLine;
    LinePrinted(t);
    ParseIff(PrintLine(t), t);
  }
}
