/**
 The shell parser as code: a cursor advanced by `gettoken` and `peek`, recursive-descent
 methods that allocate from a fixed pool, and the pass that ends every word in place.
 */
module ShellParser {
  import opened Options
  import opened ShellGrammar
  import opened ShellLex

  const NUL: char := 0 as char
  const MAXN: nat := 10000   // the pool of `malloc1`

  /** `[q, eq)` in the input buffer. */
  datatype Range = Range(q: nat, eq: nat)

  datatype Node =
    | ExecNode(argv: seq<Range>)
    | RedirNode(cmd: Node, file: Range, out: bool)
    | PipeNode(left: Node, right: Node)
    | ListNode(first: Node, second: Node)
    | BackNode(job: Node)

  // What a node means.

  ghost predicate IsWord(s: string, r: Range)
  {
    && r.q < r.eq <= |s| && (forall i | r.q <= i < r.eq :: WordChar(s[i])) && (r.eq < |s| ==> !WordChar(s[r.eq]))
  }

  /** Every range is a maximal word of the input. */
  ghost predicate Ranged(s: string, n: Node)
  {
    match n
    case ExecNode(argv) => forall i | 0 <= i < |argv| :: IsWord(s, argv[i])
    case RedirNode(c, file, _) => Ranged(s, c) && IsWord(s, file)
    case PipeNode(l, r) => Ranged(s, l) && Ranged(s, r)
    case ListNode(l, r) => Ranged(s, l) && Ranged(s, r)
    case BackNode(c) => Ranged(s, c)
  }

  ghost function WordOf(s: string, r: Range): string
  {
    if r.q <= r.eq <= |s| then s[r.q..r.eq] else ""
  }

  ghost function WordsOf(s: string, rs: seq<Range>): (ws: seq<string>)
    ensures |ws| == |rs|
  {
    seq(|rs|, i requires 0 <= i < |rs| => WordOf(s, rs[i]))
  }

  ghost function Meaning(s: string, n: Node): Cmd
  {
    match n
    case ExecNode(argv) => Exec(WordsOf(s, argv))
    case RedirNode(c, file, out) => Redir(Meaning(s, c), Red(WordOf(s, file), out))
    case PipeNode(l, r) => Pipe(Meaning(s, l), Meaning(s, r))
    case ListNode(l, r) => List(Meaning(s, l), Meaning(s, r))
    case BackNode(c) => Back(Meaning(s, c))
  }

  /** The bytes the nodes of a command take. */
  function Mem(t: Cmd): nat
  {
    match t
    case Exec(_) => 168
    case Redir(c, _) => Mem(c) + 40
    case Pipe(l, r) => Mem(l) + Mem(r) + 24
    case List(l, r) => Mem(l) + Mem(r) + 24
    case Back(c) => Mem(c) + 16
  }

  lemma {:induction false} MemWrap(c: Cmd, rs: seq<Red>)
    ensures Mem(Wrap(c, rs)) == Mem(c) + 40 * |rs|
    decreases |rs|
  {
    if rs != [] {
      MemWrap(c, rs[..|rs| - 1]);
    }
  }

  /** The character at the cursor decides the kind of the next token. */
  lemma {:induction false} HeadAt(s: string, p: nat, c: char)
    requires p <= |s| && Skip(s, p) == p && Symbol(c) && c != '>'
    ensures At(Lex(s, p), {c}) <==> p < |s| && s[p] == c
  {
  }

  lemma {:induction false} HeadRedir(s: string, p: nat)
    requires p <= |s| && Skip(s, p) == p
    ensures At(Lex(s, p), {'<', '>', '+'}) <==> p < |s| && s[p] in {'<', '>'}
  {
  }

  lemma {:induction false} HeadStop(s: string, p: nat)
    requires p <= |s| && Skip(s, p) == p
    ensures At(Lex(s, p), {'|', ')', '&', ';'}) <==> p < |s| && s[p] in {'|', ')', '&', ';'}
  {
  }

  datatype File = File(r: Range, out: bool)

  ghost function RedsOf(s: string, fs: seq<File>): (rs: seq<Red>)
    ensures |rs| == |fs|
  {
    seq(|fs|, i requires 0 <= i < |fs| => Red(WordOf(s, fs[i].r), fs[i].out))
  }

  function WrapNode(n: Node, fs: seq<File>): Node
  {
    if fs == [] then n else RedirNode(WrapNode(n, fs[..|fs| - 1]), fs[|fs| - 1].r, fs[|fs| - 1].out)
  }

  lemma {:induction false} WrapMeans(s: string, n: Node, fs: seq<File>)
    requires Ranged(s, n) && forall i | 0 <= i < |fs| :: IsWord(s, fs[i].r)
    ensures Ranged(s, WrapNode(n, fs)) && Meaning(s, WrapNode(n, fs)) == Wrap(Meaning(s, n), RedsOf(s, fs))
    decreases |fs|
  {
    hide IsWord;
    if fs != [] {
      WrapMeans(s, n, fs[..|fs| - 1]);
      assert RedsOf(s, fs)[..|fs| - 1] == RedsOf(s, fs[..|fs| - 1]);
    }
  }

  // How the specification unfolds along the loops.

  lemma {:induction false} RedirsGrow(rs: seq<Red>, ts: seq<Tok>)
    ensures Redirs(rs, ts).Some? ==> |Redirs(rs, ts).value.0| >= |rs| && !At(Redirs(rs, ts).value.1, {'<', '>', '+'})
    decreases |ts|
  {
    if At(ts, {'<', '>', '+'}) && |ts| > 1 && ts[1].Word? {
      RedirsGrow(rs + [Red(ts[1].w, ts[0].c != '<')], ts[2..]);
    }
  }

  lemma {:induction false} ArgsRedirs(args: seq<string>, rs: seq<Red>, ts: seq<Tok>)
    ensures Redirs(rs, ts).None? ==> Args(args, rs, ts).None?
    ensures Redirs(rs, ts).Some? ==> Args(args, rs, ts) == Args(args, Redirs(rs, ts).value.0, Redirs(rs, ts).value.1)
  {
    RedirsGrow(rs, ts);
  }

  lemma {:induction false} ArgsGrow(args: seq<string>, rs: seq<Red>, ts: seq<Tok>)
    ensures Args(args, rs, ts).Some? ==> |Args(args, rs, ts).value.1| >= |rs|
    decreases |ts|
  {
    hide Redirs;
    RedirsGrow(rs, ts);
    if Redirs(rs, ts).Some? {
      var (rs1, ts1) := Redirs(rs, ts).value;
      if ts1 != [] && ts1[0].Word? {
        ArgsGrow(args + [ts1[0].w], rs1, ts1[1..]);
      }
    }
  }

  lemma {:induction false} ArgsBounds(args: seq<string>, rs: seq<Red>, ts: seq<Tok>)
    ensures Args(args, rs, ts).Some? && Redirs(rs, ts).Some? ==>
              |Args(args, rs, ts).value.1| >= |Redirs(rs, ts).value.0| >= |rs|
    ensures Redirs(rs, ts).Some? ==> !At(Redirs(rs, ts).value.1, {'<', '>', '+'})
  {
    hide Redirs, Args;
    RedirsGrow(rs, ts);
    ArgsRedirs(args, rs, ts);
    if Redirs(rs, ts).Some? {
      ArgsGrow(args, Redirs(rs, ts).value.0, Redirs(rs, ts).value.1);
    }
  }

  lemma {:induction false} BlockMem(ts: seq<Tok>)
    requires At(ts, {'('})
    ensures Line(ts[1..]).None? ==> Simple(ts).None?
    ensures Simple(ts).Some? ==>
              var (c, ts1) := Line(ts[1..]).value;
              && At(ts1, {')'}) && Redirs([], ts1[1..]).Some? && var (rs, ts2) := Redirs([], ts1[1..]).value;
              && Simple(ts).value == (Wrap(c, rs), ts2) && Mem(Simple(ts).value.0) == Mem(c) + 40 * |rs|
  {
    hide Line, Redirs, Wrap;
    if Simple(ts).Some? {
      var (c, ts1) := Line(ts[1..]).value;
      MemWrap(c, Redirs([], ts1[1..]).value.0);
    }
  }

  lemma {:induction false} BacksMem(c: Cmd, ts: seq<Tok>)
    ensures Mem(Backs(c, ts).0) >= Mem(c)
    decreases |ts|
  {
    if At(ts, {'&'}) {
      BacksMem(Back(c), ts[1..]);
    }
  }

  lemma {:induction false} LineMem(ts: seq<Tok>)
    ensures Line(ts).Some? ==>
              && Pipeline(ts).Some? && var (c0,
                ts0) := Pipeline(ts).value; Mem(Line(ts).value.0) >= Mem(Backs(c0, ts0).0) >= Mem(c0)
  {
    hide Pipeline, Backs;
    if Line(ts).Some? {
      BacksMem(Pipeline(ts).value.0, Pipeline(ts).value.1);
    }
  }

  /** A parsing method succeeded: its node means what the specification says, and is paid for. */
  ghost predicate Parsed(s: string, r: Option<(Cmd, seq<Tok>)>, n: Node, rest: seq<Tok>, mem0: nat, mem: nat)
  {
    r == Some((Meaning(s, n), rest)) && Ranged(s, n) && mem == mem0 + Mem(Meaning(s, n)) && mem <= MAXN
  }

  /** A parsing method gave up: the input is wrong, or its nodes do not fit the pool. */
  ghost predicate GaveUp(r: Option<(Cmd, seq<Tok>)>, mem0: nat)
  {
    r.Some? ==> mem0 + Mem(r.value.0) > MAXN
  }

  class Parser {
    const s: string
    var pos: nat
    var mem: nat

    constructor (s: string)
      requires NUL !in s
      ensures this.s == s && pos == 0 && mem == 0
    {
      this.s, pos, mem := s, 0, 0;
    }

    ghost predicate Valid()
      reads this
    {
      NUL !in s && pos <= |s|
    }

    /** The tokens still to come. */
    ghost function Rest(): seq<Tok>
      requires Valid()
      reads this
    {
      Lex(s, pos)
    }

    method SkipSpace()
      requires Valid()
      modifies this`pos
      ensures Valid() && pos == Skip(s, old(pos)) && Skip(s, pos) == pos && Rest() == old(Rest())
      ensures Blank(s, old(pos), pos) && (pos < |s| ==> !Space(s[pos]))
    {
      hide TokAt, TokEnd;
      while pos < |s| && Space(s[pos])
        invariant Valid() && Skip(s, old(pos)) == Skip(s, pos)
        decreases |s| - pos
      {
        pos := pos + 1;
      }
    }

    /** `peek`. */
    method Peek(cs: set<char>) returns (r: bool)
      requires Valid()
      modifies this`pos
      ensures Valid() && pos >= old(pos) && Skip(s, pos) == pos && Rest() == old(Rest())
      ensures Blank(s, old(pos), pos) && (pos < |s| ==> !Space(s[pos]))
      ensures r <==> pos < |s| && s[pos] in cs
    {
      SkipSpace();
      r := pos < |s| && s[pos] in cs;
    }

    /** The loop over the characters of a word. */
    method SkipWord()
      requires pos <= |s|
      modifies this`pos
      ensures pos == WordEnd(s, old(pos)) <= |s|
    {
      while pos < |s| && !Space(s[pos]) && !Symbol(s[pos])
        invariant pos <= |s| && WordEnd(s, old(pos)) == WordEnd(s, pos)
        decreases |s| - pos
      {
        pos := pos + 1;
      }
    }

    /** `gettoken`: 0 at the end, 'a' for a word, '+' for ">>", else the symbol. */
    method GetToken() returns (tok: char, r: Range)
      requires Valid()
      modifies this`pos
      ensures Valid() && Blank(s, old(pos), r.q) && Blank(s, r.eq, pos) && (pos < |s| ==> !Space(s[pos]))
      ensures tok == NUL <==> r.q == |s|
      ensures tok != NUL ==> IsToken(s, r.q, r.eq, if tok == 'a' then Word(WordOf(s, r)) else Sym(tok))
      ensures pos >= old(pos) && (tok == NUL <==> old(Rest()) == [])
      ensures tok == NUL ==> Rest() == []
      ensures tok != NUL ==> pos > old(pos) && Rest() == old(Rest())[1..]
      ensures tok != NUL ==> (tok == 'a' <==> old(Rest())[0].Word?) && (tok != 'a' ==> old(Rest())[0] == Sym(tok))
      ensures tok == 'a' ==> IsWord(s, r) && old(Rest())[0] == Word(WordOf(s, r))
    {
      SkipSpace();
      var q := pos;
      if pos == |s| {
        return NUL, Range(q, q);
      }
      assert old(Rest()) == [TokAt(s, q)] + Lex(s, TokEnd(s, q));
      if s[pos] in {'|', '(', ')', ';', '&', '<'} {
        tok := s[pos];
        pos := pos + 1;
      } else if s[pos] == '>' {
        tok := '>';
        pos := pos + 1;
        if pos < |s| && s[pos] == '>' {
          tok := '+';
          pos := pos + 1;
        }
      } else {
        tok := 'a';
        SkipWord();
      }
      r := Range(q, pos);
      assert pos == TokEnd(s, q);
      TokenIs(s, q, pos, if tok == 'a' then Word(WordOf(s, r)) else Sym(tok));
      SkipSpace();
    }

    /** `malloc1`; false where it gives up. */
    method Alloc(size: nat) returns (ok: bool)
      modifies this`mem
      ensures mem == old(mem) + size && (ok <==> mem <= MAXN)
    {
      mem := mem + size;
      ok := mem <= MAXN;
    }

    /** `parseredirs`. */
    method ParseRedirs(fs0: seq<File>) returns (ok: bool, fs: seq<File>)
      requires Valid() && mem <= MAXN && forall i | 0 <= i < |fs0| :: IsWord(s, fs0[i].r)
      modifies this
      ensures Valid() && pos >= old(pos)
      ensures ok ==> Redirs(RedsOf(s, fs0), old(Rest())) == Some((RedsOf(s, fs), Rest()))
                     && mem + 40 * |fs0| == old(mem) + 40 * |fs| && mem <= MAXN
      ensures ok ==> forall i | 0 <= i < |fs| :: IsWord(s, fs[i].r)
      ensures !ok ==> var r := Redirs(RedsOf(s, fs0), old(Rest()));
                      r.Some? ==> old(mem) + 40 * |r.value.0| > MAXN + 40 * |fs0|
    {
      hide IsWord, Lex, WordOf;
      fs := fs0;
      var more := Peek({'<', '>'});
      HeadRedir(s, pos);
      while more
        invariant Valid() && pos >= old(pos) && forall i | 0 <= i < |fs| :: IsWord(s, fs[i].r)
        invariant Redirs(RedsOf(s, fs0), old(Rest())) == Redirs(RedsOf(s, fs), Rest())
        invariant mem + 40 * |fs0| == old(mem) + 40 * |fs| && mem <= MAXN && |fs| >= |fs0|
        invariant more <==> At(Rest(), {'<', '>', '+'})
        decreases |s| - pos, more
      {
        ghost var ts := Rest();
        var tok, r := GetToken();
        var kind, file := GetToken();
        if kind != 'a' {
          return false, fs;
        }
        ghost var reds := RedsOf(s, fs);
        assert Redirs(reds, ts) == Redirs(reds + [Red(ts[1].w, ts[0].c != '<')], ts[2..]);
        RedirsGrow(reds + [Red(ts[1].w, ts[0].c != '<')], ts[2..]);
        ok := Alloc(40);
        if !ok {
          return;
        }
        fs := fs + [File(file, tok != '<')];
        assert RedsOf(s, fs) == reds + [Red(ts[1].w, ts[0].c != '<')];
        more := Peek({'<', '>'});
        HeadRedir(s, pos);
      }
      ok := true;
    }

    /** The loop of `parseexec`, from its first redirections on. */
    method ParseArgs() returns (ok: bool, argv: seq<Range>, fs: seq<File>)
      requires Valid() && mem <= MAXN
      modifies this
      ensures Valid() && pos >= old(pos)
      ensures ok ==> Args([], [], old(Rest())) == Some((WordsOf(s, argv), RedsOf(s, fs), Rest()))
                     && mem == old(mem) + 40 * |fs| && mem <= MAXN
      ensures ok ==> (forall i | 0 <= i < |fs| :: IsWord(s, fs[i].r))
                     && forall i | 0 <= i < |argv| :: IsWord(s, argv[i])
      ensures !ok ==> var r := Args([], [], old(Rest())); r.Some? ==> old(mem) + 40 * |r.value.1| > MAXN
    {
      hide IsWord, Lex, WordOf, Redirs, Args;
      argv := [];
      assert RedsOf(s, []) == [] && WordsOf(s, []) == [];
      ArgsRedirs([], [], Rest());
      ok, fs := ParseRedirs([]);
      ArgsBounds([], [], old(Rest()));
      if !ok {
        return;
      }
      var stop := Peek({'|', ')', '&', ';'});
      HeadStop(s, pos);
      while !stop
        invariant Valid() && pos >= old(pos) && |argv| < MAXARGS && mem == old(mem) + 40 * |fs| && mem <= MAXN
        invariant (forall i | 0 <= i < |fs| :: IsWord(s, fs[i].r)) && forall i | 0 <= i < |argv| :: IsWord(s, argv[i])
        invariant Args([], [], old(Rest())) == Args(WordsOf(s, argv), RedsOf(s, fs), Rest())
                  && !At(Rest(), {'<', '>', '+'})
        invariant stop <==> At(Rest(), {'|', ')', '&', ';'})
        decreases |s| - pos, !stop
      {
        ghost var ts, args, reds := Rest(), WordsOf(s, argv), RedsOf(s, fs);
        ArgsStep(args, reds, ts);
        var tok, r := GetToken();
        if tok == NUL {
          break;
        }
        if tok != 'a' {
          return false, argv, fs;
        }
        argv := argv + [r];
        assert WordsOf(s, argv) == args + [ts[0].w];
        if |argv| >= MAXARGS {
          return false, argv, fs;
        }
        ArgsBounds(args + [ts[0].w], reds, ts[1..]);
        ArgsRedirs(args + [ts[0].w], reds, ts[1..]);
        ok, fs := ParseRedirs(fs);
        if !ok {
          return;
        }
        stop := Peek({'|', ')', '&', ';'});
        HeadStop(s, pos);
      }
      ArgsStep(WordsOf(s, argv), RedsOf(s, fs), Rest());
      ok := true;
    }

    /** `parseexec` of a command that is no block. */
    method ParseWords() returns (ok: bool, n: Node)
      requires Valid() && mem <= MAXN && !At(Rest(), {'('})
      modifies this
      ensures Valid() && pos >= old(pos)
      ensures ok ==> Parsed(s, Simple(old(Rest())), n, Rest(), old(mem), mem)
      ensures !ok ==> GaveUp(Simple(old(Rest())), old(mem))
    {
      hide IsWord, Lex, WordOf, Redirs, Args, Wrap, Line;
      n := ExecNode([]);
      ghost var r := Args([], [], Rest());
      if r.Some? {
        MemWrap(Exec(r.value.0), r.value.1);
      }
      ok := Alloc(168);
      if ok {
        var argv, fs;
        ok, argv, fs := ParseArgs();
        if ok {
          n := WrapNode(ExecNode(argv), fs);
          WrapMeans(s, ExecNode(argv), fs);
        }
      }
    }

    /** `parseblock`. */
    method ParseBlock() returns (ok: bool, n: Node)
      requires Valid() && mem <= MAXN && At(Rest(), {'('})
      modifies this
      ensures Valid() && pos >= old(pos)
      ensures ok ==> Parsed(s, Simple(old(Rest())), n, Rest(), old(mem), mem)
      ensures !ok ==> GaveUp(Simple(old(Rest())), old(mem))
      decreases |s| - pos, 0
    {
      hide IsWord, Lex, WordOf, Redirs, Args, Wrap, Line, Ranged, Meaning;
      ghost var ts := Rest();
      var tok, q := GetToken();
      BlockMem(ts);
      ok, n := ParseLine();
      if !ok {
        return;
      }
      ghost var mem1, ts1 := mem, Rest();
      var close := Peek({')'});
      HeadAt(s, pos, ')');
      if !close {
        return false, n;
      }
      tok, q := GetToken();
      var fs;
      assert RedsOf(s, []) == [];
      ok, fs := ParseRedirs([]);
      if ok {
        WrapMeans(s, n, fs);
        n := WrapNode(n, fs);
      }
    }

    /** `parseexec`. */
    method ParseExec() returns (ok: bool, n: Node)
      requires Valid() && mem <= MAXN
      modifies this
      ensures Valid() && pos >= old(pos)
      ensures ok ==> Parsed(s, Simple(old(Rest())), n, Rest(), old(mem), mem)
      ensures !ok ==> GaveUp(Simple(old(Rest())), old(mem))
      decreases |s| - pos, 1
    {
      hide Lex, Simple, Mem, Ranged, Meaning;
      var block := Peek({'('});
      HeadAt(s, pos, '(');
      if block {
        ok, n := ParseBlock();
      } else {
        ok, n := ParseWords();
      }
    }

    /** `parsepipe`. */
    method ParsePipe() returns (ok: bool, n: Node)
      requires Valid() && mem <= MAXN
      modifies this
      ensures Valid() && pos >= old(pos)
      ensures ok ==> Parsed(s, Pipeline(old(Rest())), n, Rest(), old(mem), mem)
      ensures !ok ==> GaveUp(Pipeline(old(Rest())), old(mem))
      decreases |s| - pos, 2
    {
      hide Lex, Simple, IsWord;
      ok, n := ParseExec();
      if !ok {
        return;
      }
      ghost var ts1 := Rest();
      var more := Peek({'|'});
      HeadAt(s, pos, '|');
      if more {
        var tok, q := GetToken();
        var right;
        ok, right := ParsePipe();
        n := PipeNode(n, right);
        if ok {
          ok := Alloc(24);
        }
      }
    }

    /** The loop of `parseline` over "&". */
    method ParseBacks(n0: Node) returns (ok: bool, n: Node)
      requires Valid() && mem <= MAXN && Ranged(s, n0) && mem >= Mem(Meaning(s, n0))
      modifies this
      ensures Valid() && pos >= old(pos)
      ensures ok ==> Backs(Meaning(s, n0), old(Rest())) == (Meaning(s, n), Rest()) && Ranged(s, n)
      ensures ok ==> mem + Mem(Meaning(s, n0)) == old(mem) + Mem(Meaning(s, n)) && mem <= MAXN
      ensures !ok ==> old(mem) + Mem(Backs(Meaning(s, n0), old(Rest())).0) > MAXN + Mem(Meaning(s, n0))
    {
      hide Lex, IsWord;
      n := n0;
      var more := Peek({'&'});
      HeadAt(s, pos, '&');
      while more
        invariant Valid() && pos >= old(pos) && Ranged(s, n)
                  && mem + Mem(Meaning(s, n0)) == old(mem) + Mem(Meaning(s, n)) && mem <= MAXN
        invariant Backs(Meaning(s, n0), old(Rest())) == Backs(Meaning(s, n), Rest()) && (more <==> At(Rest(), {'&'}))
        decreases |s| - pos, more
      {
        var tok, q := GetToken();
        n := BackNode(n);
        BacksMem(Meaning(s, n), Rest());
        ok := Alloc(16);
        if !ok {
          return;
        }
        more := Peek({'&'});
        HeadAt(s, pos, '&');
      }
      ok := true;
    }

    /** `parseline`. */
    method ParseLine() returns (ok: bool, n: Node)
      requires Valid() && mem <= MAXN
      modifies this
      ensures Valid() && pos >= old(pos)
      ensures ok ==> Parsed(s, Line(old(Rest())), n, Rest(), old(mem), mem)
      ensures !ok ==> GaveUp(Line(old(Rest())), old(mem))
      decreases |s| - pos, 3
    {
      hide Lex, Pipeline, IsWord, Backs;
      LineMem(Rest());
      ok, n := ParsePipe();
      if !ok {
        return;
      }
      ok, n := ParseBacks(n);
      if !ok {
        return;
      }
      var another := Peek({';'});
      HeadAt(s, pos, ';');
      if another {
        var tok, q := GetToken();
        var second;
        ok, second := ParseLine();
        n := ListNode(n, second);
        if ok {
          ok := Alloc(24);
        }
      }
    }

    /** `parsecmd`, up to ending the words. */
    method ParseCmd() returns (ok: bool, n: Node)
      requires Valid() && pos == 0 && mem == 0
      modifies this
      ensures ok <==> exists c :: Reads(s, c) && Mem(c) <= MAXN
      ensures ok ==> Ranged(s, n) && Reads(s, Meaning(s, n))
    {
      hide Line, Ranged, Meaning, Mem, Reads;
      ok, n := ParseLine();
      if ok {
        ghost var ts := Rest();
        SkipSpace();
        ok := pos == |s|;
      }
      assert ok <==> ParseText(s).Some? && Mem(ParseText(s).value) <= MAXN;
      assert ok ==> ParseText(s) == Some(Meaning(s, n));
      forall c ensures ParseText(s) == Some(c) <==> Reads(s, c) {
        ParsesIff(s, c);
      }
    }
  }
}
