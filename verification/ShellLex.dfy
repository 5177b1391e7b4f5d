/** From characters to tokens, what a line of text means, and back through the printer. */
module ShellLex {
  import opened Options
  import opened ShellGrammar
  import opened ShellLanguage

  predicate WordChar(c: char)
  {
    !Space(c) && !Symbol(c)
  }

  /** The first position from `p` on that is no white space. */
  function Skip(s: string, p: nat): (r: nat)
    requires p <= |s|
    ensures p <= r <= |s| && (r < |s| ==> !Space(s[r])) && forall i | p <= i < r :: Space(s[i])
    decreases |s| - p
  {
    if p < |s| && Space(s[p]) then Skip(s, p + 1) else p
  }

  /** The end of the word at `p`. */
  function WordEnd(s: string, p: nat): (r: nat)
    requires p <= |s|
    ensures p <= r <= |s| && (r < |s| ==> !WordChar(s[r])) && forall i | p <= i < r :: WordChar(s[i])
    decreases |s| - p
  {
    if p < |s| && WordChar(s[p]) then WordEnd(s, p + 1) else p
  }

  /** The end of the token at `p`. */
  function TokEnd(s: string, p: nat): (r: nat)
    requires p < |s| && !Space(s[p])
    ensures p < r <= |s|
  {
    if s[p] == '>' then if p + 1 < |s| && s[p + 1] == '>' then p + 2 else p + 1
    else if Symbol(s[p]) then p + 1
    else WordEnd(s, p)
  }

  function TokAt(s: string, p: nat): Tok
    requires p < |s| && !Space(s[p])
  {
    if s[p] == '>' then if p + 1 < |s| && s[p + 1] == '>' then Sym('+') else Sym('>')
    else if Symbol(s[p]) then Sym(s[p])
    else Word(s[p..WordEnd(s, p)])
  }

  function Lex(s: string, p: nat): seq<Tok>
    requires p <= |s|
    decreases |s| - p
  {
    var q := Skip(s, p);
    if q == |s| then [] else [TokAt(s, q)] + Lex(s, TokEnd(s, q))
  }

  lemma {:induction false} LexGood(s: string, p: nat)
    requires p <= |s|
    ensures Good(Lex(s, p))
    decreases |s| - p
  {
    var q := Skip(s, p);
    if q < |s| {
      LexGood(s, TokEnd(s, q));
    }
  }

  function Spell(t: Tok): string
  {
    match t
    case Word(w) => w
    case Sym(c) => if c == '+' then ">>" else [c]
  }

  // What the tokens of a text are.

  ghost predicate Blank(s: string, p: nat, q: nat)
  {
    p <= q <= |s| && forall i | p <= i < q :: Space(s[i])
  }

  /** `[p, q)` spells `t` and no longer token starts at `p`. */
  ghost predicate IsToken(s: string, p: nat, q: nat, t: Tok)
  {
    && p < q <= |s| && s[p..q] == Spell(t)
    && match t
       case Word(w) => (forall i | p <= i < q :: WordChar(s[i])) && (q < |s| ==> !WordChar(s[q]))
       case Sym('+') => true
       case Sym(c) => Symbol(c) && (c == '>' && q < |s| ==> s[q] != '>')
  }

  /** The text from `p` on is white space and `ts`. */
  ghost predicate Tokens(s: string, p: nat, ts: seq<Tok>)
    requires p <= |s|
    decreases |s| - p
  {
    if ts == [] then Blank(s, p, |s|)
    else exists q: nat, e: nat ::
           q < e <= |s| && Blank(s, p, q) && IsToken(s, q, e, ts[0]) && Tokens(s, e, ts[1..])
  }

  lemma {:induction false} SkipIs(s: string, p: nat, q: nat)
    requires p <= |s| && Blank(s, p, q) && (q < |s| ==> !Space(s[q]))
    ensures Skip(s, p) == q
  {
  }

  lemma {:induction false} WordEndIs(s: string, p: nat, q: nat)
    requires p <= q <= |s| && (forall i | p <= i < q :: WordChar(s[i])) && (q < |s| ==> !WordChar(s[q]))
    ensures WordEnd(s, p) == q
  {
  }

  /** There is one token at a place that is no white space. */
  lemma {:induction false} TokenIs(s: string, p: nat, q: nat, t: Tok)
    requires p < |s| && !Space(s[p])
    ensures IsToken(s, p, q, t) <==> t == TokAt(s, p) && q == TokEnd(s, p)
  {
    hide WordEnd;
    if IsToken(s, p, q, t) {
      assert s[p] == s[p..q][0];
      if t.Word? {
        WordEndIs(s, p, q);
      } else if q > p + 1 {
        assert s[p + 1] == s[p..q][1];
      }
    }
  }

  lemma {:induction false} TokenStarts(s: string, p: nat, q: nat, t: Tok)
    requires IsToken(s, p, q, t)
    ensures !Space(s[p])
  {
    assert s[p] == s[p..q][0];
  }

  /** `Lex` finds the tokens of the text, and there is one way to split it. */
  lemma {:induction false} LexIff(s: string, p: nat, ts: seq<Tok>)
    requires p <= |s|
    ensures Tokens(s, p, ts) <==> ts == Lex(s, p)
    decreases |s| - p
  {
    hide Skip, TokAt, TokEnd, IsToken;
    var q := Skip(s, p);
    if Tokens(s, p, ts) {
      if ts == [] {
        SkipIs(s, p, |s|);
      } else {
        var b: nat, e: nat :| b < e <= |s| && Blank(s, p, b) && IsToken(s, b, e, ts[0]) && Tokens(s, e, ts[1..]);
        TokenStarts(s, b, e, ts[0]);
        SkipIs(s, p, b);
        TokenIs(s, b, e, ts[0]);
        LexIff(s, e, ts[1..]);
        assert ts == [ts[0]] + ts[1..];
      }
    }
    if ts == Lex(s, p) && q < |s| {
      var t, e := TokAt(s, q), TokEnd(s, q);
      TokenIs(s, q, e, t);
      LexIff(s, e, ts[1..]);
      assert Blank(s, p, q) && IsToken(s, q, e, ts[0]);
    }
  }

  // No character is lost.

  function Spelled(ts: seq<Tok>): string
  {
    if ts == [] then "" else Spell(ts[0]) + Spelled(ts[1..])
  }

  function Squeezed(s: string): string
  {
    if s == "" then "" else (if Space(s[0]) then "" else [s[0]]) + Squeezed(s[1..])
  }

  lemma {:induction false} SqueezedPlus(a: string, b: string)
    ensures Squeezed(a + b) == Squeezed(a) + Squeezed(b)
    decreases |a|
  {
    hide Space;
    if a == "" {
      assert a + b == b;
    } else {
      SqueezedPlus(a[1..], b);
      assert (a + b)[1..] == a[1..] + b;
    }
  }

  lemma {:induction false} SqueezedBlank(a: string)
    requires forall i | 0 <= i < |a| :: Space(a[i])
    ensures Squeezed(a) == ""
  {
    hide Space;
    if a != "" {
      SqueezedBlank(a[1..]);
    }
  }

  lemma {:induction false} SqueezedSame(a: string)
    requires forall i | 0 <= i < |a| :: !Space(a[i])
    ensures Squeezed(a) == a
  {
    hide Space;
    if a != "" {
      SqueezedSame(a[1..]);
    }
  }

  lemma {:induction false} TokenSolid(s: string, p: nat, q: nat, t: Tok)
    requires IsToken(s, p, q, t)
    ensures Squeezed(s[p..q]) == Spell(t)
  {
    var a := s[p..q];
    forall i | 0 <= i < |a| ensures !Space(a[i]) {
      assert a[i] == s[p + i];
    }
    SqueezedSame(a);
  }

  /** The spellings of the tokens, joined, are the text without its white space. */
  lemma {:induction false} NothingLost(s: string, p: nat)
    requires p <= |s|
    ensures Spelled(Lex(s, p)) == Squeezed(s[p..])
    decreases |s| - p
  {
    hide Skip, TokAt, TokEnd, Spell, Squeezed, IsToken;
    var q := Skip(s, p);
    SqueezedBlank(s[p..q]);
    if q == |s| {
      assert s[p..q] == s[p..];
    } else {
      var e := TokEnd(s, q);
      TokenIs(s, q, e, TokAt(s, q));
      TokenSolid(s, q, e, TokAt(s, q));
      NothingLost(s, e);
      SqueezedPlus(s[q..e], s[e..]);
      SqueezedPlus(s[p..q], s[q..]);
      assert s[q..e] + s[e..] == s[q..] && s[p..q] + s[q..] == s[p..];
      assert Lex(s, p)[1..] == Lex(s, e);
    }
  }

  // Printing.

  /** Tokens, each followed by a blank. */
  function Text(ts: seq<Tok>): string
  {
    if ts == [] then "" else Spell(ts[0]) + " " + Text(ts[1..])
  }

  /** `Sym` is used for symbols only. */
  ghost predicate Proper(ts: seq<Tok>)
  {
    Good(ts) && forall i | 0 <= i < |ts| :: ts[i].Sym? ==> ts[i].c == '+' || Symbol(ts[i].c)
  }

  lemma {:induction false} WordEndAt(s: string, p: nat, w: string)
    requires p + |w| < |s| && s[p..p + |w|] == w && s[p + |w|] == ' ' && forall i | 0 <= i < |w| :: WordChar(w[i])
    ensures WordEnd(s, p) == p + |w|
    decreases |w|
  {
    if w != "" {
      assert s[p] == w[0];
      assert s[p + 1..p + 1 + |w[1..]|] == w[1..];
      WordEndAt(s, p + 1, w[1..]);
    }
  }

  /** One token and its blank at position `p`. */
  lemma {:induction false} LexOne(s: string, p: nat, t: Tok)
    requires Proper([t]) && p + |Spell(t)| < |s| && s[p..p + |Spell(t)|] == Spell(t) && s[p + |Spell(t)|] == ' '
    ensures p < |s| && !Space(s[p]) && TokAt(s, p) == t && TokEnd(s, p) == p + |Spell(t)|
  {
    var x := Spell(t);
    assert [t][0] == t;
    match t {
      case Word(w) =>
        assert s[p] == w[0];
        WordEndAt(s, p, w);
      case Sym(c) =>
        assert s[p] == x[0];
        if c == '+' {
          assert s[p + 1] == x[1];
        }
    }
  }

  lemma {:induction false} TailOf(s: string, p: nat, x: string, rest: string)
    requires p <= |s| && s[p..] == x + " " + rest
    ensures p + |x| < |s| && s[p..p + |x|] == x && s[p + |x|] == ' ' && s[p + |x| + 1..] == rest
  {
    var t := x + " " + rest;
    assert t[..|x|] == x && t[|x|] == ' ' && t[|x| + 1..] == rest;
    assert s[p..][..|x|] == s[p..p + |x|] && s[p..][|x|] == s[p + |x|] && s[p..][|x| + 1..] == s[p + |x| + 1..];
  }

  lemma {:induction false} LexText(s: string, p: nat, ts: seq<Tok>)
    requires Proper(ts) && p <= |s| && s[p..] == Text(ts)
    ensures Lex(s, p) == ts
    decreases |ts|
  {
    hide Text, Spell, Lex, TokAt, TokEnd;
    TextStep(ts);
    if ts == [] {
      LexEnd(s, p);
    } else {
      var t := ts[0];
      var q := p + |Spell(t)|;
      TailOf(s, p, Spell(t), Text(ts[1..]));
      LexOne(s, p, t);
      LexStep(s, p);
      LexText(s, q + 1, ts[1..]);
      LexBlank(s, q);
      assert ts == [t] + ts[1..];
    }
  }

  lemma {:induction false} TextStep(ts: seq<Tok>)
    ensures Text(ts) == if ts == [] then "" else Spell(ts[0]) + " " + Text(ts[1..])
  {
  }

  lemma {:induction false} LexEnd(s: string, p: nat)
    requires p <= |s| && s[p..] == ""
    ensures Lex(s, p) == []
  {
    assert p == |s|;
  }

  lemma {:induction false} LexStep(s: string, p: nat)
    requires p < |s| && !Space(s[p])
    ensures Lex(s, p) == [TokAt(s, p)] + Lex(s, TokEnd(s, p))
  {
    assert Skip(s, p) == p;
  }

  lemma {:induction false} LexBlank(s: string, p: nat)
    requires p < |s| && s[p] == ' '
    ensures Lex(s, p) == Lex(s, p + 1)
  {
    assert Skip(s, p) == Skip(s, p + 1);
  }

  // What is printed is proper.

  lemma {:induction false} WordsProper(args: seq<string>)
    requires forall i | 0 <= i < |args| :: GoodWord(args[i])
    ensures Proper(Words(args))
  {
    hide GoodWord;
    if args != [] {
      WordsProper(args[1..]);
    }
  }

  lemma {:induction false} RedsProper(rs: seq<Red>)
    requires forall i | 0 <= i < |rs| :: GoodWord(rs[i].file)
    ensures Proper(RedToks(rs))
  {
    hide GoodWord;
    if rs != [] {
      RedsProper(rs[1..]);
    }
  }

  lemma {:induction false} ProperPlus(a: seq<Tok>, b: seq<Tok>)
    requires Proper(a) && Proper(b)
    ensures Proper(a + b)
  {
    hide GoodWord, Symbol;
  }

  lemma {:induction false} SimpleProper(t: Cmd)
    requires Fine(t)
    ensures Proper(PrintSimple(t))
    decreases Size(t), 6
  {
    hide Words, RedToks;
    var c := Core(t);
    CoreFine(t);
    CoreSmaller(t);
    RedsProper(Reds(t));
    if c.Exec? {
      WordsProper(c.args);
      ProperPlus(Words(c.args), RedToks(Reds(t)));
    } else {
      CoreIsLine(c);
      LineProper(c);
      ProperPlus([Sym('(')], PrintCore(c));
      ProperPlus([Sym('(')] + PrintCore(c), [Sym(')')]);
      ProperPlus([Sym('(')] + PrintCore(c) + [Sym(')')], RedToks(Reds(t)));
    }
  }

  lemma {:induction false} PipeProper(t: Cmd)
    requires Fine(t)
    ensures Proper(PrintPipe(t))
    decreases Size(t), if t.Pipe? then 0 else 7
  {
    hide PrintSimple;
    if t.Pipe? {
      SimpleProper(t.left);
      PipeProper(t.right);
      ProperPlus(PrintSimple(t.left), [Sym('|')]);
      ProperPlus(PrintSimple(t.left) + [Sym('|')], PrintPipe(t.right));
    } else {
      SimpleProper(t);
    }
  }

  lemma {:induction false} BackProper(t: Cmd)
    requires Fine(t)
    ensures Proper(PrintBack(t))
    decreases Size(t), if t.Back? then 0 else if t.Pipe? then 1 else 8
  {
    hide PrintPipe;
    if t.Back? {
      BackProper(t.job);
      ProperPlus(PrintBack(t.job), [Sym('&')]);
    } else {
      PipeProper(t);
    }
  }

  lemma {:induction false} LineProper(t: Cmd)
    requires Fine(t)
    ensures Proper(PrintLine(t))
    decreases Size(t), if t.List? then 0 else if t.Back? then 1 else if t.Pipe? then 2 else 9
  {
    hide PrintBack;
    if t.List? {
      BackProper(t.first);
      LineProper(t.second);
      ProperPlus(PrintBack(t.first), [Sym(';')]);
      ProperPlus(PrintBack(t.first) + [Sym(';')], PrintLine(t.second));
    } else {
      BackProper(t);
    }
  }

  // The round trip.

  /** What `parsecmd` makes of a line. */
  function ParseText(s: string): Option<Cmd>
  {
    Parse(Lex(s, 0))
  }

  /** `c` is what the line `s` means: its tokens are a line of the language that reads as `c`. */
  ghost predicate Reads(s: string, c: Cmd)
  {
    exists ts :: Tokens(s, 0, ts) && IsLine(ts, c)
  }

  /** The parser accepts exactly the texts that mean something, and returns what they mean. */
  lemma {:induction false} ParsesIff(s: string, c: Cmd)
    ensures ParseText(s) == Some(c) <==> Reads(s, c)
  {
    hide Lex, Parse, IsLine, Tokens;
    var ts := Lex(s, 0);
    LexIff(s, 0, ts);
    ParseIff(ts, c);
    if Reads(s, c) {
      var us :| Tokens(s, 0, us) && IsLine(us, c);
      LexIff(s, 0, us);
    }
  }

  function Print(t: Cmd): string
  {
    Text(PrintLine(t))
  }

  /** Parsing the printed form of a command gives the command back. */
  lemma {:induction false} RoundTrip(t: Cmd)
    requires Fine(t)
    ensures ParseText(Print(t)) == Some(t)
  {
    LineProper(t);
    assert Print(t)[0..] == Text(PrintLine(t));
    LexText(Print(t), 0, PrintLine(t));
    TokenRoundTrip(t);
  }

  /** Whatever the parser accepts, printing it and parsing again changes nothing. */
  lemma {:induction false} Canonical(s: string)
    requires ParseText(s).Some?
    ensures Fine(ParseText(s).value) && ParseText(Print(ParseText(s).value)) == ParseText(s)
  {
    LexGood(s, 0);
    LineFine(Lex(s, 0));
    RoundTrip(ParseText(s).value);
  }
}
