/** Ending every word in place: afterwards each pointer of the tree reads as the word the lexer saw. */
module ShellBuffer {
  import opened Options
  import opened ShellGrammar
  import opened ShellLex
  import opened ShellParser

  /** The C string at `p`. */
  function CString(buf: seq<char>, p: nat): (w: string)
    ensures p <= |buf| ==> p + |w| <= |buf| && buf[p..p + |w|] == w && NUL !in w
    ensures p + |w| < |buf| ==> buf[p + |w|] == NUL
    decreases |buf| - p
  {
    if p >= |buf| || buf[p] == NUL then "" else [buf[p]] + CString(buf, p + 1)
  }

  ghost function Strings(buf: seq<char>, rs: seq<Range>): (ws: seq<string>)
    ensures |ws| == |rs|
  {
    seq(|rs|, i requires 0 <= i < |rs| => CString(buf, rs[i].q))
  }

  /** The command that `runcmd` finds when it follows the pointers of a tree. */
  ghost function Spoken(buf: seq<char>, n: Node): Cmd
  {
    match n
    case ExecNode(argv) => Exec(Strings(buf, argv))
    case RedirNode(c, file, out) => Redir(Spoken(buf, c), Red(CString(buf, file.q), out))
    case PipeNode(l, r) => Pipe(Spoken(buf, l), Spoken(buf, r))
    case ListNode(l, r) => List(Spoken(buf, l), Spoken(buf, r))
    case BackNode(c) => Back(Spoken(buf, c))
  }

  /** The buffer still holds the input, except that characters between words may have become NUL. */
  ghost predicate Holds(buf: seq<char>, s: string)
  {
    |buf| > |s| && buf[|s|] == NUL && forall i | 0 <= i < |s| :: buf[i] == s[i] || (buf[i] == NUL && !WordChar(s[i]))
  }

  ghost predicate Ended(buf: seq<char>, r: Range)
  {
    r.eq < |buf| && buf[r.eq] == NUL
  }

  ghost predicate Terminated(buf: seq<char>, n: Node)
  {
    match n
    case ExecNode(argv) => forall i | 0 <= i < |argv| :: Ended(buf, argv[i])
    case RedirNode(c, file, _) => Terminated(buf, c) && Ended(buf, file)
    case PipeNode(l, r) => Terminated(buf, l) && Terminated(buf, r)
    case ListNode(l, r) => Terminated(buf, l) && Terminated(buf, r)
    case BackNode(c) => Terminated(buf, c)
  }

  /** Terminators are never taken back. */
  ghost predicate Keeps(before: seq<char>, after: seq<char>)
  {
    |before| == |after| && forall i | 0 <= i < |before| :: before[i] == NUL ==> after[i] == NUL
  }

  lemma {:induction false} TerminatedKeeps(before: seq<char>, after: seq<char>, n: Node)
    requires Terminated(before, n) && Keeps(before, after)
    ensures Terminated(after, n)
  {
    match n
    case ExecNode(argv) =>
    case RedirNode(c, file, _) => TerminatedKeeps(before, after, c);
    case PipeNode(l, r) => TerminatedKeeps(before, after, l); TerminatedKeeps(before, after, r);
    case ListNode(l, r) => TerminatedKeeps(before, after, l); TerminatedKeeps(before, after, r);
    case BackNode(c) => TerminatedKeeps(before, after, c);
  }

  /** No terminator falls inside a word. */
  lemma {:induction false} WordReads(buf: seq<char>, s: string, r: Range, p: nat)
    requires Holds(buf, s) && NUL !in s && IsWord(s, r) && Ended(buf, r) && r.q <= p <= r.eq
    ensures CString(buf, p) == s[p..r.eq]
    decreases r.eq - p
  {
    if p < r.eq {
      WordReads(buf, s, r, p + 1);
      assert s[p] in s && WordChar(s[p]);
      assert s[p..r.eq] == [s[p]] + s[p + 1..r.eq];
    }
  }

  lemma {:induction false} SpokenIsMeant(buf: seq<char>, s: string, n: Node)
    requires Holds(buf, s) && NUL !in s && Ranged(s, n) && Terminated(buf, n)
    ensures Spoken(buf, n) == Meaning(s, n)
  {
    hide CString, Holds;
    match n
    case ExecNode(argv) =>
      forall i | 0 <= i < |argv| ensures Strings(buf, argv)[i] == WordsOf(s, argv)[i] {
        WordReads(buf, s, argv[i], argv[i].q);
      }
      assert Strings(buf, argv) == WordsOf(s, argv);
    case RedirNode(c, file, _) =>
      SpokenIsMeant(buf, s, c);
      WordReads(buf, s, file, file.q);
    case PipeNode(l, r) => SpokenIsMeant(buf, s, l); SpokenIsMeant(buf, s, r);
    case ListNode(l, r) => SpokenIsMeant(buf, s, l); SpokenIsMeant(buf, s, r);
    case BackNode(c) => SpokenIsMeant(buf, s, c);
  }

  /** One terminator. */
  method End(buf: array<char>, r: Range, ghost s: string)
    requires Holds(buf[..], s) && IsWord(s, r)
    modifies buf
    ensures Holds(buf[..], s) && Ended(buf[..], r) && Keeps(old(buf[..]), buf[..])
  {
    buf[r.eq] := NUL;
  }

  /** `nulterminate`. */
  method Nulterminate(buf: array<char>, n: Node, ghost s: string)
    requires Holds(buf[..], s) && Ranged(s, n)
    modifies buf
    ensures Holds(buf[..], s) && Terminated(buf[..], n) && Keeps(old(buf[..]), buf[..])
    decreases n
  {
    hide Holds, IsWord;
    match n
    case ExecNode(argv) =>
      var i := 0;
      while i < |argv|
        invariant 0 <= i <= |argv| && Holds(buf[..], s) && Keeps(old(buf[..]), buf[..])
        invariant forall j | 0 <= j < i :: Ended(buf[..], argv[j])
      {
        End(buf, argv[i], s);
        i := i + 1;
      }
    case RedirNode(c, file, _) =>
      Nulterminate(buf, c, s);
      ghost var mid := buf[..];
      End(buf, file, s);
      TerminatedKeeps(mid, buf[..], c);
    case PipeNode(l, r) =>
      Nulterminate(buf, l, s);
      ghost var mid := buf[..];
      Nulterminate(buf, r, s);
      TerminatedKeeps(mid, buf[..], l);
    case ListNode(l, r) =>
      Nulterminate(buf, l, s);
      ghost var mid := buf[..];
      Nulterminate(buf, r, s);
      TerminatedKeeps(mid, buf[..], l);
    case BackNode(c) =>
      Nulterminate(buf, c, s);
  }

  /** `parsecmd` on a buffer holding a C string; false where it panics. */
  method ParseBuffer(buf: array<char>, ghost s: string) returns (ok: bool, n: Node)
    requires |s| < buf.Length && buf[..|s|] == s && buf[|s|] == NUL && NUL !in s
    modifies buf
    ensures ok <==> exists c :: Reads(s, c) && Mem(c) <= MAXN
    ensures ok ==> Reads(s, Spoken(buf[..], n))
    ensures !ok ==> buf[..] == old(buf[..])
  {
    hide Ranged, Mem, Reads;
    assert forall i | 0 <= i < |s| :: buf[i] == s[i] && s[i] in s by {
      assert forall i | 0 <= i < |s| :: buf[..|s|][i] == buf[i];
    }
    var len := 0;
    while buf[len] != NUL
      invariant 0 <= len <= |s|
      decreases |s| - len
    {
      len := len + 1;
    }
    var p := new Parser(buf[..len]);
    ok, n := p.ParseCmd();
    if ok {
      Nulterminate(buf, n, s);
      SpokenIsMeant(buf[..], s, n);
    }
  }
}
