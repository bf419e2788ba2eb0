/** The shell's parser (user/sh.c:406-604).

    The parser runs over the text before the NUL; words are kept as the positions of their first
    character and of the character after the last. A panic ends the shell.
 */
module Shell {

  /** A word: text[q..eq]. */
  datatype Slice = Slice(q: nat, eq: nat)

  /** A redirection of standard output opens with O_WRONLY | O_CREATE as descriptor 1, for both
      `>` and `>>`; one of standard input opens with O_RDONLY as descriptor 0. */
  datatype Redirect<W> = Redirect(file: W, output: bool)

  /** A command tree over words: slices in the parser, strings for the one who reads it. */
  datatype Cmd<W> =
    | Exec(args: seq<W>)
    | Redir(cmd: Cmd<W>, to: Redirect<W>)
    | Pipe(left: Cmd<W>, right: Cmd<W>)
    | List(left: Cmd<W>, right: Cmd<W>)
    | Back(cmd: Cmd<W>)

  // ----- tokens

  predicate IsSpace(c: char) { c == ' ' || c == '\t' || c == '\r' || c == '\n' || c == '\U{0B}' }
  predicate IsSymbol(c: char) { c == '<' || c == '|' || c == '>' || c == '&' || c == ';' || c == '(' || c == ')' }
  predicate IsWordChar(c: char) { !IsSpace(c) && !IsSymbol(c) }

  function CharAt(s: string, i: nat): char { if i < |s| then s[i] else '\0' }

  function SkipSpace(s: string, i: nat): (r: nat)
    ensures i <= |s| ==> i <= r <= |s|
    ensures r < |s| ==> !IsSpace(s[r])
    decreases |s| - i
  {
    if i < |s| && IsSpace(s[i]) then SkipSpace(s, i + 1) else i
  }

  function WordEnd(s: string, i: nat): (r: nat)
    ensures i <= |s| ==> i <= r <= |s|
    decreases |s| - i
  {
    if i < |s| && IsWordChar(s[i]) then WordEnd(s, i + 1) else i
  }

  /** gettoken: the kind of token, its word, and where the next one starts. */
  datatype Lexeme = Lexeme(tok: char, word: Slice, next: nat)

  function Token(s: string, i: nat): Lexeme {
    var q := SkipSpace(s, i);
    var c := CharAt(s, q);
    if c == '\0' then Lexeme(c, Slice(q, q), SkipSpace(s, q))
    else if c == '>' && CharAt(s, q + 1) == '>' then Lexeme('+', Slice(q, q + 2), SkipSpace(s, q + 2))
    else if IsSymbol(c) then Lexeme(c, Slice(q, q + 1), SkipSpace(s, q + 1))
    else Lexeme('a', Slice(q, WordEnd(s, q)), SkipSpace(s, WordEnd(s, q)))
  }

  /** A token that is not the end is at least one character long. */
  lemma TokenAdvances(s: string, i: nat)
    requires i <= |s|
    ensures i <= Token(s, i).next <= |s|
    ensures Token(s, i).tok != '\0' ==> i < Token(s, i).next
    ensures Token(s, i).tok == 'a' ==> WordAt(s, Token(s, i).word)
  {
    var q := SkipSpace(s, i);
    if Token(s, i).tok == 'a' { WordEndsAt(s, q); }
  }

  /** A maximal word. */
  predicate WordAt(s: string, w: Slice) {
    && w.q < w.eq <= |s|
    && (forall k :: w.q <= k < w.eq ==> IsWordChar(s[k]))
    && (w.eq < |s| ==> !IsWordChar(s[w.eq]))
  }

  lemma {:induction false} WordEndsAt(s: string, i: nat)
    requires i < |s| && IsWordChar(s[i])
    ensures WordAt(s, Slice(i, WordEnd(s, i)))
    decreases |s| - i
  {
    if i + 1 < |s| && IsWordChar(s[i + 1]) { WordEndsAt(s, i + 1); }
  }

  /** peek, which also moves past white space. */
  predicate Peek(s: string, i: nat, toks: set<char>) {
    var c := CharAt(s, SkipSpace(s, i));
    c != '\0' && c in toks
  }

  // ----- the grammar

  datatype Parse = Ok(cmd: Cmd<Slice>, next: nat) | Panic

  datatype RedirParse = RedirOk(redirs: seq<Redirect<Slice>>, next: nat) | RedirPanic

  /** Redirections apply from the inside out. */
  function Wrap<W>(cmd: Cmd<W>, redirs: seq<Redirect<W>>): Cmd<W>
    decreases |redirs|
  {
    if redirs == [] then cmd else Redir(Wrap(cmd, redirs[..|redirs| - 1]), redirs[|redirs| - 1])
  }

  /** parseredirs. */
  function ParseRedirs(s: string, i: nat, acc: seq<Redirect<Slice>>): (r: RedirParse)
    requires i <= |s|
    ensures r.RedirOk? ==> i <= r.next <= |s|
    decreases |s| - i
  {
    if !Peek(s, i, {'<', '>'}) then RedirOk(acc, SkipSpace(s, i))
    else
      TokenAdvances(s, i);
      var t := Token(s, i);
      TokenAdvances(s, t.next);
      var f := Token(s, t.next);
      if f.tok != 'a' then RedirPanic
      else ParseRedirs(s, f.next, acc + [Redirect(f.word, t.tok != '<')])
  }

  /** parseexec's loop: MAXARGS is 10, so the tenth word panics. */
  function ParseArgs(s: string, i: nat, args: seq<Slice>, redirs: seq<Redirect<Slice>>): (r: Parse)
    requires i <= |s|
    ensures r.Ok? ==> i <= r.next <= |s|
    decreases |s| - i
  {
    if Peek(s, i, {'|', ')', '&', ';'}) then Ok(Wrap(Exec(args), redirs), SkipSpace(s, i))
    else
      TokenAdvances(s, i);
      var t := Token(s, i);
      if t.tok == '\0' then Ok(Wrap(Exec(args), redirs), t.next)
      else if t.tok != 'a' || |args| + 1 >= 10 then Panic
      else
        match ParseRedirs(s, t.next, redirs)
        case RedirPanic => Panic
        case RedirOk(rs, n) => ParseArgs(s, n, args + [t.word], rs)
  }

  function ParseExec(s: string, i: nat): (r: Parse)
    requires i <= |s|
    ensures r.Ok? ==> i <= r.next <= |s|
    decreases |s| - i, 1
  {
    if Peek(s, i, {'('}) then ParseBlock(s, i)
    else
      match ParseRedirs(s, i, [])
      case RedirPanic => Panic
      case RedirOk(rs, n) => ParseArgs(s, n, [], rs)
  }

  function ParseBlock(s: string, i: nat): (r: Parse)
    requires i <= |s| && Peek(s, i, {'('})
    ensures r.Ok? ==> i <= r.next <= |s|
    decreases |s| - i, 0
  {
    TokenAdvances(s, i);
    match ParseLine(s, Token(s, i).next)
    case Panic => Panic
    case Ok(cmd, n) =>
      if !Peek(s, n, {')'}) then Panic
      else
        TokenAdvances(s, n);
        match ParseRedirs(s, Token(s, n).next, [])
        case RedirPanic => Panic
        case RedirOk(rs, m) => Ok(Wrap(cmd, rs), m)
  }

  function ParsePipe(s: string, i: nat): (r: Parse)
    requires i <= |s|
    ensures r.Ok? ==> i <= r.next <= |s|
    decreases |s| - i, 2
  {
    match ParseExec(s, i)
    case Panic => Panic
    case Ok(cmd, n) =>
      if !Peek(s, n, {'|'}) then Ok(cmd, SkipSpace(s, n))
      else
        TokenAdvances(s, n);
        match ParsePipe(s, Token(s, n).next)
        case Panic => Panic
        case Ok(right, m) => Ok(Pipe(cmd, right), m)
  }

  /** parseline's loop over `&`. */
  function ParseBack(s: string, i: nat, cmd: Cmd<Slice>): (r: Parse)
    requires i <= |s|
    ensures r.Ok? && i <= r.next <= |s|
    decreases |s| - i
  {
    if !Peek(s, i, {'&'}) then Ok(cmd, SkipSpace(s, i))
    else TokenAdvances(s, i); ParseBack(s, Token(s, i).next, Back(cmd))
  }

  function ParseLine(s: string, i: nat): (r: Parse)
    requires i <= |s|
    ensures r.Ok? ==> i <= r.next <= |s|
    decreases |s| - i, 3
  {
    match ParsePipe(s, i)
    case Panic => Panic
    case Ok(first, n) =>
      var b := ParseBack(s, n, first);
      if !Peek(s, b.next, {';'}) then Ok(b.cmd, SkipSpace(s, b.next))
      else
        TokenAdvances(s, b.next);
        match ParseLine(s, Token(s, b.next).next)
        case Panic => Panic
        case Ok(rest, m) => Ok(List(b.cmd, rest), m)
  }

  /** parsecmd up to nulterminate. */
  function ParseCmd(s: string): Parse {
    match ParseLine(s, 0)
    case Panic => Panic
    case Ok(cmd, n) => if SkipSpace(s, n) != |s| then Panic else Ok(cmd, |s|)
  }

  // ----- the tree a reader sees

  function Sub(s: string, w: Slice): string { if w.q <= w.eq <= |s| then s[w.q..w.eq] else "" }

  function Text(s: string, c: Cmd<Slice>): Cmd<string> {
    match c
    case Exec(args) => Exec(Words(s, args))
    case Redir(d, to) => Redir(Text(s, d), Redirect(Sub(s, to.file), to.output))
    case Pipe(l, r) => Pipe(Text(s, l), Text(s, r))
    case List(l, r) => List(Text(s, l), Text(s, r))
    case Back(d) => Back(Text(s, d))
  }

  function Words(s: string, args: seq<Slice>): seq<string> {
    seq(|args|, k requires 0 <= k < |args| => Sub(s, args[k]))
  }

  /** Where parseexec stands after some words: redirections may follow. */
  function Rest(s: string, i: nat, args: seq<Slice>, redirs: seq<Redirect<Slice>>): Parse
    requires i <= |s|
  {
    match ParseRedirs(s, i, redirs)
    case RedirPanic => Panic
    case RedirOk(rs, n) => ParseArgs(s, n, args, rs)
  }

  // ----- reading tokens

  /** What the parser sees of the text: a word, or a symbol; `+` stands for `>>`. */
  datatype Tok = Word(w: string) | Sym(c: char)

  function TokOf(s: string, l: Lexeme): Tok { if l.tok == 'a' then Word(Sub(s, l.word)) else Sym(l.tok) }

  /** The tokens from position `i` on. */
  function Lex(s: string, i: nat): seq<Tok>
    requires i <= |s|
    decreases |s| - i
  {
    TokenAdvances(s, i);
    var l := Token(s, i);
    if l.tok == '\0' then [] else [TokOf(s, l)] + Lex(s, l.next)
  }

  /** A position with no white space to skip, in a text without NUL. */
  predicate Here(s: string, i: nat) { i <= |s| && SkipSpace(s, i) == i && '\0' !in s }

  /** Reading `ts` from position `i` on leads to position `j`. */
  predicate Reads(s: string, i: nat, ts: seq<Tok>, j: nat)
    decreases |ts|
  {
    Here(s, i) &&
    if ts == [] then i == j
    else Token(s, i).tok != '\0' && TokOf(s, Token(s, i)) == ts[0] && Reads(s, Token(s, i).next, ts[1..], j)
  }

  /** The character that decides what the parser does next: NUL at the end, `a` before a word. */
  function Head(s: string, i: nat): char { if Token(s, i).tok == '+' then '>' else Token(s, i).tok }

  lemma PeekIsHead(s: string, i: nat, toks: set<char>)
    requires Here(s, i) && forall c :: c in toks ==> IsSymbol(c)
    ensures Peek(s, i, toks) <==> Head(s, i) in toks
  {
  }

  lemma NextHere(s: string, i: nat)
    requires Here(s, i) && Token(s, i).tok != '\0'
    ensures Here(s, Token(s, i).next) && i < Token(s, i).next
  {
    TokenAdvances(s, i);
    SkipTwice(s, Token(s, i).word.eq);
  }

  lemma {:induction false} SkipTwice(s: string, i: nat)
    ensures SkipSpace(s, SkipSpace(s, i)) == SkipSpace(s, i)
    decreases |s| - i
  {
    if i < |s| && IsSpace(s[i]) { SkipTwice(s, i + 1); }
  }

  /** The end of the text is where nothing more is read. */
  lemma EndIsEnd(s: string, i: nat)
    requires Here(s, i)
    ensures Token(s, i).tok == '\0' <==> i == |s|
  {
    if i < |s| { assert s[i] in s; }
  }

  lemma {:induction false} ReadsHere(s: string, i: nat, ts: seq<Tok>, j: nat)
    requires Reads(s, i, ts, j)
    ensures Here(s, j) && i <= j && (ts != [] ==> i < j)
    decreases |ts|
  {
    if ts != [] {
      NextHere(s, i);
      ReadsHere(s, Token(s, i).next, ts[1..], j);
    }
  }

  lemma FirstOfConcat(a: seq<Tok>, b: seq<Tok>)
    requires a != []
    ensures [a[0]] + (a[1..] + b) == a + b && (a + b)[1..] == a[1..] + b && (a + b)[0] == a[0]
  {
  }

  /** The first token of `a`, and then other tokens. */
  lemma ReadsFirst(s: string, i: nat, a: seq<Tok>, k: nat, b: seq<Tok>, j: nat)
    requires a != [] && Reads(s, i, a, k) && Reads(s, Token(s, i).next, b, j)
    ensures Reads(s, i, [a[0]] + b, j)
  {
    assert ([a[0]] + b)[1..] == b;
  }

  lemma {:induction false} ReadsConcat(s: string, i: nat, a: seq<Tok>, k: nat, b: seq<Tok>, j: nat)
    requires Reads(s, i, a, k) && Reads(s, k, b, j)
    ensures Reads(s, i, a + b, j)
    decreases |a|
  {
    if a == [] {
      assert a + b == b;
    } else {
      ReadsConcat(s, Token(s, i).next, a[1..], k, b, j);
      ReadsFirst(s, i, a, k, a[1..] + b, j);
      FirstOfConcat(a, b);
    }
  }

  /** Where the reading of a part ends. */
  lemma {:induction false} ReadsSplit(s: string, i: nat, a: seq<Tok>, b: seq<Tok>, j: nat) returns (k: nat)
    requires Reads(s, i, a + b, j)
    ensures Reads(s, i, a, k) && Reads(s, k, b, j)
    decreases |a|
  {
    if a == [] {
      k := i;
      assert a + b == b;
    } else {
      FirstOfConcat(a, b);
      k := ReadsSplit(s, Token(s, i).next, a[1..], b, j);
    }
  }

  lemma ReadsOne(s: string, i: nat, x: Tok, j: nat)
    requires Here(s, i)
    ensures Reads(s, i, [x], j) <==> Token(s, i).tok != '\0' && TokOf(s, Token(s, i)) == x && j == Token(s, i).next
  {
    if Token(s, i).tok != '\0' { NextHere(s, i); }
    assert [x][1..] == [];
  }

  /** Reading to the end reads all tokens. */
  lemma {:induction false} ReadsAll(s: string, i: nat, ts: seq<Tok>)
    requires Here(s, i)
    ensures Reads(s, i, ts, |s|) <==> ts == Lex(s, i)
    decreases |s| - i
  {
    EndIsEnd(s, i);
    if i < |s| {
      NextHere(s, i);
      if ts != [] {
        ReadsAll(s, Token(s, i).next, ts[1..]);
        assert ts == [ts[0]] + ts[1..];
      }
    } else if ts == [] {
      assert Lex(s, i) == [];
    }
  }

  // ----- the grammar

  predicate IsRedirTok(x: Tok) { x == Sym('<') || x == Sym('>') || x == Sym('+') }

  /** redirections ::= { ("<" | ">" | ">>") word } */
  predicate IsRedirs(ts: seq<Tok>, rs: seq<Redirect<string>>) {
    if ts == [] then rs == []
    else
      && |ts| >= 2 && IsRedirTok(ts[0]) && ts[1].Word?
      && rs != [] && rs[0] == Redirect(ts[1].w, ts[0] != Sym('<')) && IsRedirs(ts[2..], rs[1..])
  }

  /** arguments ::= { word | redirection } */
  predicate IsArgs(ts: seq<Tok>, ws: seq<string>, rs: seq<Redirect<string>>) {
    if ts == [] then ws == [] && rs == []
    else if ts[0].Word? then ws != [] && ws[0] == ts[0].w && IsArgs(ts[1..], ws[1..], rs)
    else
      && |ts| >= 2 && IsRedirTok(ts[0]) && ts[1].Word?
      && rs != [] && rs[0] == Redirect(ts[1].w, ts[0] != Sym('<')) && IsArgs(ts[2..], ws, rs[1..])
  }

  /** command ::= "(" line ")" redirections | arguments, with at most nine words */
  ghost predicate IsExec(ts: seq<Tok>, t: Cmd<string>)
    decreases |ts|, 1
  {
    || (exists k: nat, d, rs :: BlockParts(ts, t, k, d, rs))
    || (exists ws, rs :: PlainParts(ts, t, ws, rs))
  }

  ghost predicate BlockParts(ts: seq<Tok>, t: Cmd<string>, k: nat, d: Cmd<string>, rs: seq<Redirect<string>>)
    decreases |ts|, 0
  {
    && 0 < k < |ts| && ts[0] == Sym('(') && ts[k] == Sym(')')
    && IsLine(ts[1..k], d) && IsRedirs(ts[k + 1..], rs) && t == Wrap(d, rs)
  }

  predicate PlainParts(ts: seq<Tok>, t: Cmd<string>, ws: seq<string>, rs: seq<Redirect<string>>) {
    IsArgs(ts, ws, rs) && |ws| <= 9 && t == Wrap(Exec(ws), rs)
  }

  /** pipeline ::= command | command "|" pipeline */
  ghost predicate IsPipe(ts: seq<Tok>, t: Cmd<string>)
    decreases |ts|, 3
  {
    IsExec(ts, t) || exists k: nat :: PipeParts(ts, t, k)
  }

  ghost predicate PipeParts(ts: seq<Tok>, t: Cmd<string>, k: nat)
    decreases |ts|, 2
  {
    k < |ts| && ts[k] == Sym('|') && t.Pipe? && IsExec(ts[..k], t.left) && IsPipe(ts[k + 1..], t.right)
  }

  /** job ::= pipeline | job "&" */
  ghost predicate IsJob(ts: seq<Tok>, t: Cmd<string>)
    decreases |ts|, 4
  {
    IsPipe(ts, t) || JobParts(ts, t)
  }

  ghost predicate JobParts(ts: seq<Tok>, t: Cmd<string>)
    decreases |ts|, 0
  {
    ts != [] && ts[|ts| - 1] == Sym('&') && t.Back? && IsJob(ts[..|ts| - 1], t.cmd)
  }

  /** line ::= job | job ";" line */
  ghost predicate IsLine(ts: seq<Tok>, t: Cmd<string>)
    decreases |ts|, 6
  {
    IsJob(ts, t) || exists k: nat :: LineParts(ts, t, k)
  }

  ghost predicate LineParts(ts: seq<Tok>, t: Cmd<string>, k: nat)
    decreases |ts|, 5
  {
    k < |ts| && ts[k] == Sym(';') && t.List? && IsJob(ts[..k], t.left) && IsLine(ts[k + 1..], t.right)
  }

  // ----- the parser accepts every phrase of the grammar

  function Files(s: string, rs: seq<Redirect<Slice>>): seq<Redirect<string>> {
    seq(|rs|, k requires 0 <= k < |rs| => Redirect(Sub(s, rs[k].file), rs[k].output))
  }

  lemma {:induction false} WrapText(s: string, c: Cmd<Slice>, rs: seq<Redirect<Slice>>)
    ensures Text(s, Wrap(c, rs)) == Wrap(Text(s, c), Files(s, rs))
    decreases |rs|
  {
    if rs != [] {
      WrapText(s, c, rs[..|rs| - 1]);
      assert Files(s, rs)[..|rs| - 1] == Files(s, rs[..|rs| - 1]);
    }
  }

  lemma WordsAppend(s: string, args: seq<Slice>, w: Slice, rest: seq<string>)
    ensures Words(s, args + [w]) + rest == Words(s, args) + ([Sub(s, w)] + rest)
  {
    assert Words(s, args + [w]) == Words(s, args) + [Sub(s, w)];
  }

  lemma FilesAppend(s: string, rs: seq<Redirect<Slice>>, r: Redirect<Slice>, rest: seq<Redirect<string>>)
    ensures Files(s, rs + [r]) + rest == Files(s, rs) + ([Redirect(Sub(s, r.file), r.output)] + rest)
  {
    assert Files(s, rs + [r]) == Files(s, rs) + [Redirect(Sub(s, r.file), r.output)];
  }

  // What may follow a line, a job, a pipeline and a command.

  predicate AfterLine(c: char) { c == '\0' || c == ')' }
  predicate AfterJob(c: char) { AfterLine(c) || c == ';' || c == '&' }
  predicate AfterExec(c: char) { AfterJob(c) || c == '|' }

  /** One redirection. */
  lemma RedirStep(s: string, i: nat, acc: seq<Redirect<Slice>>)
    requires Here(s, i) && (Head(s, i) == '<' || Head(s, i) == '>')
    requires Here(s, Token(s, i).next)
    ensures Peek(s, i, {'<', '>'}) && i < Token(s, i).next
    ensures var f := Token(s, Token(s, i).next);
      f.next <= |s| &&
      ParseRedirs(s, i, acc) ==
      if f.tok != 'a' then RedirPanic else ParseRedirs(s, f.next, acc + [Redirect(f.word, Token(s, i).tok != '<')])
  {
    PeekIsHead(s, i, {'<', '>'});
    TokenAdvances(s, i);
    TokenAdvances(s, Token(s, i).next);
  }

  lemma RedirStops(s: string, i: nat, acc: seq<Redirect<Slice>>)
    requires Here(s, i) && Head(s, i) != '<' && Head(s, i) != '>'
    ensures ParseRedirs(s, i, acc) == RedirOk(acc, i)
  {
    PeekIsHead(s, i, {'<', '>'});
  }

  /** The two tokens of a redirection. */
  lemma ReadsRedir(s: string, i: nat, ts: seq<Tok>, j: nat)
    requires Reads(s, i, ts, j) && |ts| >= 2 && IsRedirTok(ts[0]) && ts[1].Word?
    ensures var k := Token(s, i).next;
      && Here(s, i) && Here(s, k) && (Head(s, i) == '<' || Head(s, i) == '>')
      && Token(s, k).tok == 'a' && Sub(s, Token(s, k).word) == ts[1].w && Reads(s, Token(s, k).next, ts[2..], j)
      && (Token(s, i).tok != '<' <==> ts[0] != Sym('<'))
  {
    assert ts[1..][0] == ts[1] && ts[1..][1..] == ts[2..];
    assert Reads(s, Token(s, i).next, ts[1..], j);
  }

  lemma {:induction false} RedirsAccepted(s: string, i: nat, ts: seq<Tok>, rs: seq<Redirect<string>>, j: nat,
                                          acc: seq<Redirect<Slice>>)
    returns (out: seq<Redirect<Slice>>)
    requires IsRedirs(ts, rs) && Reads(s, i, ts, j) && Head(s, j) != '<' && Head(s, j) != '>'
    ensures ParseRedirs(s, i, acc) == RedirOk(out, j) && Files(s, out) == Files(s, acc) + rs
    decreases |ts|
  {
    if ts == [] {
      RedirStops(s, i, acc);
      out := acc;
    } else {
      ReadsRedir(s, i, ts, j);
      RedirStep(s, i, acc);
      var f := Token(s, Token(s, i).next);
      var r := Redirect(f.word, Token(s, i).tok != '<');
      out := RedirsAccepted(s, f.next, ts[2..], rs[1..], j, acc + [r]);
      FilesAppend(s, acc, r, rs[1..]);
      assert [rs[0]] + rs[1..] == rs;
    }
  }

  /** parseexec at the end of a command. */
  lemma RestStops(s: string, j: nat, args: seq<Slice>, redirs: seq<Redirect<Slice>>)
    requires Here(s, j) && AfterExec(Head(s, j))
    ensures Rest(s, j, args, redirs) == Ok(Wrap(Exec(args), redirs), j)
  {
    RedirStops(s, j, redirs);
    PeekIsHead(s, j, {'|', ')', '&', ';'});
    EndIsEnd(s, j);
  }

  /** parseexec takes one word. */
  lemma RestWord(s: string, i: nat, args: seq<Slice>, redirs: seq<Redirect<Slice>>)
    requires Here(s, i) && Token(s, i).tok == 'a' && Token(s, i).next <= |s|
    ensures Rest(s, i, args, redirs) ==
            if |args| + 1 >= 10 then Panic else Rest(s, Token(s, i).next, args + [Token(s, i).word], redirs)
  {
    RedirStops(s, i, redirs);
    PeekIsHead(s, i, {'|', ')', '&', ';'});
  }

  lemma TakeWord(s: string, i: nat, ts: seq<Tok>, j: nat, args: seq<Slice>, redirs: seq<Redirect<Slice>>)
    returns (n: nat, w: Slice)
    requires Reads(s, i, ts, j) && ts != [] && ts[0].Word? && |args| + 1 < 10
    ensures i <= |s| && n <= |s| && Rest(s, i, args, redirs) == Rest(s, n, args + [w], redirs)
    ensures Reads(s, n, ts[1..], j) && Sub(s, w) == ts[0].w
  {
    NextHere(s, i);
    RestWord(s, i, args, redirs);
    n, w := Token(s, i).next, Token(s, i).word;
  }

  lemma TakeRedir(s: string, i: nat, ts: seq<Tok>, j: nat, args: seq<Slice>, redirs: seq<Redirect<Slice>>)
    returns (n: nat, r: Redirect<Slice>)
    requires Reads(s, i, ts, j) && |ts| >= 2 && IsRedirTok(ts[0]) && ts[1].Word?
    ensures i <= |s| && n <= |s| && Rest(s, i, args, redirs) == Rest(s, n, args, redirs + [r])
    ensures Reads(s, n, ts[2..], j) && Sub(s, r.file) == ts[1].w && (r.output <==> ts[0] != Sym('<'))
  {
    ReadsRedir(s, i, ts, j);
    RedirStep(s, i, redirs);
    var f := Token(s, Token(s, i).next);
    n, r := f.next, Redirect(f.word, Token(s, i).tok != '<');
  }

  /** parseexec from `i` on, with some arguments and redirections taken, ends at `j` with more of them. */
  ghost predicate Collects(s: string, i: nat, ws: seq<string>, rs: seq<Redirect<string>>, j: nat,
                           args: seq<Slice>, redirs: seq<Redirect<Slice>>) {
    i <= |s| && exists args', redirs' ::
      && Rest(s, i, args, redirs) == Ok(Wrap(Exec(args'), redirs'), j)
      && Words(s, args') == Words(s, args) + ws && Files(s, redirs') == Files(s, redirs) + rs
  }

  lemma CollectWord(s: string, i: nat, ws: seq<string>, rs: seq<Redirect<string>>, j: nat,
                    args: seq<Slice>, redirs: seq<Redirect<Slice>>, n: nat, w: Slice)
    requires ws != [] && i <= |s| && n <= |s| && Sub(s, w) == ws[0]
    requires Rest(s, i, args, redirs) == Rest(s, n, args + [w], redirs)
    requires Collects(s, n, ws[1..], rs, j, args + [w], redirs)
    ensures Collects(s, i, ws, rs, j, args, redirs)
  {
    WordsAppend(s, args, w, ws[1..]);
    assert [ws[0]] + ws[1..] == ws;
  }

  lemma CollectRedir(s: string, i: nat, ws: seq<string>, rs: seq<Redirect<string>>, j: nat,
                     args: seq<Slice>, redirs: seq<Redirect<Slice>>, n: nat, r: Redirect<Slice>)
    requires rs != [] && i <= |s| && n <= |s| && Redirect(Sub(s, r.file), r.output) == rs[0]
    requires Rest(s, i, args, redirs) == Rest(s, n, args, redirs + [r])
    requires Collects(s, n, ws, rs[1..], j, args, redirs + [r])
    ensures Collects(s, i, ws, rs, j, args, redirs)
  {
    FilesAppend(s, redirs, r, rs[1..]);
    assert [rs[0]] + rs[1..] == rs;
  }

  lemma CollectNone(s: string, i: nat, args: seq<Slice>, redirs: seq<Redirect<Slice>>)
    requires Here(s, i) && AfterExec(Head(s, i))
    ensures Collects(s, i, [], [], i, args, redirs)
  {
    RestStops(s, i, args, redirs);
    assert Words(s, args) == Words(s, args) + [] && Files(s, redirs) == Files(s, redirs) + [];
  }

  lemma {:induction false} ArgsAccepted(s: string, i: nat, ts: seq<Tok>, ws: seq<string>, rs: seq<Redirect<string>>,
                                        j: nat, args: seq<Slice>, redirs: seq<Redirect<Slice>>)
    requires IsArgs(ts, ws, rs) && Reads(s, i, ts, j) && AfterExec(Head(s, j)) && |args| + |ws| <= 9
    ensures Collects(s, i, ws, rs, j, args, redirs)
    decreases |ts|
  {
    if ts == [] {
      CollectNone(s, i, args, redirs);
    } else if ts[0].Word? {
      var n, w := TakeWord(s, i, ts, j, args, redirs);
      ArgsAccepted(s, n, ts[1..], ws[1..], rs, j, args + [w], redirs);
      CollectWord(s, i, ws, rs, j, args, redirs, n, w);
    } else {
      var n, r := TakeRedir(s, i, ts, j, args, redirs);
      ArgsAccepted(s, n, ts[2..], ws, rs[1..], j, args, redirs + [r]);
      CollectRedir(s, i, ws, rs, j, args, redirs, n, r);
    }
  }

  lemma PlainAccepted(s: string, i: nat, ts: seq<Tok>, t: Cmd<string>, j: nat,
          ws: seq<string>, rs: seq<Redirect<string>>)
    returns (c: Cmd<Slice>)
    requires PlainParts(ts, t, ws, rs) && Reads(s, i, ts, j) && AfterExec(Head(s, j))
    ensures i <= |s| && ParseExec(s, i) == Ok(c, j) && Text(s, c) == t
  {
    PeekIsHead(s, i, {'('});
    ArgsAccepted(s, i, ts, ws, rs, j, [], []);
    var args, redirs :|
      && Rest(s, i, [], []) == Ok(Wrap(Exec(args), redirs), j)
      && Words(s, args) == Words(s, []) + ws && Files(s, redirs) == Files(s, []) + rs;
    c := Wrap(Exec(args), redirs);
    WrapText(s, Exec(args), redirs);
    assert Words(s, []) + ws == ws && Files(s, []) + rs == rs;
  }

  /** parseblock after the closing parenthesis. */
  function AfterBlock(s: string, j: nat, c: Cmd<Slice>): Parse
    requires j <= |s|
  {
    match ParseRedirs(s, j, [])
    case RedirPanic => Panic
    case RedirOk(rs, m) => Ok(Wrap(c, rs), m)
  }

  lemma BlockGlue(s: string, i: nat, d: Cmd<Slice>, q: nat)
    requires Here(s, i) && Token(s, i).tok == '(' && Here(s, Token(s, i).next)
    requires ParseLine(s, Token(s, i).next) == Ok(d, q) && Here(s, q) && Token(s, q).tok == ')'
    requires Token(s, q).next <= |s|
    ensures ParseExec(s, i) == AfterBlock(s, Token(s, q).next, d)
  {
    PeekIsHead(s, i, {'('});
    PeekIsHead(s, q, {')'});
  }

  lemma {:induction false} BlockAccepted(s: string, i: nat, ts: seq<Tok>, t: Cmd<string>, j: nat,
                                         k: nat, d: Cmd<string>, rs: seq<Redirect<string>>)
    returns (c: Cmd<Slice>)
    requires BlockParts(ts, t, k, d, rs) && Reads(s, i, ts, j) && AfterExec(Head(s, j))
    ensures i <= |s| && ParseExec(s, i) == Ok(c, j) && Text(s, c) == t
    decreases |ts|, 0
  {
    var p, q, r := ReadsBlock(s, i, ts, k, j);
    var inner := LineAccepted(s, p, ts[1..k], d, q);
    BlockGlue(s, i, inner, q);
    var redirs := RedirsAccepted(s, r, ts[k + 1..], rs, j, []);
    c := Wrap(inner, redirs);
    WrapText(s, inner, redirs);
    assert Files(s, []) + rs == rs;
  }

  /** Where the parts of a block start. */
  lemma ReadsBlock(s: string, i: nat, ts: seq<Tok>, k: nat, j: nat) returns (p: nat, q: nat, r: nat)
    requires Reads(s, i, ts, j) && 0 < k < |ts| && ts[0] == Sym('(') && ts[k] == Sym(')')
    ensures Here(s, i) && Token(s, i).tok == '(' && p == Token(s, i).next && Reads(s, p, ts[1..k], q)
    ensures Here(s, p) && Here(s, q) && Token(s, q).tok == ')' && r == Token(s, q).next <= |s|
    ensures Reads(s, r, ts[k + 1..], j)
  {
    p := Token(s, i).next;
    NextHere(s, i);
    assert ts[1..] == ts[1..k] + ts[k..];
    q := ReadsSplit(s, p, ts[1..k], ts[k..], j);
    assert ts[k..][0] == ts[k] && ts[k..][1..] == ts[k + 1..];
    r := Token(s, q).next;
    NextHere(s, q);
  }

  lemma {:induction false} ExecAccepted(s: string, i: nat, ts: seq<Tok>, t: Cmd<string>, j: nat) returns (c: Cmd<Slice>)
    requires IsExec(ts, t) && Reads(s, i, ts, j) && AfterExec(Head(s, j))
    ensures i <= |s| && ParseExec(s, i) == Ok(c, j) && Text(s, c) == t
    decreases |ts|, 1
  {
    if k: nat, d, rs :| BlockParts(ts, t, k, d, rs) {
      c := BlockAccepted(s, i, ts, t, j, k, d, rs);
    } else {
      var ws, rs :| PlainParts(ts, t, ws, rs);
      c := PlainAccepted(s, i, ts, t, j, ws, rs);
    }
  }

  /** Two parts with a symbol between them. */
  lemma ReadsTwo(s: string, i: nat, ts: seq<Tok>, k: nat, c: char, j: nat) returns (p: nat, q: nat)
    requires Reads(s, i, ts, j) && k < |ts| && ts[k] == Sym(c)
    ensures Reads(s, i, ts[..k], p) && Here(s, p) && Token(s, p).tok == c && c != 'a' && c != '\0'
    ensures q == Token(s, p).next && Here(s, q) && Reads(s, q, ts[k + 1..], j) && p < q
  {
    assert ts == ts[..k] + ts[k..];
    p := ReadsSplit(s, i, ts[..k], ts[k..], j);
    assert ts[k..][0] == ts[k] && ts[k..][1..] == ts[k + 1..];
    q := Token(s, p).next;
    NextHere(s, p);
  }

  lemma PipeStops(s: string, i: nat, c: Cmd<Slice>, j: nat)
    requires Here(s, j) && i <= |s| && ParseExec(s, i) == Ok(c, j) && AfterJob(Head(s, j))
    ensures ParsePipe(s, i) == Ok(c, j)
  {
    PeekIsHead(s, j, {'|'});
  }

  lemma PipeGlue(s: string, i: nat, a: Cmd<Slice>, p: nat, b: Cmd<Slice>, j: nat)
    requires i <= |s| && ParseExec(s, i) == Ok(a, p) && Here(s, p) && Token(s, p).tok == '|'
    requires Token(s, p).next <= |s| && ParsePipe(s, Token(s, p).next) == Ok(b, j)
    ensures ParsePipe(s, i) == Ok(Pipe(a, b), j)
  {
    PeekIsHead(s, p, {'|'});
  }

  lemma {:induction false} PipeAccepted(s: string, i: nat, ts: seq<Tok>, t: Cmd<string>, j: nat) returns (c: Cmd<Slice>)
    requires IsPipe(ts, t) && Reads(s, i, ts, j) && AfterJob(Head(s, j))
    ensures i <= |s| && ParsePipe(s, i) == Ok(c, j) && Text(s, c) == t
    decreases |ts|, 3
  {
    if k: nat :| PipeParts(ts, t, k) {
      var p, q := ReadsTwo(s, i, ts, k, '|', j);
      var a := ExecAccepted(s, i, ts[..k], t.left, p);
      var b := PipeAccepted(s, q, ts[k + 1..], t.right, j);
      PipeGlue(s, i, a, p, b, j);
      c := Pipe(a, b);
    } else {
      c := ExecAccepted(s, i, ts, t, j);
      ReadsHere(s, i, ts, j);
      PipeStops(s, i, c, j);
    }
  }

  lemma BackStep(s: string, p: nat, c: Cmd<Slice>)
    requires Here(s, p) && Token(s, p).tok == '&' && Token(s, p).next <= |s|
    ensures ParseBack(s, p, c) == ParseBack(s, Token(s, p).next, Back(c))
  {
    PeekIsHead(s, p, {'&'});
  }

  lemma BackStops(s: string, p: nat, c: Cmd<Slice>)
    requires Here(s, p) && Head(s, p) != '&'
    ensures ParseBack(s, p, c) == Ok(c, p)
  {
    PeekIsHead(s, p, {'&'});
  }

  /** A pipeline, and parseline's loop as far as the job reaches. */
  lemma {:induction false} JobAccepted(s: string, i: nat, ts: seq<Tok>, t: Cmd<string>, j: nat)
    returns (first: Cmd<Slice>, n: nat, c: Cmd<Slice>)
    requires IsJob(ts, t) && Reads(s, i, ts, j) && AfterJob(Head(s, j))
    ensures i <= |s| && n <= |s| && j <= |s| && ParsePipe(s, i) == Ok(first, n)
    ensures ParseBack(s, n, first) == ParseBack(s, j, c) && Text(s, c) == t
    decreases |ts|, 4
  {
    ReadsHere(s, i, ts, j);
    if JobParts(ts, t) {
      var m := |ts| - 1;
      var p, q := ReadsTwo(s, i, ts, m, '&', j);
      assert ts[m + 1..] == [];
      first, n, c := JobAccepted(s, i, ts[..m], t.cmd, p);
      BackStep(s, p, c);
      c := Back(c);
    } else {
      first := PipeAccepted(s, i, ts, t, j);
      n, c := j, first;
    }
  }

  lemma LineStops(s: string, i: nat, first: Cmd<Slice>, n: nat, c: Cmd<Slice>, j: nat)
    requires Here(s, j) && i <= |s| && n <= |s| && ParsePipe(s, i) == Ok(first, n)
    requires ParseBack(s, n, first) == Ok(c, j) && AfterLine(Head(s, j))
    ensures ParseLine(s, i) == Ok(c, j)
  {
    PeekIsHead(s, j, {';'});
  }

  lemma LineGlue(s: string, i: nat, first: Cmd<Slice>, n: nat, a: Cmd<Slice>, p: nat, b: Cmd<Slice>, j: nat)
    requires Here(s, p) && i <= |s| && n <= |s| && ParsePipe(s, i) == Ok(first, n)
    requires ParseBack(s, n, first) == Ok(a, p) && Token(s, p).tok == ';'
    requires Token(s, p).next <= |s| && ParseLine(s, Token(s, p).next) == Ok(b, j)
    ensures ParseLine(s, i) == Ok(List(a, b), j)
  {
    PeekIsHead(s, p, {';'});
  }

  lemma {:induction false} LineAccepted(s: string, i: nat, ts: seq<Tok>, t: Cmd<string>, j: nat) returns (c: Cmd<Slice>)
    requires IsLine(ts, t) && Reads(s, i, ts, j) && AfterLine(Head(s, j))
    ensures i <= |s| && ParseLine(s, i) == Ok(c, j) && Text(s, c) == t
    decreases |ts|, 6
  {
    if k: nat :| LineParts(ts, t, k) {
      var p, q := ReadsTwo(s, i, ts, k, ';', j);
      var first, n, a := JobAccepted(s, i, ts[..k], t.left, p);
      BackStops(s, p, a);
      var b := LineAccepted(s, q, ts[k + 1..], t.right, j);
      LineGlue(s, i, first, n, a, p, b, j);
      c := List(a, b);
    } else {
      var first, n;
      first, n, c := JobAccepted(s, i, ts, t, j);
      ReadsHere(s, i, ts, j);
      BackStops(s, j, c);
      LineStops(s, i, first, n, c, j);
    }
  }

  // ----- and nothing else

  /** A redirection read before other tokens. */
  lemma RedirFirst(s: string, i: nat, ts: seq<Tok>, j: nat) returns (ts': seq<Tok>, r: Redirect<Slice>)
    requires Here(s, i) && (Head(s, i) == '<' || Head(s, i) == '>') && Here(s, Token(s, i).next)
    requires Token(s, Token(s, i).next).tok == 'a' && Reads(s, Token(s, Token(s, i).next).next, ts, j)
    ensures r == Redirect(Token(s, Token(s, i).next).word, Token(s, i).tok != '<') && Reads(s, i, ts', j)
    ensures |ts'| >= 2 && ts'[2..] == ts && IsRedirTok(ts'[0]) && ts'[1] == Word(Sub(s, r.file))
    ensures r.output <==> ts'[0] != Sym('<')
  {
    var x := Token(s, i);
    var f := Token(s, x.next);
    r := Redirect(f.word, x.tok != '<');
    ts' := [TokOf(s, x)] + ([TokOf(s, f)] + ts);
    assert ts'[1..] == [TokOf(s, f)] + ts && ([TokOf(s, f)] + ts)[1..] == ts;
  }

  lemma {:induction false} RedirsSound(s: string, i: nat, acc: seq<Redirect<Slice>>)
    returns (ts: seq<Tok>, rs: seq<Redirect<string>>)
    requires Here(s, i) && ParseRedirs(s, i, acc).RedirOk?
    ensures var r := ParseRedirs(s, i, acc);
      Reads(s, i, ts, r.next) && IsRedirs(ts, rs) && Files(s, r.redirs) == Files(s, acc) + rs
    decreases |s| - i
  {
    if Head(s, i) == '<' || Head(s, i) == '>' {
      NextHere(s, i);
      RedirStep(s, i, acc);
      var f := Token(s, Token(s, i).next);
      NextHere(s, Token(s, i).next);
      var one := Redirect(f.word, Token(s, i).tok != '<');
      var ts1, rs1 := RedirsSound(s, f.next, acc + [one]);
      var r;
      ts, r := RedirFirst(s, i, ts1, ParseRedirs(s, i, acc).next);
      FilesAppend(s, acc, r, rs1);
      rs := [Redirect(Sub(s, r.file), r.output)] + rs1;
      assert rs[1..] == rs1;
    } else {
      RedirStops(s, i, acc);
      ts, rs := [], [];
    }
  }

  lemma {:induction false} RestSound(s: string, i: nat, args: seq<Slice>, redirs: seq<Redirect<Slice>>)
    returns (ts: seq<Tok>, ws: seq<string>, rs: seq<Redirect<string>>, args': seq<Slice>, redirs': seq<Redirect<Slice>>)
    requires Here(s, i) && Rest(s, i, args, redirs).Ok? && |args| <= 9
    ensures var r := Rest(s, i, args, redirs);
      && r.cmd == Wrap(Exec(args'), redirs') && Reads(s, i, ts, r.next) && IsArgs(ts, ws, rs)
      && |args| + |ws| <= 9 && Words(s, args') == Words(s, args) + ws && Files(s, redirs') == Files(s, redirs) + rs
    decreases |s| - i
  {
    var x := Token(s, i);
    if Head(s, i) == '<' || Head(s, i) == '>' {
      NextHere(s, i);
      RedirStep(s, i, redirs);
      var f := Token(s, x.next);
      NextHere(s, x.next);
      var one := Redirect(f.word, x.tok != '<');
      ts, ws, rs, args', redirs' := RestSound(s, f.next, args, redirs + [one]);
      var rs1, r := rs, one;
      ts, r := RedirFirst(s, i, ts, Rest(s, i, args, redirs).next);
      FilesAppend(s, redirs, r, rs1);
      rs := [Redirect(Sub(s, r.file), r.output)] + rs1;
      assert rs[1..] == rs1;
    } else if x.tok == 'a' {
      NextHere(s, i);
      RestWord(s, i, args, redirs);
      ts, ws, rs, args', redirs' := RestSound(s, x.next, args + [x.word], redirs);
      WordsAppend(s, args, x.word, ws);
      var ts1, ws1 := ts, ws;
      ts, ws := [TokOf(s, x)] + ts1, [Sub(s, x.word)] + ws1;
      assert ts[1..] == ts1 && ws[1..] == ws1;
    } else {
      StopsOrPanics(s, i, args, redirs);
      ts, ws, rs, args', redirs' := [], [], [], args, redirs;
    }
  }

  /** What is neither a word nor a redirection ends the command, or is an opening parenthesis. */
  lemma StopsOrPanics(s: string, i: nat, args: seq<Slice>, redirs: seq<Redirect<Slice>>)
    requires Here(s, i) && Token(s, i).tok != 'a' && Head(s, i) != '<' && Head(s, i) != '>'
    ensures Rest(s, i, args, redirs) == if AfterExec(Head(s, i)) then Ok(Wrap(Exec(args), redirs), i) else Panic
  {
    if AfterExec(Head(s, i)) {
      RestStops(s, i, args, redirs);
    } else {
      RedirStops(s, i, redirs);
      PeekIsHead(s, i, {'|', ')', '&', ';'});
    }
  }

  lemma PlainSound(s: string, i: nat) returns (ts: seq<Tok>)
    requires Here(s, i) && Head(s, i) != '(' && ParseExec(s, i).Ok?
    ensures Reads(s, i, ts, ParseExec(s, i).next) && IsExec(ts, Text(s, ParseExec(s, i).cmd))
  {
    PeekIsHead(s, i, {'('});
    assert ParseExec(s, i) == Rest(s, i, [], []);
    var ws, rs, args, redirs;
    ts, ws, rs, args, redirs := RestSound(s, i, [], []);
    WrapText(s, Exec(args), redirs);
    assert Words(s, []) + ws == ws && Files(s, []) + rs == rs;
    assert PlainParts(ts, Text(s, ParseExec(s, i).cmd), ws, rs);
  }

  lemma {:induction false} BlockSound(s: string, i: nat) returns (ts: seq<Tok>)
    requires Here(s, i) && Head(s, i) == '(' && ParseExec(s, i).Ok?
    ensures Reads(s, i, ts, ParseExec(s, i).next) && IsExec(ts, Text(s, ParseExec(s, i).cmd))
    decreases |s| - i, 0
  {
    PeekIsHead(s, i, {'('});
    NextHere(s, i);
    var p := Token(s, i).next;
    assert ParseExec(s, i) == ParseBlock(s, i) && ParseLine(s, p).Ok?;
    var inner := LineSound(s, p);
    var d, q := ParseLine(s, p).cmd, ParseLine(s, p).next;
    ReadsHere(s, p, inner, q);
    PeekIsHead(s, q, {')'});
    NextHere(s, q);
    BlockGlue(s, i, d, q);
    var rest, rs := RedirsSound(s, Token(s, q).next, []);
    var redirs := ParseRedirs(s, Token(s, q).next, []).redirs;
    WrapText(s, d, redirs);
    assert Files(s, []) + rs == rs;
    ts := BlockTokens(s, i, inner, q, rest, ParseExec(s, i).next, Text(s, d), rs);
  }

  lemma BlockTokens(s: string, i: nat, inner: seq<Tok>, q: nat, rest: seq<Tok>, j: nat,
                    d: Cmd<string>, rs: seq<Redirect<string>>) returns (ts: seq<Tok>)
    requires Here(s, i) && Token(s, i).tok == '(' && Reads(s, Token(s, i).next, inner, q)
    requires Here(s, q) && Token(s, q).tok == ')' && Reads(s, Token(s, q).next, rest, j)
    requires IsLine(inner, d) && IsRedirs(rest, rs)
    ensures Reads(s, i, ts, j) && IsExec(ts, Wrap(d, rs))
  {
    var k := |inner| + 1;
    ts := [Sym('(')] + inner + ([Sym(')')] + rest);
    ReadsOne(s, q, Sym(')'), Token(s, q).next);
    ReadsConcat(s, q, [Sym(')')], Token(s, q).next, rest, j);
    ReadsOne(s, i, Sym('('), Token(s, i).next);
    ReadsConcat(s, i, [Sym('(')], Token(s, i).next, inner, q);
    ReadsConcat(s, i, [Sym('(')] + inner, q, [Sym(')')] + rest, j);
    assert ts[1..k] == inner && ts[k + 1..] == rest && ts[k] == Sym(')');
    assert BlockParts(ts, Wrap(d, rs), k, d, rs);
  }

  lemma {:induction false} ExecSound(s: string, i: nat) returns (ts: seq<Tok>)
    requires Here(s, i) && ParseExec(s, i).Ok?
    ensures Reads(s, i, ts, ParseExec(s, i).next) && IsExec(ts, Text(s, ParseExec(s, i).cmd))
    decreases |s| - i, 1
  {
    if Head(s, i) == '(' { ts := BlockSound(s, i); } else { ts := PlainSound(s, i); }
  }

  /** Joining two parts at a symbol. */
  lemma JoinTokens(s: string, i: nat, a: seq<Tok>, p: nat, c: char, b: seq<Tok>, j: nat) returns (ts: seq<Tok>)
    requires Reads(s, i, a, p) && Here(s, p) && Token(s, p).tok == c && c != 'a' && c != '\0'
    requires Reads(s, Token(s, p).next, b, j)
    ensures Reads(s, i, ts, j) && |a| < |ts| && ts[..|a|] == a && ts[|a|] == Sym(c) && ts[|a| + 1..] == b
  {
    ts := a + ([Sym(c)] + b);
    ReadsOne(s, p, Sym(c), Token(s, p).next);
    ReadsConcat(s, p, [Sym(c)], Token(s, p).next, b, j);
    ReadsConcat(s, i, a, p, [Sym(c)] + b, j);
  }

  lemma {:induction false} PipeSound(s: string, i: nat) returns (ts: seq<Tok>)
    requires Here(s, i) && ParsePipe(s, i).Ok?
    ensures Reads(s, i, ts, ParsePipe(s, i).next) && IsPipe(ts, Text(s, ParsePipe(s, i).cmd))
    decreases |s| - i, 3
  {
    var a := ExecSound(s, i);
    var left, p := ParseExec(s, i).cmd, ParseExec(s, i).next;
    ReadsHere(s, i, a, p);
    PeekIsHead(s, p, {'|'});
    if Head(s, p) == '|' {
      NextHere(s, p);
      var b := PipeSound(s, Token(s, p).next);
      ts := JoinTokens(s, i, a, p, '|', b, ParsePipe(s, i).next);
      assert PipeParts(ts, Text(s, ParsePipe(s, i).cmd), |a|);
    } else {
      ts := a;
    }
  }

  /** parseline's loop, after the tokens `a` of a job. */
  lemma {:induction false} BackSound(s: string, i: nat, a: seq<Tok>, p: nat, c: Cmd<Slice>) returns (ts: seq<Tok>)
    requires Reads(s, i, a, p) && p <= |s| && IsJob(a, Text(s, c))
    ensures var b := ParseBack(s, p, c); Reads(s, i, ts, b.next) && IsJob(ts, Text(s, b.cmd))
    decreases |s| - p
  {
    ReadsHere(s, i, a, p);
    if Head(s, p) == '&' {
      NextHere(s, p);
      BackStep(s, p, c);
      var q := Token(s, p).next;
      assert Reads(s, q, [], q);
      var a1 := JoinTokens(s, i, a, p, '&', [], q);
      assert |a1| == |a| + 1 && a1[..|a1| - 1] == a;
      assert JobParts(a1, Text(s, Back(c)));
      ts := BackSound(s, i, a1, q, Back(c));
    } else {
      BackStops(s, p, c);
      ts := a;
    }
  }

  lemma {:induction false} LineSound(s: string, i: nat) returns (ts: seq<Tok>)
    requires Here(s, i) && ParseLine(s, i).Ok?
    ensures Reads(s, i, ts, ParseLine(s, i).next) && IsLine(ts, Text(s, ParseLine(s, i).cmd))
    decreases |s| - i, 5
  {
    var a := PipeSound(s, i);
    var first, n := ParsePipe(s, i).cmd, ParsePipe(s, i).next;
    a := BackSound(s, i, a, n, first);
    var b := ParseBack(s, n, first);
    var p := b.next;
    ReadsHere(s, i, a, p);
    PeekIsHead(s, p, {';'});
    if Head(s, p) == ';' {
      NextHere(s, p);
      var rest := LineSound(s, Token(s, p).next);
      ts := JoinTokens(s, i, a, p, ';', rest, ParseLine(s, i).next);
      assert LineParts(ts, Text(s, ParseLine(s, i).cmd), |a|);
    } else {
      ts := a;
    }
  }

  /** Leading white space makes no difference. */
  lemma SameFrom(s: string, i: nat)
    requires i <= |s|
    ensures ParseLine(s, SkipSpace(s, i)) == ParseLine(s, i) && Lex(s, SkipSpace(s, i)) == Lex(s, i)
  {
    var j := SkipSpace(s, i);
    SkipTwice(s, i);
    assert Token(s, j) == Token(s, i);
    TokenAdvances(s, i);
    TokenAdvances(s, j);
    assert forall acc :: ParseRedirs(s, j, acc) == ParseRedirs(s, i, acc);
    assert ParseExec(s, j) == ParseExec(s, i);
    assert ParsePipe(s, j) == ParsePipe(s, i);
  }

  /** A text parses to a tree exactly when its tokens are a line of the grammar with that tree; so the
      grammar gives a text at most one. */
  lemma ParsesExactly(s: string, t: Cmd<string>)
    requires '\0' !in s
    ensures IsLine(Lex(s, 0), t) <==> ParseCmd(s).Ok? && Text(s, ParseCmd(s).cmd) == t
  {
    var i := SkipSpace(s, 0);
    SkipTwice(s, 0);
    SameFrom(s, 0);
    if IsLine(Lex(s, i), t) {
      ReadsAll(s, i, Lex(s, i));
      EndIsEnd(s, |s|);
      var c := LineAccepted(s, i, Lex(s, i), t, |s|);
    }
    if ParseCmd(s).Ok? {
      var ts := LineSound(s, i);
      ReadsHere(s, i, ts, ParseLine(s, i).next);
      ReadsAll(s, i, ts);
    }
  }

  // ----- spelling

  /** White space as the shell's string lists it. */
  predicate Blank(g: string) { forall c :: c in g ==> c in {' ', '\t', '\r', '\n', '\U{0B}'} }

  function Show(x: Tok): string {
    match x
    case Word(w) => w
    case Sym(c) => if c == '+' then ">>" else [c]
  }

  /** A token as it can be written: words have no white space, symbol or NUL in them. */
  predicate Writable(x: Tok) {
    match x
    case Word(w) => w != "" && forall c :: c in w ==> Plain(c)
    case Sym(c) => c in {'<', '|', '>', '&', ';', '(', ')', '+'}
  }

  predicate Plain(c: char) {
    c !in {' ', '\t', '\r', '\n', '\U{0B}', '<', '|', '>', '&', ';', '(', ')', '\0'}
  }

  /** Two tokens that need white space between them. */
  predicate Touch(a: Tok, b: Tok) { (a.Word? && b.Word?) || (a == Sym('>') && (b == Sym('>') || b == Sym('+'))) }

  /** The tokens with the gaps before, between and after them. */
  function Spell(ts: seq<Tok>, gaps: seq<string>): string
    requires |gaps| == |ts| + 1
  {
    if ts == [] then gaps[0] else gaps[0] + (Show(ts[0]) + Spell(ts[1..], gaps[1..]))
  }

  predicate Spaced(ts: seq<Tok>, gaps: seq<string>) {
    && |gaps| == |ts| + 1
    && (forall k :: 0 <= k < |gaps| ==> Blank(gaps[k]))
    && (forall k :: 0 <= k < |ts| ==> Writable(ts[k]))
    && (forall k :: 0 < k < |ts| && Touch(ts[k - 1], ts[k]) ==> gaps[k] != "")
  }

  /** `text` stands in `s` at position `i`. */
  predicate Starts(s: string, i: nat, text: string) {
    i + |text| <= |s| && forall k :: 0 <= k < |text| ==> s[i + k] == text[k]
  }

  lemma StartsConcat(s: string, i: nat, a: string, b: string)
    requires Starts(s, i, a + b)
    ensures Starts(s, i, a) && Starts(s, i + |a|, b)
  {
    forall k | 0 <= k < |a| ensures s[i + k] == a[k] { assert (a + b)[k] == a[k]; }
    forall k | 0 <= k < |b| ensures s[i + |a| + k] == b[k] { assert (a + b)[|a| + k] == b[k]; }
  }

  lemma {:induction false} SkipGap(s: string, i: nat, g: string)
    requires Starts(s, i, g) && Blank(g) && (i + |g| < |s| ==> !IsSpace(s[i + |g|]))
    ensures SkipSpace(s, i) == i + |g|
    decreases |g|
  {
    if g != "" {
      assert s[i] == g[0] && g[0] in g;
      assert forall c :: c in g[1..] ==> c in g;
      forall k | 0 <= k < |g[1..]| ensures s[i + 1 + k] == g[1..][k] { assert s[i + (k + 1)] == g[k + 1]; }
      SkipGap(s, i + 1, g[1..]);
    }
  }

  lemma {:induction false} WordEndIs(s: string, i: nat, j: nat)
    requires i <= j <= |s| && (j < |s| ==> !IsWordChar(s[j])) && forall k :: i <= k < j ==> IsWordChar(s[k])
    ensures WordEnd(s, i) == j
    decreases j - i
  {
    if i < j { WordEndIs(s, i + 1, j); }
  }

  /** The first character of a token, which is no white space. */
  lemma ShowStart(x: Tok)
    requires Writable(x)
    ensures Show(x) != "" && !IsSpace(Show(x)[0]) && (x.Sym? ==> !IsWordChar(Show(x)[0]))
    ensures Show(x)[0] == '>' <==> x == Sym('>') || x == Sym('+')
  {
    if x.Word? { assert x.w[0] in x.w; }
  }

  /** A token where it is written, with what follows. */
  lemma TokenShown(s: string, i: nat, x: Tok, g: string)
    requires Writable(x) && Starts(s, i, Show(x) + g) && Blank(g) && '\0' !in s
    requires var j := i + |Show(x) + g|; j < |s| ==> !IsSpace(s[j]) && (g == "" ==> CannotFollow(x, s[j]))
    ensures SkipSpace(s, i) == i && Token(s, i).tok != '\0' && TokOf(s, Token(s, i)) == x
    ensures Token(s, i).next == i + |Show(x) + g|
  {
    var e, j := i + |Show(x)|, i + |Show(x) + g|;
    StartsConcat(s, i, Show(x), g);
    ShowStart(x);
    assert s[i] == Show(x)[0] && s[i] in s;
    SkipGap(s, e, g);
    if g != "" { assert s[e] == g[0] && g[0] in g; }
    if x.Word? {
      forall k | i <= k < e ensures IsWordChar(s[k]) { assert s[k] == x.w[k - i] && x.w[k - i] in x.w; }
      WordEndIs(s, i, e);
      assert s[i..e] == x.w;
    } else if x == Sym('+') {
      assert s[i + 1] == Show(x)[1];
    }
  }

  /** Character `c` cannot belong to the token `x` before it. */
  predicate CannotFollow(x: Tok, c: char) { if x.Word? then !IsWordChar(c) else x == Sym('>') ==> c != '>' }

  /** The first of spelled tokens. */
  lemma LexHead(s: string, i: nat, ts: seq<Tok>, gaps: seq<string>) returns (p: nat, q: nat)
    requires Spaced(ts, gaps) && ts != [] && Starts(s, i, Spell(ts, gaps)) && i + |Spell(ts, gaps)| == |s| && '\0' !in s
    ensures p == i + |gaps[0]| == SkipSpace(s, i)
    ensures Here(s, p) && Token(s, p).tok != '\0' && TokOf(s, Token(s, p)) == ts[0]
    ensures Token(s, p).next == q + |gaps[1]| && Spaced(ts[1..], gaps[1..])
    ensures Starts(s, q, Spell(ts[1..], gaps[1..])) && q + |Spell(ts[1..], gaps[1..])| == |s|
  {
    var rest := Spell(ts[1..], gaps[1..]);
    p := i + |gaps[0]|;
    q := p + |Show(ts[0])|;
    SpacedRest(ts, gaps);
    StartsConcat(s, i, gaps[0], Show(ts[0]) + rest);
    StartsConcat(s, p, Show(ts[0]), rest);
    ShowStart(ts[0]);
    assert s[p] == Show(ts[0])[0];
    SkipGap(s, i, gaps[0]);
    GapAfter(s, p, ts, gaps, q);
    TokenShown(s, p, ts[0], gaps[1]);
  }

  lemma {:induction false} LexFrom(s: string, i: nat, ts: seq<Tok>, gaps: seq<string>)
    requires Spaced(ts, gaps) && Starts(s, i, Spell(ts, gaps)) && i + |Spell(ts, gaps)| == |s| && '\0' !in s
    ensures SkipSpace(s, i) == i + |gaps[0]| && Reads(s, SkipSpace(s, i), ts, |s|)
    decreases |ts|
  {
    if ts == [] {
      SkipGap(s, i, gaps[0]);
    } else {
      var p, q := LexHead(s, i, ts, gaps);
      LexFrom(s, q, ts[1..], gaps[1..]);
    }
  }

  lemma SpacedRest(ts: seq<Tok>, gaps: seq<string>)
    requires Spaced(ts, gaps) && ts != []
    ensures Spaced(ts[1..], gaps[1..])
  {
    forall k | 0 < k < |ts[1..]| && Touch(ts[1..][k - 1], ts[1..][k]) ensures gaps[1..][k] != "" {
      assert Touch(ts[(k + 1) - 1], ts[k + 1]);
    }
  }

  /** What follows the first token and its gap. */
  lemma GapAfter(s: string, p: nat, ts: seq<Tok>, gaps: seq<string>, q: nat)
    requires Spaced(ts, gaps) && ts != [] && q == p + |Show(ts[0])| && Starts(s, p, Show(ts[0]))
    requires Starts(s, q, Spell(ts[1..], gaps[1..])) && q + |Spell(ts[1..], gaps[1..])| == |s|
    ensures Starts(s, p, Show(ts[0]) + gaps[1])
    ensures var j := p + |Show(ts[0]) + gaps[1]|;
      j < |s| ==> !IsSpace(s[j]) && (gaps[1] == "" ==> CannotFollow(ts[0], s[j]))
  {
    var x, g, j := ts[0], gaps[1], p + |Show(ts[0]) + gaps[1]|;
    var rest := Spell(ts[1..], gaps[1..]);
    if |ts| > 1 {
      var tail := Show(ts[1]) + Spell(ts[1..][1..], gaps[1..][1..]);
      assert rest == g + tail;
      StartsConcat(s, q, g, tail);
      StartsConcat(s, j, Show(ts[1]), Spell(ts[1..][1..], gaps[1..][1..]));
      ShowStart(ts[1]);
      assert s[j] == Show(ts[1])[0];
      assert Touch(ts[1 - 1], ts[1]) ==> gaps[1] != "";
    } else {
      assert rest == g;
    }
    forall k | 0 <= k < |Show(x) + g| ensures s[p + k] == (Show(x) + g)[k] {
      if k >= |Show(x)| { assert s[q + (k - |Show(x)|)] == g[k - |Show(x)|]; }
    }
  }

  lemma {:induction false} NoNul(ts: seq<Tok>, gaps: seq<string>)
    requires Spaced(ts, gaps)
    ensures '\0' !in Spell(ts, gaps)
    decreases |ts|
  {
    if ts == [] {
      assert Blank(gaps[0]);
    } else {
      SpacedRest(ts, gaps);
      NoNul(ts[1..], gaps[1..]);
      assert Blank(gaps[0]) && Writable(ts[0]);
      if ts[0].Word? { assert '\0' !in ts[0].w; }
    }
  }

  /** However tokens are spaced, the shell reads them. */
  lemma LexSpelled(ts: seq<Tok>, gaps: seq<string>)
    requires Spaced(ts, gaps)
    ensures Lex(Spell(ts, gaps), 0) == ts && '\0' !in Spell(ts, gaps)
  {
    var s := Spell(ts, gaps);
    NoNul(ts, gaps);
    LexFrom(s, 0, ts, gaps);
    SameFrom(s, 0);
    SkipTwice(s, 0);
    ReadsAll(s, SkipSpace(s, 0), ts);
  }

  // ----- printing

  function WordToks(ws: seq<string>): seq<Tok> { seq(|ws|, k requires 0 <= k < |ws| => Word(ws[k])) }

  function RedirToks(to: Redirect<string>): seq<Tok> { [Sym(if to.output then '>' else '<'), Word(to.file)] }

  // A tree with parentheses only where the grammar needs them.

  function LineToks(t: Cmd<string>): seq<Tok>
    decreases t, 3
  {
    if t.List? then JobToks(t.left) + ([Sym(';')] + LineToks(t.right)) else JobToks(t)
  }

  function JobToks(t: Cmd<string>): seq<Tok>
    decreases t, 2
  {
    if t.Back? then JobToks(t.cmd) + [Sym('&')] else PipeToks(t)
  }

  function PipeToks(t: Cmd<string>): seq<Tok>
    decreases t, 1
  {
    if t.Pipe? then ExecToks(t.left) + ([Sym('|')] + PipeToks(t.right)) else ExecToks(t)
  }

  function ExecToks(t: Cmd<string>): seq<Tok>
    decreases t, 0
  {
    match t
    case Exec(ws) => WordToks(ws)
    case Redir(d, to) => ExecToks(d) + RedirToks(to)
    case Pipe(l, r) => [Sym('(')] + (ExecToks(l) + ([Sym('|')] + PipeToks(r))) + [Sym(')')]
    case List(l, r) => [Sym('(')] + (JobToks(l) + ([Sym(';')] + LineToks(r))) + [Sym(')')]
    case Back(d) => [Sym('(')] + (JobToks(d) + [Sym('&')]) + [Sym(')')]
  }

  /** At most nine words to a command. */
  predicate Printable(t: Cmd<string>) {
    match t
    case Exec(ws) => |ws| <= 9
    case Redir(d, to) => Printable(d)
    case Pipe(l, r) => Printable(l) && Printable(r)
    case List(l, r) => Printable(l) && Printable(r)
    case Back(d) => Printable(d)
  }

  lemma {:induction false} WordToksOk(ws: seq<string>)
    ensures IsArgs(WordToks(ws), ws, [])
  {
    if ws != [] {
      WordToksOk(ws[1..]);
      assert WordToks(ws)[1..] == WordToks(ws[1..]);
    }
  }

  lemma {:induction false} RedirsAppend(ts: seq<Tok>, rs: seq<Redirect<string>>, to: Redirect<string>)
    requires IsRedirs(ts, rs)
    ensures IsRedirs(ts + RedirToks(to), rs + [to])
    decreases |ts|
  {
    var x := RedirToks(to);
    if ts == [] {
      assert ts + x == x && rs + [to] == [to] && x[2..] == [] && [to][1..] == [];
    } else {
      RedirsAppend(ts[2..], rs[1..], to);
      assert (ts + x)[2..] == ts[2..] + x && (rs + [to])[1..] == rs[1..] + [to];
    }
  }

  lemma {:induction false} ArgsAppend(ts: seq<Tok>, ws: seq<string>, rs: seq<Redirect<string>>, to: Redirect<string>)
    requires IsArgs(ts, ws, rs)
    ensures IsArgs(ts + RedirToks(to), ws, rs + [to])
    decreases |ts|
  {
    var x := RedirToks(to);
    if ts == [] {
      assert ts + x == x && rs + [to] == [to] && x[2..] == [] && [to][1..] == [];
    } else if ts[0].Word? {
      ArgsAppend(ts[1..], ws[1..], rs, to);
      assert (ts + x)[1..] == ts[1..] + x;
    } else {
      ArgsAppend(ts[2..], ws, rs[1..], to);
      assert (ts + x)[2..] == ts[2..] + x && (rs + [to])[1..] == rs[1..] + [to];
    }
  }

  /** A command may be followed by one more redirection. */
  lemma ExecAppend(ts: seq<Tok>, t: Cmd<string>, to: Redirect<string>)
    requires IsExec(ts, t)
    ensures IsExec(ts + RedirToks(to), Redir(t, to))
  {
    if k: nat, d, rs :| BlockParts(ts, t, k, d, rs) {
      BlockAppend(ts, t, to, k, d, rs);
    } else {
      var ws, rs :| PlainParts(ts, t, ws, rs);
      PlainAppend(ts, t, to, ws, rs);
    }
  }

  lemma BlockAppend(ts: seq<Tok>, t: Cmd<string>, to: Redirect<string>,
          k: nat, d: Cmd<string>, rs: seq<Redirect<string>>)
    requires BlockParts(ts, t, k, d, rs)
    ensures IsExec(ts + RedirToks(to), Redir(t, to))
  {
    var ts' := ts + RedirToks(to);
    RedirsAppend(ts[k + 1..], rs, to);
    assert ts'[1..k] == ts[1..k] && ts'[k + 1..] == ts[k + 1..] + RedirToks(to);
    assert (rs + [to])[..|rs + [to]| - 1] == rs;
    assert BlockParts(ts', Redir(t, to), k, d, rs + [to]);
  }

  lemma PlainAppend(ts: seq<Tok>, t: Cmd<string>, to: Redirect<string>, ws: seq<string>, rs: seq<Redirect<string>>)
    requires PlainParts(ts, t, ws, rs)
    ensures IsExec(ts + RedirToks(to), Redir(t, to))
  {
    ArgsAppend(ts, ws, rs, to);
    assert (rs + [to])[..|rs + [to]| - 1] == rs;
    assert PlainParts(ts + RedirToks(to), Redir(t, to), ws, rs + [to]);
  }

  lemma InParentheses(ts: seq<Tok>, t: Cmd<string>)
    requires IsLine(ts, t)
    ensures IsExec([Sym('(')] + ts + [Sym(')')], t)
  {
    var ts' := [Sym('(')] + ts + [Sym(')')];
    assert ts'[1..|ts| + 1] == ts && ts'[|ts| + 2..] == [];
    assert BlockParts(ts', t, |ts| + 1, t, []);
  }

  lemma {:induction false} LineToksOk(t: Cmd<string>)
    requires Printable(t)
    ensures IsLine(LineToks(t), t)
    decreases t, 3
  {
    if t.List? {
      JobToksOk(t.left);
      LineToksOk(t.right);
      var a, b, ts := JobToks(t.left), LineToks(t.right), LineToks(t);
      assert ts[..|a|] == a && ts[|a| + 1..] == b;
      assert LineParts(ts, t, |a|);
    } else {
      JobToksOk(t);
    }
  }

  lemma {:induction false} JobToksOk(t: Cmd<string>)
    requires Printable(t)
    ensures IsJob(JobToks(t), t)
    decreases t, 2
  {
    if t.Back? {
      JobToksOk(t.cmd);
      var ts := JobToks(t);
      assert ts[..|ts| - 1] == JobToks(t.cmd);
      assert JobParts(ts, t);
    } else {
      PipeToksOk(t);
    }
  }

  lemma {:induction false} PipeToksOk(t: Cmd<string>)
    requires Printable(t)
    ensures IsPipe(PipeToks(t), t)
    decreases t, 1
  {
    if t.Pipe? {
      ExecToksOk(t.left);
      PipeToksOk(t.right);
      var a, b, ts := ExecToks(t.left), PipeToks(t.right), PipeToks(t);
      assert ts[..|a|] == a && ts[|a| + 1..] == b;
      assert PipeParts(ts, t, |a|);
    } else {
      ExecToksOk(t);
    }
  }

  lemma {:induction false} ExecToksOk(t: Cmd<string>)
    requires Printable(t)
    ensures IsExec(ExecToks(t), t)
    decreases t, 0
  {
    match t
    case Exec(ws) =>
      WordToksOk(ws);
      assert PlainParts(ExecToks(t), t, ws, []);
    case Redir(d, to) =>
      ExecToksOk(d);
      ExecAppend(ExecToks(d), d, to);
    case Pipe(l, r) =>
      ExecToksOk(l);
      PipeToksOk(r);
      var a, b := ExecToks(l), PipeToks(r);
      var ts := a + ([Sym('|')] + b);
      assert ts[..|a|] == a && ts[|a| + 1..] == b;
      assert PipeParts(ts, t, |a|);
      InParentheses(ts, t);
    case List(l, r) =>
      JobToksOk(l);
      LineToksOk(r);
      var a, b := JobToks(l), LineToks(r);
      var ts := a + ([Sym(';')] + b);
      assert ts[..|a|] == a && ts[|a| + 1..] == b;
      assert LineParts(ts, t, |a|);
      InParentheses(ts, t);
    case Back(d) =>
      JobToksOk(d);
      var ts := JobToks(d) + [Sym('&')];
      assert ts[..|ts| - 1] == JobToks(d);
      assert JobParts(ts, t);
      InParentheses(ts, t);
  }

  /** A tree printed with parentheses only where they are needed, and any white space, parses to
      itself. */
  lemma RoundTrip(t: Cmd<string>, gaps: seq<string>)
    requires Printable(t) && Spaced(LineToks(t), gaps)
    ensures var s := Spell(LineToks(t), gaps); ParseCmd(s).Ok? && Text(s, ParseCmd(s).cmd) == t
  {
    LineToksOk(t);
    LexSpelled(LineToks(t), gaps);
    ParsesExactly(Spell(LineToks(t), gaps), t);
  }

  /** Commands joined by `|` nest to the right. */
  function Pipeline(cmds: seq<seq<string>>): Cmd<string>
    requires cmds != []
  {
    if |cmds| == 1 then Exec(cmds[0]) else Pipe(Exec(cmds[0]), Pipeline(cmds[1..]))
  }

  function Joined(cmds: seq<seq<string>>): seq<Tok>
    requires cmds != []
  {
    if |cmds| == 1 then WordToks(cmds[0]) else WordToks(cmds[0]) + ([Sym('|')] + Joined(cmds[1..]))
  }

  lemma {:induction false} PipelineToks(cmds: seq<seq<string>>)
    requires cmds != [] && forall k :: 0 <= k < |cmds| ==> |cmds[k]| <= 9
    ensures LineToks(Pipeline(cmds)) == Joined(cmds) && PipeToks(Pipeline(cmds)) == Joined(cmds)
    ensures Printable(Pipeline(cmds))
  {
    var t, head := Pipeline(cmds), Exec(cmds[0]);
    assert ExecToks(head) == WordToks(cmds[0]);
    if |cmds| > 1 {
      PipelineToks(cmds[1..]);
      assert t == Pipe(head, Pipeline(cmds[1..]));
    } else {
      assert PipeToks(head) == ExecToks(head);
    }
    assert LineToks(t) == JobToks(t) && JobToks(t) == PipeToks(t);
  }

  /** A pipeline of any length, without parentheses. */
  lemma PipelineParses(cmds: seq<seq<string>>, gaps: seq<string>)
    requires cmds != [] && (forall k :: 0 <= k < |cmds| ==> |cmds[k]| <= 9) && Spaced(Joined(cmds), gaps)
    ensures var s := Spell(Joined(cmds), gaps); ParseCmd(s).Ok? && Text(s, ParseCmd(s).cmd) == Pipeline(cmds)
  {
    PipelineToks(cmds);
    RoundTrip(Pipeline(cmds), gaps);
  }

  // ----- the words of a parsed command

  ghost predicate RedirsAt(s: string, rs: seq<Redirect<Slice>>) {
    forall k :: 0 <= k < |rs| ==> WordAt(s, rs[k].file)
  }

  ghost predicate SlicesAt(s: string, args: seq<Slice>) {
    forall k :: 0 <= k < |args| ==> WordAt(s, args[k])
  }

  /** Every word of the tree is a maximal word of the text. */
  ghost predicate WordsAt(s: string, c: Cmd<Slice>) {
    match c
    case Exec(args) => SlicesAt(s, args)
    case Redir(d, to) => WordsAt(s, d) && WordAt(s, to.file)
    case Pipe(l, r) => WordsAt(s, l) && WordsAt(s, r)
    case List(l, r) => WordsAt(s, l) && WordsAt(s, r)
    case Back(d) => WordsAt(s, d)
  }

  lemma {:induction false} WrapWords(s: string, c: Cmd<Slice>, rs: seq<Redirect<Slice>>)
    requires WordsAt(s, c) && RedirsAt(s, rs)
    ensures WordsAt(s, Wrap(c, rs))
    decreases |rs|
  {
    if rs != [] { WrapWords(s, c, rs[..|rs| - 1]); }
  }

  lemma {:induction false} RedirWords(s: string, i: nat, acc: seq<Redirect<Slice>>)
    requires i <= |s| && RedirsAt(s, acc)
    ensures ParseRedirs(s, i, acc).RedirOk? ==> RedirsAt(s, ParseRedirs(s, i, acc).redirs)
    decreases |s| - i
  {
    if Peek(s, i, {'<', '>'}) {
      TokenAdvances(s, i);
      TokenAdvances(s, Token(s, i).next);
      var f := Token(s, Token(s, i).next);
      if f.tok == 'a' { RedirWords(s, f.next, acc + [Redirect(f.word, Token(s, i).tok != '<')]); }
    }
  }

  lemma {:induction false} ArgWords(s: string, i: nat, args: seq<Slice>, rs: seq<Redirect<Slice>>)
    requires i <= |s| && SlicesAt(s, args) && RedirsAt(s, rs)
    ensures ParseArgs(s, i, args, rs).Ok? ==> WordsAt(s, ParseArgs(s, i, args, rs).cmd)
    decreases |s| - i
  {
    WrapWords(s, Exec(args), rs);
    TokenAdvances(s, i);
    var t := Token(s, i);
    if !Peek(s, i, {'|', ')', '&', ';'}) && t.tok == 'a' && |args| + 1 < 10 {
      RedirWords(s, t.next, rs);
      var r := ParseRedirs(s, t.next, rs);
      if r.RedirOk? { ArgWords(s, r.next, args + [t.word], r.redirs); }
    }
  }

  lemma {:induction false} ExecWords(s: string, i: nat)
    requires i <= |s|
    ensures ParseExec(s, i).Ok? ==> WordsAt(s, ParseExec(s, i).cmd)
    decreases |s| - i, 1
  {
    if Peek(s, i, {'('}) {
      BlockWords(s, i);
    } else {
      RedirWords(s, i, []);
      var r := ParseRedirs(s, i, []);
      if r.RedirOk? { ArgWords(s, r.next, [], r.redirs); }
    }
  }

  lemma {:induction false} BlockWords(s: string, i: nat)
    requires i <= |s| && Peek(s, i, {'('})
    ensures ParseBlock(s, i).Ok? ==> WordsAt(s, ParseBlock(s, i).cmd)
    decreases |s| - i, 0
  {
    TokenAdvances(s, i);
    LineWords(s, Token(s, i).next);
    var l := ParseLine(s, Token(s, i).next);
    if l.Ok? {
      TokenAdvances(s, l.next);
      RedirWords(s, Token(s, l.next).next, []);
      var r := ParseRedirs(s, Token(s, l.next).next, []);
      if r.RedirOk? { WrapWords(s, l.cmd, r.redirs); }
    }
  }

  lemma {:induction false} PipeWords(s: string, i: nat)
    requires i <= |s|
    ensures ParsePipe(s, i).Ok? ==> WordsAt(s, ParsePipe(s, i).cmd)
    decreases |s| - i, 2
  {
    ExecWords(s, i);
    var e := ParseExec(s, i);
    if e.Ok? && Peek(s, e.next, {'|'}) {
      TokenAdvances(s, e.next);
      PipeWords(s, Token(s, e.next).next);
    }
  }

  lemma {:induction false} BackWords(s: string, i: nat, c: Cmd<Slice>)
    requires i <= |s| && WordsAt(s, c)
    ensures WordsAt(s, ParseBack(s, i, c).cmd)
    decreases |s| - i
  {
    if Peek(s, i, {'&'}) {
      TokenAdvances(s, i);
      BackWords(s, Token(s, i).next, Back(c));
    }
  }

  lemma {:induction false} LineWords(s: string, i: nat)
    requires i <= |s|
    ensures ParseLine(s, i).Ok? ==> WordsAt(s, ParseLine(s, i).cmd)
    decreases |s| - i, 3
  {
    PipeWords(s, i);
    var p := ParsePipe(s, i);
    if p.Ok? {
      BackWords(s, p.next, p.cmd);
      var b := ParseBack(s, p.next, p.cmd);
      if Peek(s, b.next, {';'}) {
        TokenAdvances(s, b.next);
        LineWords(s, Token(s, b.next).next);
      }
    }
  }

  // ----- terminating the words

  /** Where nulterminate writes. */
  ghost function Ends(c: Cmd<Slice>): set<nat> {
    match c
    case Exec(args) => set k | 0 <= k < |args| :: args[k].eq
    case Redir(d, to) => Ends(d) + {to.file.eq}
    case Pipe(l, r) => Ends(l) + Ends(r)
    case List(l, r) => Ends(l) + Ends(r)
    case Back(d) => Ends(d)
  }

  ghost predicate HasWord(c: Cmd<Slice>, w: Slice) {
    match c
    case Exec(args) => w in args
    case Redir(d, to) => HasWord(d, w) || w == to.file
    case Pipe(l, r) => HasWord(l, w) || HasWord(r, w)
    case List(l, r) => HasWord(l, w) || HasWord(r, w)
    case Back(d) => HasWord(d, w)
  }

  /** The C string that starts at `i`. */
  function CString(b: seq<char>, i: nat): string
    decreases |b| - i
  {
    if i >= |b| || b[i] == '\0' then "" else [b[i]] + CString(b, i + 1)
  }

  lemma {:induction false} EndsAreNoWordChars(s: string, c: Cmd<Slice>, e: nat)
    requires WordsAt(s, c) && e in Ends(c)
    ensures e <= |s| && (e < |s| ==> !IsWordChar(s[e]))
  {
    match c
    case Exec(args) =>
    case Redir(d, to) => if e in Ends(d) { EndsAreNoWordChars(s, d, e); }
    case Pipe(l, r) => if e in Ends(l) { EndsAreNoWordChars(s, l, e); } else { EndsAreNoWordChars(s, r, e); }
    case List(l, r) => if e in Ends(l) { EndsAreNoWordChars(s, l, e); } else { EndsAreNoWordChars(s, r, e); }
    case Back(d) => EndsAreNoWordChars(s, d, e);
  }

  lemma {:induction false} WordHasEnd(s: string, c: Cmd<Slice>, w: Slice)
    requires WordsAt(s, c) && HasWord(c, w)
    ensures WordAt(s, w) && w.eq in Ends(c)
  {
    match c
    case Exec(args) =>
    case Redir(d, to) => if HasWord(d, w) { WordHasEnd(s, d, w); }
    case Pipe(l, r) => if HasWord(l, w) { WordHasEnd(s, l, w); } else { WordHasEnd(s, r, w); }
    case List(l, r) => if HasWord(l, w) { WordHasEnd(s, l, w); } else { WordHasEnd(s, r, w); }
    case Back(d) => WordHasEnd(s, d, w);
  }

  lemma {:induction false} CStringIs(b: seq<char>, i: nat, j: nat)
    requires i <= j < |b| && b[j] == '\0' && forall k :: i <= k < j ==> b[k] != '\0'
    ensures CString(b, i) == b[i..j]
    decreases j - i
  {
    if i < j {
      CStringIs(b, i + 1, j);
      assert b[i..j] == [b[i]] + b[i + 1..j];
    }
  }

  /** The text with its NUL, once nulterminate wrote at all ends. */
  ghost predicate Terminated(s: string, c: Cmd<Slice>, b: seq<char>) {
    |b| == |s| + 1 && forall k :: 0 <= k <= |s| ==> b[k] == if k in Ends(c) then '\0' else CharAt(s, k)
  }

  /** After nulterminate every word of the tree, and no more, is the C string at its start. */
  lemma WordsTerminated(s: string, c: Cmd<Slice>, b: seq<char>, w: Slice)
    requires WordsAt(s, c) && HasWord(c, w) && Terminated(s, c, b) && '\0' !in s
    ensures WordAt(s, w) && CString(b, w.q) == s[w.q..w.eq]
  {
    WordHasEnd(s, c, w);
    forall k | w.q <= k < w.eq ensures b[k] == s[k] {
      if k in Ends(c) { EndsAreNoWordChars(s, c, k); }
    }
    CStringIs(b, w.q, w.eq);
    assert b[w.q..w.eq] == s[w.q..w.eq];
  }

  // ----- the shell's own loops

  method SkipBlanks(s: string, from: nat) returns (i: nat)
    requires from <= |s|
    ensures i == SkipSpace(s, from)
  {
    i := from;
    while i < |s| && IsSpace(s[i])
      invariant from <= i <= |s| && SkipSpace(s, from) == SkipSpace(s, i)
    {
      i := i + 1;
    }
  }

  /** gettoken. */
  method GetToken(s: string, from: nat) returns (t: Lexeme)
    requires from <= |s|
    ensures t == Token(s, from)
  {
    var i := SkipBlanks(s, from);
    var q, tok := i, CharAt(s, i);
    match tok
    {
      case '\0' =>
      case '|' | '(' | ')' | ';' | '&' | '<' =>
        i := i + 1;
      case '>' =>
        i := i + 1;
        if CharAt(s, i) == '>' {
          tok := '+';
          i := i + 1;
        }
      case _ =>
        tok := 'a';
        while i < |s| && !IsSpace(s[i]) && !IsSymbol(s[i])
          invariant q <= i <= |s| && WordEnd(s, q) == WordEnd(s, i)
        {
          i := i + 1;
        }
    }
    var eq := i;
    i := SkipBlanks(s, i);
    t := Lexeme(tok, Slice(q, eq), i);
  }

  /** peek. */
  method PeekToken(s: string, from: nat, toks: set<char>) returns (found: bool, i: nat)
    requires from <= |s|
    ensures found == Peek(s, from, toks) && i == SkipSpace(s, from)
  {
    i := SkipBlanks(s, from);
    found := CharAt(s, i) != '\0' && CharAt(s, i) in toks;
  }

  /** White space that peek already skipped makes no difference. */
  lemma PeekedSame(s: string, i: nat)
    requires i <= |s|
    ensures SkipSpace(s, SkipSpace(s, i)) == SkipSpace(s, i) && Token(s, SkipSpace(s, i)) == Token(s, i)
  {
  }

  /** parseredirs. */
  method ReadRedirs(s: string, from: nat, redirs: seq<Redirect<Slice>>) returns (r: RedirParse)
    requires from <= |s|
    ensures r == ParseRedirs(s, from, redirs)
  {
    var acc, at := redirs, from;
    var more, i := PeekToken(s, at, {'<', '>'});
    while more
      invariant at <= |s| && ParseRedirs(s, from, redirs) == ParseRedirs(s, at, acc)
      invariant more == Peek(s, at, {'<', '>'}) && i == SkipSpace(s, at)
      decreases |s| - at
    {
      PeekedSame(s, at);
      TokenAdvances(s, at);
      var t := GetToken(s, i);
      TokenAdvances(s, t.next);
      var f := GetToken(s, t.next);
      if f.tok != 'a' { return RedirPanic; }
      acc, at := acc + [Redirect(f.word, t.tok != '<')], f.next;
      more, i := PeekToken(s, at, {'<', '>'});
    }
    return RedirOk(acc, i);
  }

  /** parseexec. */
  method ReadExec(s: string, from: nat) returns (r: Parse)
    requires from <= |s|
    ensures r == ParseExec(s, from)
    decreases |s| - from, 1
  {
    var block, i := PeekToken(s, from, {'('});
    if block {
      r := ReadBlock(s, from);
      return;
    }
    var redirs := ReadRedirs(s, from, []);
    if redirs.RedirPanic? { return Panic; }
    r := ReadArgs(s, redirs.next, redirs.redirs);
  }

  /** parseexec's loop. */
  method ReadArgs(s: string, from: nat, first: seq<Redirect<Slice>>) returns (r: Parse)
    requires from <= |s|
    ensures r == ParseArgs(s, from, [], first)
  {
    var args: seq<Slice>, redirs, at := [], first, from;
    var stop, i := PeekToken(s, at, {'|', ')', '&', ';'});
    while !stop
      invariant at <= |s| && ParseArgs(s, from, [], first) == ParseArgs(s, at, args, redirs)
      invariant stop == Peek(s, at, {'|', ')', '&', ';'}) && i == SkipSpace(s, at)
      decreases |s| - at
    {
      PeekedSame(s, at);
      TokenAdvances(s, at);
      var t := GetToken(s, i);
      if t.tok == '\0' { return Ok(Wrap(Exec(args), redirs), t.next); }
      if t.tok != 'a' { return Panic; }
      args := args + [t.word];
      if |args| >= 10 { return Panic; }
      var more := ReadRedirs(s, t.next, redirs);
      if more.RedirPanic? { return Panic; }
      redirs, at := more.redirs, more.next;
      stop, i := PeekToken(s, at, {'|', ')', '&', ';'});
    }
    return Ok(Wrap(Exec(args), redirs), i);
  }

  /** parseblock. */
  method ReadBlock(s: string, from: nat) returns (r: Parse)
    requires from <= |s| && Peek(s, from, {'('})
    ensures r == ParseBlock(s, from)
    decreases |s| - from, 0
  {
    TokenAdvances(s, from);
    var t := GetToken(s, from);
    var line := ReadLine(s, t.next);
    if line.Panic? { return Panic; }
    var closed, i := PeekToken(s, line.next, {')'});
    if !closed { return Panic; }
    PeekedSame(s, line.next);
    TokenAdvances(s, line.next);
    t := GetToken(s, i);
    var redirs := ReadRedirs(s, t.next, []);
    if redirs.RedirPanic? { return Panic; }
    return Ok(Wrap(line.cmd, redirs.redirs), redirs.next);
  }

  /** parsepipe. */
  method ReadPipe(s: string, from: nat) returns (r: Parse)
    requires from <= |s|
    ensures r == ParsePipe(s, from)
    decreases |s| - from, 2
  {
    var left := ReadExec(s, from);
    if left.Panic? { return Panic; }
    var piped, i := PeekToken(s, left.next, {'|'});
    if !piped { return Ok(left.cmd, i); }
    PeekedSame(s, left.next);
    TokenAdvances(s, left.next);
    var t := GetToken(s, i);
    var right := ReadPipe(s, t.next);
    if right.Panic? { return Panic; }
    return Ok(Pipe(left.cmd, right.cmd), right.next);
  }

  /** parseline's loop over `&`. */
  method ReadBack(s: string, from: nat, first: Cmd<Slice>) returns (r: Parse)
    requires from <= |s|
    ensures r == ParseBack(s, from, first)
  {
    var cmd, at := first, from;
    var back, i := PeekToken(s, at, {'&'});
    while back
      invariant at <= |s| && ParseBack(s, from, first) == ParseBack(s, at, cmd)
      invariant back == Peek(s, at, {'&'}) && i == SkipSpace(s, at)
      decreases |s| - at
    {
      PeekedSame(s, at);
      TokenAdvances(s, at);
      var t := GetToken(s, i);
      cmd, at := Back(cmd), t.next;
      back, i := PeekToken(s, at, {'&'});
    }
    return Ok(cmd, i);
  }

  /** parseline. */
  method ReadLine(s: string, from: nat) returns (r: Parse)
    requires from <= |s|
    ensures r == ParseLine(s, from)
    decreases |s| - from, 3
  {
    var first := ReadPipe(s, from);
    if first.Panic? { return Panic; }
    var b := ReadBack(s, first.next, first.cmd);
    var more, i := PeekToken(s, b.next, {';'});
    if !more { return Ok(b.cmd, i); }
    PeekedSame(s, b.next);
    TokenAdvances(s, b.next);
    var t := GetToken(s, i);
    var rest := ReadLine(s, t.next);
    if rest.Panic? { return Panic; }
    return Ok(List(b.cmd, rest.cmd), rest.next);
  }

  /** nulterminate, in the buffer that holds the text and its NUL. */
  method NulTerminate(b: array<char>, s: string, c: Cmd<Slice>)
    requires b.Length == |s| + 1 && WordsAt(s, c)
    modifies b
    ensures forall k :: 0 <= k < b.Length ==> b[k] == if k in Ends(c) then '\0' else old(b[k])
    decreases c
  {
    match c
    case Exec(args) =>
      for i := 0 to |args|
        invariant forall k :: 0 <= k < b.Length ==> b[k] == if EndBefore(args, i, k) then '\0' else old(b[k])
      {
        b[args[i].eq] := '\0';
      }
      assert forall k :: k in Ends(c) <==> EndBefore(args, |args|, k);
    case Redir(d, to) =>
      NulTerminate(b, s, d);
      b[to.file.eq] := '\0';
    case Pipe(l, r) =>
      NulTerminate(b, s, l);
      NulTerminate(b, s, r);
    case List(l, r) =>
      NulTerminate(b, s, l);
      NulTerminate(b, s, r);
    case Back(d) =>
      NulTerminate(b, s, d);
  }

  predicate EndBefore(args: seq<Slice>, n: nat, k: nat)
    requires n <= |args|
  {
    exists i :: 0 <= i < n && args[i].eq == k
  }

  /** parsecmd: the tree, with its words terminated in the buffer. */
  method ReadCmd(b: array<char>, s: string) returns (r: Parse)
    requires '\0' !in s && b[..] == s + ['\0']
    modifies b
    ensures r == ParseCmd(s) && forall t :: IsLine(Lex(s, 0), t) <==> r.Ok? && Text(s, r.cmd) == t
    ensures r.Ok? ==> Terminated(s, r.cmd, b[..]) && WordsAt(s, r.cmd)
    ensures r.Ok? ==> forall w :: HasWord(r.cmd, w) ==> WordAt(s, w) && CString(b[..], w.q) == s[w.q..w.eq]
    ensures r.Panic? ==> b[..] == old(b[..])
  {
    forall t ensures IsLine(Lex(s, 0), t) <==> ParseCmd(s).Ok? && Text(s, ParseCmd(s).cmd) == t { ParsesExactly(s, t); }
    var line := ReadLine(s, 0);
    if line.Panic? { return Panic; }
    var _, i := PeekToken(s, line.next, {});
    if i != |s| { return Panic; }
    LineWords(s, 0);
    assert forall k :: 0 <= k < b.Length ==> b[k] == b[..][k] == CharAt(s, k);
    NulTerminate(b, s, line.cmd);
    r := Ok(line.cmd, |s|);
    assert Terminated(s, r.cmd, b[..]);
    forall w | HasWord(r.cmd, w) ensures WordAt(s, w) && CString(b[..], w.q) == s[w.q..w.eq] {
      WordsTerminated(s, r.cmd, b[..], w);
    }
  }
}
