/** The tokenizer (lexer/lexer.cpp): maximal munch over the transition table of an automaton. */
module Lexing {
  import opened Wrappers

  datatype DFA = DFA(
    start: int,
    accept: set<int>,
    transitions: map<int, map<char, int>>,
    acceptToken: map<int, int>)

  /** Positions count lines and columns from one. */
  datatype Position = Position(line: nat, column: nat)

  datatype Token = Token(id: int, lexeme: string, start: Position, end: Position)

  datatype Result = Tokens(tokens: seq<Token>) | LexicalError(at: Position, unexpected: char)

  // ---------- what the automaton accepts ----------

  function Next(dfa: DFA, state: int, c: char): Option<int> {
    if state in dfa.transitions && c in dfa.transitions[state] then Some(dfa.transitions[state][c]) else None
  }

  /** The state after reading `s`, if the automaton does not get stuck. */
  function Run(dfa: DFA, s: string): Option<int> {
    if s == "" then Some(dfa.start)
    else
      var state :- Run(dfa, s[..|s| - 1]);
      Next(dfa, state, s[|s| - 1])
  }

  /** The automaton accepts `s`. An empty lexeme is never accepted, even if the start state is. */
  predicate Accepts(dfa: DFA, s: string) {
    s != "" && Run(dfa, s).Some? && Run(dfa, s).value in dfa.accept
  }

  /** A path through the transition table from the start state that reads `s`. */
  ghost predicate ReadsAlong(dfa: DFA, s: string, states: seq<int>) {
    && |states| == |s| + 1 && states[0] == dfa.start
    && forall i | 0 <= i < |s| ::
         states[i] in dfa.transitions && s[i] in dfa.transitions[states[i]]
         && dfa.transitions[states[i]][s[i]] == states[i + 1]
  }

  ghost predicate Leads(dfa: DFA, s: string, state: int) {
    exists states :: ReadsAlong(dfa, s, states) && states[|s|] == state
  }

  /** The automaton reads `s` exactly along one path, which leads to the state it answers. */
  lemma {:induction false} RunExactly(dfa: DFA, s: string, state: int)
    ensures Run(dfa, s) == Some(state) <==> Leads(dfa, s, state)
    decreases s
  {
    if s == "" {
      assert ReadsAlong(dfa, s, [dfa.start]);
    } else {
      var t := s[..|s| - 1];
      if Run(dfa, s) == Some(state) {
        var before := Run(dfa, t).value;
        RunExactly(dfa, t, before);
        var states :| ReadsAlong(dfa, t, states) && states[|t|] == before;
        assert ReadsAlong(dfa, s, states + [state]);
      }
      if Leads(dfa, s, state) {
        var states :| ReadsAlong(dfa, s, states) && states[|s|] == state;
        assert ReadsAlong(dfa, t, states[..|s|]) && states[..|s|][|t|] == states[|t|];
        RunExactly(dfa, t, states[|t|]);
      }
    }
  }

  /** A string is accepted exactly when it is not empty and some path that reads it ends in an accepting
      state. */
  lemma AcceptsExactly(dfa: DFA, s: string)
    ensures Accepts(dfa, s) <==> s != "" && exists state | state in dfa.accept :: Leads(dfa, s, state)
  {
    hide Run, Leads;
    if Accepts(dfa, s) {
      RunExactly(dfa, s, Run(dfa, s).value);
    }
    forall state | state in dfa.accept && Leads(dfa, s, state) ensures s != "" ==> Accepts(dfa, s) {
      RunExactly(dfa, s, state);
    }
  }

  /** The length of the longest accepted prefix of `s` up to `n`, or zero if there is none. */
  function Longest(dfa: DFA, s: string, n: nat): (k: nat)
    requires n <= |s|
    ensures k <= n && (k > 0 ==> Accepts(dfa, s[..k]))
    ensures forall j | k < j <= n :: !Accepts(dfa, s[..j])
  {
    if n == 0 || Accepts(dfa, s[..n]) then n else Longest(dfa, s, n - 1)
  }

  lemma {:induction false} StuckForever(dfa: DFA, s: string, n: nat, j: nat)
    requires n <= j <= |s| && Run(dfa, s[..n]).None?
    ensures Run(dfa, s[..j]).None?
    decreases j
  {
    if n < j {
      StuckForever(dfa, s, n, j - 1);
      assert s[..j][..j - 1] == s[..j - 1];
    }
  }

  lemma {:induction false} LongestStops(dfa: DFA, s: string, n: nat, m: nat)
    requires n <= m <= |s| && forall j | n < j <= m :: !Accepts(dfa, s[..j])
    ensures Longest(dfa, s, m) == Longest(dfa, s, n)
    decreases m
  {
    if n < m {
      LongestStops(dfa, s, n, m - 1);
    }
  }

  lemma ReadNothing(dfa: DFA, s: string)
    ensures Run(dfa, s[..0]) == Some(dfa.start) && Longest(dfa, s, 0) == 0
  {
  }

  /** After `k` characters that lead to `state`: one more leads on, or nothing longer is accepted. */
  lemma ReadNext(dfa: DFA, s: string, k: nat, state: int)
    requires k < |s| && Run(dfa, s[..k]) == Some(state)
    ensures Run(dfa, s[..k + 1]) == Next(dfa, state, s[k])
    ensures match Next(dfa, state, s[k])
            case None => Longest(dfa, s, |s|) == Longest(dfa, s, k)
            case Some(next) => Longest(dfa, s, k + 1) == if next in dfa.accept then k + 1 else Longest(dfa, s, k)
  {
    assert s[..k + 1][..k] == s[..k] && s[..k + 1][k] == s[k];
    if Next(dfa, state, s[k]).None? {
      forall j | k < j <= |s| ensures !Accepts(dfa, s[..j]) {
        StuckForever(dfa, s, k + 1, j);
      }
      LongestStops(dfa, s, k, |s|);
    }
  }

  // ---------- the pieces of an input ----------

  /** A maximal-munch piece: where it starts, how long it is. */
  datatype Piece = Piece(at: nat, length: nat)

  /** The pieces from `pos` on, or the place where no piece can be cut off. */
  datatype Cut = Whole(pieces: seq<Piece>) | Broken(pieces: seq<Piece>, at: nat)

  function CutFrom(dfa: DFA, input: string, pos: nat): Cut
    requires pos <= |input|
    decreases |input| - pos
  {
    if pos == |input| then Whole([])
    else
      var n := Longest(dfa, input[pos..], |input| - pos);
      if n == 0 then Broken([], pos)
      else
        match CutFrom(dfa, input, pos + n)
        case Whole(ps) => Whole([Piece(pos, n)] + ps)
        case Broken(ps, at) => Broken([Piece(pos, n)] + ps, at)
  }

  /** Each piece starts where the one before ends, the first at `pos`, the last ends at `end`. */
  ghost predicate Tiles(pieces: seq<Piece>, pos: nat, end: nat)
    decreases pieces
  {
    if pieces == [] then pos == end
    else pieces[0].at == pos && Tiles(pieces[1..], pos + pieces[0].length, end)
  }

  function Lexeme(input: string, p: Piece): string
    requires p.at + p.length <= |input|
  {
    input[p.at..p.at + p.length]
  }

  function Concat(ss: seq<string>): string {
    if ss == [] then "" else ss[0] + Concat(ss[1..])
  }

  function Lexemes(input: string, pieces: seq<Piece>): seq<string>
    requires forall p | p in pieces :: p.at + p.length <= |input|
  {
    if pieces == [] then [] else [Lexeme(input, pieces[0])] + Lexemes(input, pieces[1..])
  }

  /** A piece is not empty, is accepted, and no longer prefix of the remaining input is accepted. */
  ghost predicate Maximal(dfa: DFA, input: string, p: Piece) {
    && p.length > 0 && p.at + p.length <= |input|
    && Accepts(dfa, Lexeme(input, p))
    && forall n | p.length < n <= |input| - p.at :: !Accepts(dfa, input[p.at..][..n])
  }

  /** No prefix of the input from `pos` on is accepted. */
  ghost predicate NoPiece(dfa: DFA, input: string, pos: nat)
    requires pos <= |input|
  {
    forall n | 0 <= n <= |input| - pos :: !Accepts(dfa, input[pos..][..n])
  }

  /** The pieces are maximal and tile the input up to its end, or up to the first place where there is
      no piece. */
  ghost predicate MaximalCut(dfa: DFA, input: string, pos: nat, c: Cut) {
    && (forall p | p in c.pieces :: Maximal(dfa, input, p))
    && match c
       case Whole(ps) => Tiles(ps, pos, |input|)
       case Broken(ps, at) => at < |input| && Tiles(ps, pos, at) && NoPiece(dfa, input, at)
  }

  lemma {:induction false} CutIsMaximal(dfa: DFA, input: string, pos: nat)
    requires pos <= |input|
    ensures MaximalCut(dfa, input, pos, CutFrom(dfa, input, pos))
    decreases |input| - pos
  {
    hide Run, Longest;
    if pos < |input| {
      var n := Longest(dfa, input[pos..], |input| - pos);
      if n > 0 {
        CutIsMaximal(dfa, input, pos + n);
        var c, rest := CutFrom(dfa, input, pos), CutFrom(dfa, input, pos + n);
        assert c.pieces == [Piece(pos, n)] + rest.pieces;
        assert input[pos..][..n] == Lexeme(input, Piece(pos, n));
        assert Maximal(dfa, input, Piece(pos, n));
      }
    }
  }

  /** There is only one way to cut the input into maximal pieces. */
  lemma {:induction false} CutIsUnique(dfa: DFA, input: string, pieces: seq<Piece>, pos: nat)
    requires pos <= |input| && Tiles(pieces, pos, |input|) && forall p | p in pieces :: Maximal(dfa, input, p)
    ensures CutFrom(dfa, input, pos) == Whole(pieces)
    decreases pieces
  {
    hide Maximal, Longest, CutFrom;
    if pieces == [] {
      CutEnd(dfa, input);
    } else {
      var p, rest := pieces[0], pieces[1..];
      LongestIsMaximal(dfa, input, p);
      CutIsUnique(dfa, input, rest, pos + p.length);
      CutFirst(dfa, input, p, rest);
      assert [p] + rest == pieces;
    }
  }

  lemma CutFirst(dfa: DFA, input: string, p: Piece, rest: seq<Piece>)
    requires p.length > 0 && p.at + p.length <= |input| && Longest(dfa, input[p.at..], |input| - p.at) == p.length
    requires CutFrom(dfa, input, p.at + p.length) == Whole(rest)
    ensures CutFrom(dfa, input, p.at) == Whole([p] + rest)
  {
    hide Longest;
  }

  lemma LongestIsMaximal(dfa: DFA, input: string, p: Piece)
    requires Maximal(dfa, input, p)
    ensures p.length > 0 && p.at + p.length <= |input|
    ensures Longest(dfa, input[p.at..], |input| - p.at) == p.length
  {
    hide Accepts;
    assert input[p.at..][..p.length] == Lexeme(input, p);
  }

  /** The lexemes, skipped ones included, add up to the input. */
  lemma {:induction false} LexemesAddUp(input: string, pieces: seq<Piece>, pos: nat, end: nat)
    requires pos <= end <= |input| && Tiles(pieces, pos, end)
    requires forall p | p in pieces :: p.at + p.length <= |input|
    requires forall p | p in pieces :: p.at + p.length <= end
    ensures Concat(Lexemes(input, pieces)) == input[pos..end]
    decreases pieces
  {
    if pieces != [] {
      var next := pos + pieces[0].length;
      LexemesAddUp(input, pieces[1..], next, end);
      assert input[pos..end] == input[pos..next] + input[next..end];
    }
  }

  // ---------- positions ----------

  function Advance(p: Position, c: char): Position {
    if c == '\n' then Position(p.line + 1, 1) else Position(p.line, p.column + 1)
  }

  /** The position after reading `s` from the beginning of the input. */
  function PositionAfter(s: string): Position {
    if s == "" then Position(1, 1) else Advance(PositionAfter(s[..|s| - 1]), s[|s| - 1])
  }

  /** The line is one more than the number of newlines read; the column counts from the last of them. */
  lemma {:induction false} PositionMeans(s: string)
    ensures PositionAfter(s).line == 1 + Newlines(s)
    ensures 1 <= PositionAfter(s).column <= |s| + 1
    ensures '\n' !in s[|s| + 1 - PositionAfter(s).column..]
    ensures PositionAfter(s).column <= |s| ==> s[|s| - PositionAfter(s).column] == '\n'
    decreases s
  {
    hide PositionAfter, Newlines;
    if s == "" {
      PositionAtStart();
    } else {
      var t, c := s[..|s| - 1], s[|s| - 1];
      PositionMeans(t);
      NextPosition(s);
      if c != '\n' {
        var k := |t| + 1 - PositionAfter(t).column;
        assert s[k..] == t[k..] + [c];
      }
    }
  }

  lemma PositionAtStart()
    ensures PositionAfter("") == Position(1, 1) && Newlines("") == 0
  {
  }

  lemma NextPosition(s: string)
    requires s != ""
    ensures var t, c := s[..|s| - 1], s[|s| - 1];
            PositionAfter(s) == Advance(PositionAfter(t), c) && Newlines(s) == Newlines(t) + if c == '\n' then 1 else 0
  {
  }

  function Newlines(s: string): nat {
    if s == "" then 0 else Newlines(s[..|s| - 1]) + if s[|s| - 1] == '\n' then 1 else 0
  }

  // ---------- tokens ----------

  /** What the lexer needs of its tables: every accepting state has a token, and every token an entry
      in the skip table. State -1 is not used. */
  predicate WellFormed(dfa: DFA, skipTable: seq<bool>) {
    && -1 !in dfa.accept
    && forall s | s in dfa.accept :: s in dfa.acceptToken && 0 <= dfa.acceptToken[s] < |skipTable|
  }

  function TokenId(dfa: DFA, skipTable: seq<bool>, lexeme: string): (id: nat)
    requires WellFormed(dfa, skipTable) && Accepts(dfa, lexeme)
    ensures id < |skipTable|
  {
    var state := Run(dfa, lexeme).value;
    assert state in dfa.accept;
    dfa.acceptToken[state]
  }

  function TokenOf(dfa: DFA, skipTable: seq<bool>, input: string, p: Piece): Token
    requires WellFormed(dfa, skipTable) && p.at + p.length <= |input| && Accepts(dfa, Lexeme(input, p))
  {
    Token(TokenId(dfa, skipTable, Lexeme(input, p)), Lexeme(input, p), PositionAfter(input[..p.at]),
          PositionAfter(input[..p.at + p.length]))
  }

  /** The tokens of the pieces that are not skipped. */
  ghost function TokensOf(dfa: DFA, skipTable: seq<bool>, input: string, pieces: seq<Piece>): seq<Token>
    requires WellFormed(dfa, skipTable) && forall p | p in pieces :: Maximal(dfa, input, p)
  {
    if pieces == [] then []
    else
      var p := pieces[|pieces| - 1];
      assert Maximal(dfa, input, p);
      TokensOf(dfa, skipTable, input, pieces[..|pieces| - 1]) +
      if skipTable[TokenId(dfa, skipTable, Lexeme(input, p))] then [] else [TokenOf(dfa, skipTable, input, p)]
  }

  /** `r` is the answer for an input that is cut up like `cut`. */
  ghost predicate Answers(dfa: DFA, skipTable: seq<bool>, input: string, cut: Cut, r: Result)
    requires WellFormed(dfa, skipTable)
  {
    match cut
    case Whole(ps) =>
      (forall p | p in ps :: Maximal(dfa, input, p)) && r == Tokens(TokensOf(dfa, skipTable, input, ps))
    case Broken(_, at) => at < |input| && r == LexicalError(PositionAfter(input[..at]), input[at])
  }

  class Lexer {
    const dfa: DFA
    const skipTable: seq<bool>

    constructor (dfa: DFA, skipTable: seq<bool>)
      ensures this.dfa == dfa && this.skipTable == skipTable
    {
      this.dfa, this.skipTable := dfa, skipTable;
    }

    /** The longest accepted prefix from `pos` on: the state it leads to and where it ends, or state -1. */
    method Scan(input: string, pos: nat) returns (lastState: int, lastPos: nat)
      requires pos < |input|
      ensures var n := Longest(dfa, input[pos..], |input| - pos);
              lastPos == pos + n && if n == 0 then lastState == -1 else Some(lastState) == Run(dfa, input[pos..][..n])
    {
      hide Run, Accepts, Longest;
      ghost var rest := input[pos..];
      var state := dfa.start;
      lastState, lastPos := -1, pos;
      var i := pos;
      ReadNothing(dfa, rest);
      while i < |input|
        invariant pos <= i <= |input| && Run(dfa, rest[..i - pos]) == Some(state)
        invariant lastPos == pos + Longest(dfa, rest, i - pos)
        invariant if lastPos == pos then lastState == -1 else Some(lastState) == Run(dfa, rest[..lastPos - pos])
      {
        var next := Next(dfa, state, input[i]);
        ReadNext(dfa, rest, i - pos, state);
        if next.None? {
          return;
        }
        state := next.value;
        if state in dfa.accept {
          lastState, lastPos := state, i + 1;
        }
        i := i + 1;
      }
      assert rest == rest[..|rest|];
    }

    /** The position after the characters from `from` to `to`. */
    method Move(input: string, from: nat, to: nat, start: Position) returns (p: Position)
      requires from <= to <= |input| && start == PositionAfter(input[..from])
      ensures p == PositionAfter(input[..to])
    {
      p := start;
      for j := from to to
        invariant p == PositionAfter(input[..j])
      {
        assert input[..j + 1][..j] == input[..j];
        p := Advance(p, input[j]);
      }
    }

    /** Cuts the input into maximal pieces and makes tokens of those that are not skipped. Fails exactly
        where no prefix of the remaining input is accepted. */
    method Tokenize(input: string) returns (r: Result)
      requires WellFormed(dfa, skipTable)
      ensures Answers(dfa, skipTable, input, CutFrom(dfa, input, 0), r)
    {
      hide Accepts, Run, Maximal, TokensOf, TokenOf, TokenId, CutFrom, PositionAfter, Longest, WellFormed, Prepend;
      CutIsMaximal(dfa, input, 0);
      ghost var cut := CutFrom(dfa, input, 0);
      ghost var done: seq<Piece> := [];
      var tokens: seq<Token> := [];
      var pos := 0;
      var position := Position(1, 1);
      Nothing(dfa, skipTable, input);
      while pos < |input|
        invariant pos <= |input| && position == PositionAfter(input[..pos])
        invariant forall p | p in done :: Maximal(dfa, input, p)
        invariant tokens == TokensOf(dfa, skipTable, input, done)
        invariant cut == Prepend(done, CutFrom(dfa, input, pos))
        decreases |input| - pos
      {
        CutNext(dfa, input, pos);
        var state, end := Scan(input, pos);
        if state == -1 {
          NoState(dfa, skipTable, input, pos, state, end);
          PrependBroken(done, pos);
          r := LexicalError(position, input[pos]);
          return;
        }
        ghost var piece := Piece(pos, end - pos);
        Found(dfa, skipTable, input, pos, state, end);
        var id := dfa.acceptToken[state];
        var lexeme := input[pos..end];
        var start := position;
        position := Move(input, pos, end, start);
        TokensNext(dfa, skipTable, input, done, piece);
        if !skipTable[id] {
          tokens := tokens + [Token(id, lexeme, start, position)];
        }
        PrependNext(done, piece, CutFrom(dfa, input, end));
        done := done + [piece];
        pos := end;
      }
      CutEnd(dfa, input);
      PrependNothing(done);
      r := Tokens(tokens);
    }
  }

  ghost function Prepend(pieces: seq<Piece>, c: Cut): Cut {
    match c
    case Whole(ps) => Whole(pieces + ps)
    case Broken(ps, at) => Broken(pieces + ps, at)
  }

  lemma PrependNext(pieces: seq<Piece>, p: Piece, c: Cut)
    ensures Prepend(pieces, Prepend([p], c)) == Prepend(pieces + [p], c)
  {
    assert pieces + ([p] + c.pieces) == (pieces + [p]) + c.pieces;
  }

  lemma PrependNothing(pieces: seq<Piece>)
    ensures Prepend(pieces, Whole([])) == Whole(pieces)
  {
    assert pieces + [] == pieces;
  }

  lemma PrependBroken(pieces: seq<Piece>, at: nat)
    ensures Prepend(pieces, Broken([], at)) == Broken(pieces, at)
  {
    assert pieces + [] == pieces;
  }

  lemma Nothing(dfa: DFA, skipTable: seq<bool>, input: string)
    requires WellFormed(dfa, skipTable)
    ensures TokensOf(dfa, skipTable, input, []) == [] && PositionAfter(input[..0]) == Position(1, 1)
    ensures CutFrom(dfa, input, 0) == Prepend([], CutFrom(dfa, input, 0))
  {
  }

  lemma CutEnd(dfa: DFA, input: string)
    ensures CutFrom(dfa, input, |input|) == Whole([])
  {
  }

  lemma CutNext(dfa: DFA, input: string, pos: nat)
    requires pos < |input|
    ensures var n := Longest(dfa, input[pos..], |input| - pos);
            CutFrom(dfa, input, pos) ==
            if n == 0 then Broken([], pos) else Prepend([Piece(pos, n)], CutFrom(dfa, input, pos + n))
  {
  }

  lemma NoState(dfa: DFA, skipTable: seq<bool>, input: string, pos: nat, state: int, end: nat)
    requires WellFormed(dfa, skipTable) && pos < |input| && state == -1
    requires var n := Longest(dfa, input[pos..], |input| - pos);
             end == pos + n && if n == 0 then state == -1 else Some(state) == Run(dfa, input[pos..][..n])
    ensures end == pos
  {
  }

  lemma Found(dfa: DFA, skipTable: seq<bool>, input: string, pos: nat, state: int, end: nat)
    requires WellFormed(dfa, skipTable) && pos < |input| && state != -1
    requires var n := Longest(dfa, input[pos..], |input| - pos);
             end == pos + n && if n == 0 then state == -1 else Some(state) == Run(dfa, input[pos..][..n])
    ensures pos < end <= |input| && Maximal(dfa, input, Piece(pos, end - pos))
    ensures state in dfa.accept && Accepts(dfa, input[pos..end]) && state in dfa.acceptToken
    ensures 0 <= dfa.acceptToken[state] < |skipTable|
    ensures dfa.acceptToken[state] == TokenId(dfa, skipTable, input[pos..end])
  {
    assert input[pos..][..end - pos] == input[pos..end];
  }

  lemma TokensNext(dfa: DFA, skipTable: seq<bool>, input: string, done: seq<Piece>, p: Piece)
    requires WellFormed(dfa, skipTable) && (forall q | q in done :: Maximal(dfa, input, q)) && Maximal(dfa, input, p)
    ensures forall q | q in done + [p] :: Maximal(dfa, input, q)
    ensures TokensOf(dfa, skipTable, input, done + [p]) ==
            TokensOf(dfa, skipTable, input, done) +
            if skipTable[TokenId(dfa, skipTable, Lexeme(input, p))] then []
            else [Token(TokenId(dfa, skipTable, Lexeme(input, p)), Lexeme(input, p), PositionAfter(input[..p.at]),
                        PositionAfter(input[..p.at + p.length]))]
  {
    assert (done + [p])[..|done|] == done;
  }
}
