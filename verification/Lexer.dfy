/**
 The class SQLLexer of src/sql_lexer.cpp: a cursor over the input that keeps the line and the
 column up to date.  Its methods are proved against the functions of module Lexing.
 */
module Lexer {
  import opened Options
  import opened Lexing

  /** A token with the line and column of its first character. */
  datatype Token = Token(kind: TokenType, text: string, line: nat, column: nat)

  datatype TokenizeResult = Tokens(tokens: seq<Token>) | ParseError(error: Error)

  /** The line of offset n: one more than the newlines before it. */
  function LineAt(input: string, n: nat): nat
    requires n <= |input|
  {
    if n == 0 then 1 else LineAt(input, n - 1) + if input[n - 1] == '\n' then 1 else 0
  }

  /** The column of offset n: counted from 1 after the last newline before it. */
  function ColumnAt(input: string, n: nat): nat
    requires n <= |input|
  {
    if n == 0 || input[n - 1] == '\n' then 1 else ColumnAt(input, n - 1) + 1
  }

  /** Lines are counted from 1. */
  lemma {:induction false} LineMeans(input: string, n: nat)
    requires n <= |input|
    ensures LineAt(input, n) == 1 + |set i | 0 <= i < n && input[i] as int == 10|
  {
    var newlines := set i | 0 <= i < n && input[i] as int == 10;
    if n == 0 {
      assert newlines == {};
    } else {
      var before := set i | 0 <= i < n - 1 && input[i] as int == 10;
      LineMeans(input, n - 1);
      assert newlines == if input[n - 1] as int == 10 then before + {n - 1} else before;
    }
  }

  /** Columns are counted from 1 at the start of the line, which is at place k. */
  lemma {:induction false} ColumnMeans(input: string, n: nat, k: nat)
    requires k <= n <= |input| && (k == 0 || input[k - 1] as int == 10)
    requires forall i :: k <= i < n ==> input[i] as int != 10
    ensures ColumnAt(input, n) == n - k + 1
    decreases n
  {
    if n > k { ColumnMeans(input, n - 1, k); }
  }

  /** The tokens with their places in the input. */
  ghost predicate Placed(input: string, toks: seq<Tok>, tokens: seq<Token>) {
    |toks| == |tokens| && forall i :: 0 <= i < |toks| ==>
      toks[i].at <= |input| &&
      tokens[i] == Token(toks[i].kind, toks[i].text, LineAt(input, toks[i].at), ColumnAt(input, toks[i].at))
  }

  lemma PlacedNext(input: string, toks: seq<Tok>, tokens: seq<Token>, tok: Tok, token: Token)
    requires Placed(input, toks, tokens) && tok.at <= |input|
    requires token == Token(tok.kind, tok.text, LineAt(input, tok.at), ColumnAt(input, tok.at))
    ensures Placed(input, toks + [tok], tokens + [token])
  {
  }

  /** What one round of the tokenize loop did. */
  datatype Round = Skipped | Got(kind: TokenType, text: string) | Failed(error: Error)

  /** The round did what the scan of the front says, and rest is left to read. */
  ghost predicate Matches(front: Scan, r: Round, rest: string) {
    match front
    case Skip(left) => r == Skipped && rest == left
    case Emit(kind, text, left) => r == Got(kind, text) && rest == left
    case Fail(e) => r == Failed(e)
  }

  /** What a round means for the result: from s at offset at, to rest at offset pos. */
  ghost predicate Progress(scan: string -> Scan, s: string, at: nat, r: Round, rest: string, pos: nat)
    requires Advances(scan)
  {
    match r
    case Failed(e) => LexWith(scan, s, at) == Err(e)
    case Skipped => at < pos && LexWith(scan, s, at) == LexWith(scan, rest, pos)
    case Got(kind, text) => at < pos && LexWith(scan, s, at) == Prepend(Tok(kind, text, at), LexWith(scan, rest, pos))
  }

  class SQLLexer {
    const input: string
    const keywords: map<string, Keyword>
    var pos: nat
    var line: nat
    var column: nat

    ghost predicate Valid()
      reads this
    {
      pos <= |input| && line == LineAt(input, pos) && column == ColumnAt(input, pos)
    }

    ghost function Rest(): string
      reads this
      requires Valid()
    {
      input[pos..]
    }

    constructor (input: string)
      ensures Valid() && this.input == input && keywords == KEYWORDS && pos == 0
    {
      this.input, keywords := input, KEYWORDS;
      pos, line, column := 0, 1, 1;
    }

    method Cur() returns (c: char)
      requires Valid()
      ensures c == Current(Rest())
    {
      c := if pos >= |input| then NUL else input[pos];
    }

    method Next() returns (c: char)
      requires Valid()
      ensures c == Peek(Rest())
    {
      c := if pos + 1 >= |input| then NUL else input[pos + 1];
    }

    method Advance()
      requires Valid()
      modifies this
      ensures Valid() && pos == old(pos) + (if old(pos) < |input| then 1 else 0)
      ensures old(Rest()) != "" ==> Rest() == old(Rest())[1..]
    {
      if pos < |input| {
        if input[pos] == '\n' {
          line, column := line + 1, 1;
        } else {
          column := column + 1;
        }
        pos := pos + 1;
      }
    }

    method SkipWhitespace()
      requires Valid() && Advances(Scanner(keywords))
      modifies this
      ensures Valid() && old(pos) <= pos && !IsSpace(Current(Rest()))
      ensures LexWith(Scanner(keywords), Rest(), pos) == LexWith(Scanner(keywords), old(Rest()), old(pos))
    {
      var c := Cur();
      while IsSpace(c)
        invariant Valid() && old(pos) <= pos && c == Current(Rest())
        invariant LexWith(Scanner(keywords), Rest(), pos) == LexWith(Scanner(keywords), old(Rest()), old(pos))
        decreases |input| - pos
      {
        Advance();
        c := Cur();
      }
    }

    /** skip_comment at two dashes. */
    method SkipLineComment()
      requires Valid() && Rest() != "" && Rest()[0] == '-'
      modifies this
      ensures Valid() && Rest() == SkipLine(old(Rest())[1..])
    {
      var c := Cur();
      while c != '\n' && c != NUL
        invariant Valid() && c == Current(Rest())
        invariant SkipLine(Rest()) == SkipLine(old(Rest())[1..])
        decreases |input| - pos
      {
        Advance();
        c := Cur();
      }
      if c == '\n' { Advance(); }
    }

    /** skip_comment at a slash and an asterisk. */
    method SkipBlockComment() returns (ok: bool)
      requires Valid() && |Rest()| >= 2
      modifies this
      ensures Valid() && ok == SkipBlock(old(Rest())[2..]).Some?
      ensures ok ==> Rest() == SkipBlock(old(Rest())[2..]).value
    {
      Advance();
      Advance();
      var c := Cur();
      while c != NUL
        invariant Valid() && c == Current(Rest())
        invariant SkipBlock(Rest()) == SkipBlock(old(Rest())[2..])
        decreases |input| - pos
      {
        var d := Next();
        if c == '*' && d == '/' {
          Advance();
          Advance();
          return true;
        }
        Advance();
        c := Cur();
      }
      return false;
    }

    /** read_string, at its opening quote. */
    method ReadString() returns (value: Option<string>)
      requires Valid() && Rest() != ""
      modifies this
      ensures Valid()
      ensures match TakeString(old(Rest())[1..], "")
        case None => value == None
        case Some(p) => value == Some(p.text) && Rest() == p.rest
    {
      Advance();
      var text := "";
      var c := Cur();
      while c != '\'' && c != NUL
        invariant Valid() && c == Current(Rest())
        invariant TakeString(Rest(), text) == TakeString(old(Rest())[1..], "")
        decreases |input| - pos
      {
        if c == '\\' {
          Advance();
          c := Cur();
          if pos == |input| { return None; }   // the source appends NUL and then meets the end
          text := text + [Unescape(c)];
        } else {
          text := text + [c];
        }
        Advance();
        c := Cur();
      }
      if c != '\'' { return None; }
      Advance();
      value := Some(text);
    }

    /** The quoted identifier inside tokenize. */
    method ReadQuoted() returns (value: Option<string>)
      requires Valid() && Rest() != ""
      modifies this
      ensures Valid()
      ensures match TakeQuoted(old(Rest())[1..], "")
        case None => value == None
        case Some(p) => value == Some(p.text) && Rest() == p.rest
    {
      Advance();
      var text := "";
      var c := Cur();
      while c != '"' && c != NUL
        invariant Valid() && c == Current(Rest())
        invariant TakeQuoted(Rest(), text) == TakeQuoted(old(Rest())[1..], "")
        decreases |input| - pos
      {
        text := text + [c];
        Advance();
        c := Cur();
      }
      if c != '"' { return None; }
      Advance();
      value := Some(text);
    }

    /** read_number. */
    method ReadNumber() returns (value: Option<string>)
      requires Valid()
      modifies this
      ensures Valid()
      ensures match ScanNumber(old(Rest()))
        case Emit(kind, text, rest) => value == Some(text) && Rest() == rest
        case _ => value == None
    {
      var text, dot := "", false;
      var c := Cur();
      while IsDigit(c) || (c == '.' && !dot)
        invariant Valid() && c == Current(Rest())
        invariant dot <==> '.' in text
        invariant TakeNumber(Rest(), dot, text) == TakeNumber(old(Rest()), false, "")
        decreases |input| - pos
      {
        if c == '.' { dot := true; }
        text := text + [c];
        Advance();
        c := Cur();
      }
      if !dot && |text| > 1 && text[0] == '0' { return None; }
      value := Some(text);
    }

    /** read_identifier. */
    method ReadIdentifier() returns (kind: TokenType, text: string)
      requires Valid()
      modifies this
      ensures Valid() && ScanWord(keywords, old(Rest())) == Emit(kind, text, Rest())
    {
      text := "";
      var c := Cur();
      while IsWordChar(c)
        invariant Valid() && c == Current(Rest())
        invariant TakeWord(Rest(), text) == TakeWord(old(Rest()), "")
        decreases |input| - pos
      {
        text := text + [c];
        Advance();
        c := Cur();
      }
      kind := if Upper(text) in keywords then Word(keywords[Upper(text)]) else Identifier;
    }

    /** The comparison operators of read_operator. */
    method ReadComparison() returns (kind: TokenType, text: string)
      requires Valid() && Rest() != "" && (Rest()[0] == '<' || Rest()[0] == '>')
      modifies this
      ensures Valid() && ScanComparison(old(Rest())) == Emit(kind, text, Rest())
    {
      var first := Cur();
      Advance();
      var c := Cur();
      if c == '=' {
        Advance();
        if first == '<' { return LessEqual, "<="; }
        return GreaterEqual, ">=";
      }
      if first == '<' {
        if c == '>' {
          Advance();
          return NotEquals, "<>";
        }
        return Less, "<";
      }
      return Greater, ">";
    }

    /** One round of the loop of tokenize after white space: a comment, a token or an error. */
    method ReadFront() returns (r: Round)
      requires Valid() && AtToken(Rest())
      modifies this
      ensures Valid() && Matches(ScanFront(keywords, old(Rest())), r, Rest())
    {
      var c := Cur();
      var d := Next();
      if c == '-' && d == '-' {
        SkipLineComment();
        return Skipped;
      }
      if c == '/' && d == '*' {
        var ok := SkipBlockComment();
        return if ok then Skipped else Failed(UnterminatedComment);
      }
      if c == '\'' {
        var value := ReadString();
        return if value.Some? then Got(String, value.value) else Failed(UnterminatedString);
      }
      if c == '"' {
        var value := ReadQuoted();
        return if value.Some? then Got(Identifier, value.value) else Failed(UnterminatedIdentifier);
      }
      if IsDigit(c) {
        var value := ReadNumber();
        return if value.Some? then Got(Number, value.value) else Failed(InvalidNumber);
      }
      if IsWordStart(c) {
        var kind, text := ReadIdentifier();
        return Got(kind, text);
      }
      if c == '<' || c == '>' {
        var kind, text := ReadComparison();
        return Got(kind, text);
      }
      var p := Punctuation(c);
      if p.None? { return Failed(UnexpectedCharacter); }
      Advance();
      return Got(p.value, [c]);
    }

    /** ReadFront, as the whole lexing sees it. */
    method ReadRound() returns (r: Round)
      requires Valid() && AtToken(Rest()) && Advances(Scanner(keywords))
      modifies this
      ensures Valid() && Progress(Scanner(keywords), old(Rest()), old(pos), r, Rest(), pos)
    {
      ghost var s, at, front := Rest(), pos, ScanFront(keywords, Rest());
      ScannerScans(keywords, s);
      r := ReadFront();
      FrontStep(Scanner(keywords), front, s, at, r, Rest(), pos);
    }

    /** tokenize: the tokens of the input, each with the line and column at which it starts. */
    method Tokenize() returns (r: TokenizeResult)
      requires Valid() && pos == 0
      modifies this
      ensures match Lex(keywords, input, 0)
        case Ok(toks) => r.Tokens? && Placed(input, toks, r.tokens)
        case Err(e) => r == ParseError(e)
    {
      ScannerAdvances(keywords);
      ghost var all := Lex(keywords, input, 0);
      var tokens: seq<Token> := [];
      ghost var toks: seq<Tok> := [];
      assert Rest() == input;
      JoinNothing(all);
      while pos < |input|
        invariant Valid() && Placed(input, toks, tokens)
        invariant Join(toks, LexWith(Scanner(keywords), Rest(), pos)) == all
        decreases |input| - pos
      {
        SkipWhitespace();
        var c := Cur();
        if c == NUL { break; }
        ghost var at := pos;
        var startLine, startColumn := line, column;
        var round := ReadRound();
        if round.Failed? { return ParseError(round.error); }
        if round.Got? {
          ghost var tok := Tok(round.kind, round.text, at);
          var token := Token(round.kind, round.text, startLine, startColumn);
          JoinPrepend(toks, tok, LexWith(Scanner(keywords), Rest(), pos));
          PlacedNext(input, toks, tokens, tok, token);
          tokens := tokens + [token];
          toks := toks + [tok];
        }
      }
      assert LexWith(Scanner(keywords), Rest(), pos) == Ok([Tok(Eof, "", pos)]);
      PlacedNext(input, toks, tokens, Tok(Eof, "", pos), Token(Eof, "", line, column));
      tokens := tokens + [Token(Eof, "", line, column)];
      r := Tokens(tokens);
    }
  }

  lemma FrontStep(scan: string -> Scan, front: Scan, s: string, at: nat, r: Round, rest: string, pos: nat)
    requires Advances(scan) && AtToken(s) && scan(s) == front && Matches(front, r, rest) && pos + |rest| == at + |s|
    ensures Progress(scan, s, at, r, rest, pos)
  {
  }

  lemma ScannerScans(kw: map<string, Keyword>, s: string)
    requires AtToken(s)
    ensures Scanner(kw)(s) == ScanFront(kw, s)
  {
  }

  lemma JoinPrepend(toks: seq<Tok>, tok: Tok, r: LexResult)
    ensures Join(toks, Prepend(tok, r)) == Join(toks + [tok], r)
  {
    if r.Ok? { assert toks + ([tok] + r.toks) == (toks + [tok]) + r.toks; }
  }
}
