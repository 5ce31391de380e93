/**
 The SQL scanner of src/sql_lexer.cpp, as functions of the input that is left to read.

 A scan takes the unread input and says what its front is: something to skip, a token, or an
 error.  Character classes are those of ASCII in the C locale.  The character NUL doubles as
 the end-of-input marker, as in the source.
 */
module Lexing {
  import opened Options

  /** The token types that stand for a keyword, named as in include/sql_lexer.h. */
  datatype Keyword =
    SELECT | FROM | WHERE | INSERT | INTO | VALUES | UPDATE | SET | DELETE | CREATE | TABLE | DROP |
    ALTER | ADD | MODIFY | PRIMARY | KEY | NOT_KEYWORD | NULL_KEYWORD | UNIQUE | FOREIGN | REFERENCES |
    DEFAULT | CHECK | CONSTRAINT | AND | OR | IN | BETWEEN | LIKE | IS | ORDER | BY | GROUP | HAVING |
    LIMIT | OFFSET | DISTINCT | INNER | LEFT | RIGHT | FULL | OUTER | JOIN | ON | USING | UNION |
    INTERSECT | EXCEPT | CASE | WHEN | THEN | ELSE | END | AS | ASC | DESC | INT | BIGINT | FLOAT |
    DOUBLE | DECIMAL | VARCHAR | CHAR | BOOLEAN | DATE | TIMESTAMP | TEXT | BLOB

  /** The keyword table.  The theory below holds for any table. */
  const KEYWORDS: map<string, Keyword> :=
    STATEMENT_WORDS + SCHEMA_WORDS + CLAUSE_WORDS + JOIN_WORDS + CASE_WORDS + TYPE_WORDS

  const STATEMENT_WORDS: map<string, Keyword> :=
    map[
      "SELECT" := SELECT, "FROM" := FROM, "WHERE" := WHERE, "INSERT" := INSERT, "INTO" := INTO,
      "VALUES" := VALUES, "UPDATE" := UPDATE, "SET" := SET, "DELETE" := DELETE, "CREATE" := CREATE,
      "TABLE" := TABLE, "DROP" := DROP, "ALTER" := ALTER, "ADD" := ADD, "MODIFY" := MODIFY
    ]

  const SCHEMA_WORDS: map<string, Keyword> :=
    map[
      "PRIMARY" := PRIMARY, "KEY" := KEY, "NOT" := NOT_KEYWORD, "NULL" := NULL_KEYWORD, "UNIQUE" := UNIQUE,
      "FOREIGN" := FOREIGN, "REFERENCES" := REFERENCES, "DEFAULT" := DEFAULT, "CHECK" := CHECK,
      "CONSTRAINT" := CONSTRAINT
    ]

  const CLAUSE_WORDS: map<string, Keyword> :=
    map[
      "AND" := AND, "OR" := OR, "IN" := IN, "BETWEEN" := BETWEEN, "LIKE" := LIKE, "IS" := IS, "ORDER" := ORDER,
      "BY" := BY, "GROUP" := GROUP, "HAVING" := HAVING, "LIMIT" := LIMIT, "OFFSET" := OFFSET,
      "DISTINCT" := DISTINCT
    ]

  const JOIN_WORDS: map<string, Keyword> :=
    map[
      "INNER" := INNER, "LEFT" := LEFT, "RIGHT" := RIGHT, "FULL" := FULL, "OUTER" := OUTER, "JOIN" := JOIN,
      "ON" := ON, "USING" := USING, "UNION" := UNION, "INTERSECT" := INTERSECT, "EXCEPT" := EXCEPT
    ]

  const CASE_WORDS: map<string, Keyword> :=
    map[
      "CASE" := CASE, "WHEN" := WHEN, "THEN" := THEN, "ELSE" := ELSE, "END" := END, "AS" := AS, "ASC" := ASC,
      "DESC" := DESC
    ]

  const TYPE_WORDS: map<string, Keyword> :=
    map[
      "INT" := INT, "BIGINT" := BIGINT, "FLOAT" := FLOAT, "DOUBLE" := DOUBLE, "DECIMAL" := DECIMAL,
      "VARCHAR" := VARCHAR, "CHAR" := CHAR, "BOOLEAN" := BOOLEAN, "DATE" := DATE, "TIMESTAMP" := TIMESTAMP,
      "TEXT" := TEXT, "BLOB" := BLOB
    ]

  /** The token types the scanner can produce; it yields STAR, never MULTIPLY, for an asterisk. */
  datatype TokenType =
    | Word(keyword: Keyword)
    | Equals | NotEquals | Less | LessEqual | Greater | GreaterEqual
    | Plus | Minus | Divide | Modulo
    | LParen | RParen | Comma | Dot | Semicolon | Star
    | Number | String | Identifier | Eof

  datatype Error =
    | UnterminatedComment | UnterminatedString | UnterminatedIdentifier | InvalidNumber | UnexpectedCharacter

  // ----- Characters -----

  const NUL: char := '\0'

  predicate IsSpace(c: char) { c == ' ' || 9 <= c as int <= 13 }

  predicate IsDigit(c: char) { '0' <= c <= '9' }

  predicate IsAlpha(c: char) { 'a' <= c <= 'z' || 'A' <= c <= 'Z' }

  predicate IsWordStart(c: char) { IsAlpha(c) || c == '_' }

  predicate IsWordChar(c: char) { IsAlpha(c) || IsDigit(c) || c == '_' }

  function ToUpper(c: char): char {
    if 'a' <= c <= 'z' then (c as int - 32) as char else c
  }

  function Upper(s: string): string {
    seq(|s|, i requires 0 <= i < |s| => ToUpper(s[i]))
  }

  /** current() and peek(), on the unread input. */
  function Current(s: string): char { if s == "" then NUL else s[0] }

  function Peek(s: string): char { if |s| < 2 then NUL else s[1] }

  // ----- Parts of tokens -----

  /** A line comment: up to and including the next newline. */
  function SkipLine(s: string): (r: string)
    ensures |r| <= |s|
  {
    if Current(s) == NUL then s
    else if s[0] == '\n' then s[1..]
    else SkipLine(s[1..])
  }

  /** The rest of a block comment, after its opening. */
  function SkipBlock(s: string): (r: Option<string>)
    ensures r.Some? ==> |r.value| < |s|
  {
    if Current(s) == NUL then None
    else if s[0] == '*' && Peek(s) == '/' then Some(s[2..])
    else SkipBlock(s[1..])
  }

  function Unescape(c: char): char {
    match c
    case 'n' => '\n'
    case 't' => '\t'
    case 'r' => '\r'
    case _ => c
  }

  datatype Piece = Piece(text: string, rest: string)

  /** The rest of a string literal, after its opening quote. */
  function TakeString(s: string, acc: string): (r: Option<Piece>)
    ensures r.Some? ==> |r.value.rest| < |s|
    decreases |s|
  {
    if Current(s) == '\'' then Some(Piece(acc, s[1..]))
    else if Current(s) == NUL then None
    else if s[0] == '\\' then
      if |s| < 2 then None else TakeString(s[2..], acc + [Unescape(s[1])])
    else TakeString(s[1..], acc + [s[0]])
  }

  /** The rest of a quoted identifier, after its opening quote. */
  function TakeQuoted(s: string, acc: string): (r: Option<Piece>)
    ensures r.Some? ==> |r.value.rest| < |s|
    decreases |s|
  {
    if Current(s) == '"' then Some(Piece(acc, s[1..]))
    else if Current(s) == NUL then None
    else TakeQuoted(s[1..], acc + [s[0]])
  }

  /** Digits with at most one dot. */
  function TakeNumber(s: string, dot: bool, acc: string): (r: Piece)
    ensures |r.rest| <= |s| && (s != "" && IsDigit(s[0]) ==> |r.rest| < |s|)
    decreases |s|
  {
    if s != "" && (IsDigit(s[0]) || (s[0] == '.' && !dot)) then TakeNumber(s[1..], dot || s[0] == '.', acc + [s[0]])
    else Piece(acc, s)
  }

  function TakeWord(s: string, acc: string): (r: Piece)
    ensures |r.rest| <= |s| && (s != "" && IsWordChar(s[0]) ==> |r.rest| < |s|)
    decreases |s|
  {
    if s != "" && IsWordChar(s[0]) then TakeWord(s[1..], acc + [s[0]]) else Piece(acc, s)
  }

  /** A number written with a leading zero and no dot is refused. */
  predicate BadNumber(text: string) {
    '.' !in text && |text| > 1 && text[0] == '0'
  }

  // ----- The front of the input -----

  datatype Scan = Skip(rest: string) | Emit(kind: TokenType, text: string, rest: string) | Fail(error: Error)

  function Punctuation(c: char): Option<TokenType> {
    match c
    case '(' => Some(LParen)
    case ')' => Some(RParen)
    case ',' => Some(Comma)
    case '.' => Some(Dot)
    case ';' => Some(Semicolon)
    case '*' => Some(Star)
    case '=' => Some(Equals)
    case '+' => Some(Plus)
    case '-' => Some(Minus)
    case '/' => Some(Divide)
    case '%' => Some(Modulo)
    case _ => None
  }

  /** The comparison operators, which may take a second character. */
  function ScanComparison(s: string): Scan
    requires s != "" && (s[0] == '<' || s[0] == '>')
  {
    if s[0] == '<' then
      if Peek(s) == '=' then Emit(LessEqual, "<=", s[2..])
      else if Peek(s) == '>' then Emit(NotEquals, "<>", s[2..])
      else Emit(Less, "<", s[1..])
    else if Peek(s) == '=' then Emit(GreaterEqual, ">=", s[2..])
    else Emit(Greater, ">", s[1..])
  }

  function ScanNumber(s: string): Scan {
    var p := TakeNumber(s, false, "");
    if BadNumber(p.text) then Fail(InvalidNumber) else Emit(Number, p.text, p.rest)
  }

  function ScanWord(kw: map<string, Keyword>, s: string): Scan {
    var p := TakeWord(s, "");
    Emit(WordType(kw, p.text), p.text, p.rest)
  }

  function WordType(kw: map<string, Keyword>, text: string): TokenType {
    if Upper(text) in kw then Word(kw[Upper(text)]) else Identifier
  }

  /** One round of the loop of tokenize, at a character that is neither white space nor the end. */
  function ScanFront(kw: map<string, Keyword>, s: string): (r: Scan)
    requires AtToken(s)
    ensures !r.Fail? ==> |r.rest| < |s|
  {
    var c := s[0];
    if c == '-' && Peek(s) == '-' then Skip(SkipLine(s[1..]))
    else if c == '/' && Peek(s) == '*' then
      match SkipBlock(s[2..]) case None => Fail(UnterminatedComment) case Some(rest) => Skip(rest)
    else if c == '\'' then
      match TakeString(s[1..], "") case None => Fail(UnterminatedString) case Some(p) => Emit(String, p.text, p.rest)
    else if c == '"' then
      match TakeQuoted(s[1..], "")
      case None => Fail(UnterminatedIdentifier)
      case Some(p) => Emit(Identifier, p.text, p.rest)
    else if IsDigit(c) then ScanNumber(s)
    else if IsWordStart(c) then ScanWord(kw, s)
    else if c == '<' || c == '>' then ScanComparison(s)
    else match Punctuation(c)
      case Some(kind) => Emit(kind, [c], s[1..])
      case None => Fail(UnexpectedCharacter)
  }

  // ----- The whole input -----

  /** A token and the offset at which it starts. */
  datatype Tok = Tok(kind: TokenType, text: string, at: nat)

  datatype LexResult = Ok(toks: seq<Tok>) | Err(error: Error)

  /** The unread input starts with something to scan. */
  predicate AtToken(s: string) {
    s != "" && !IsSpace(s[0]) && s[0] != NUL
  }

  /** The scan of a front leaves a shorter end of the input. */
  ghost predicate Advances(scan: string -> Scan) {
    forall s {:trigger scan(s)} :: AtToken(s) && !scan(s).Fail? ==>
      |scan(s).rest| < |s| && scan(s).rest == s[|s| - |scan(s).rest|..]
  }

  /** The loop of tokenize around any scan: the tokens of the unread input s, which starts at
      offset at; the last one is Eof. */
  function LexWith(scan: string -> Scan, s: string, at: nat): (r: LexResult)
    requires Advances(scan)
    ensures r.Ok? ==> r.toks != [] && r.toks[|r.toks| - 1].kind == Eof
    decreases |s|
  {
    if Current(s) == NUL then Ok([Tok(Eof, "", at)])
    else if IsSpace(s[0]) then LexWith(scan, s[1..], at + 1)
    else match scan(s)
      case Fail(e) => Err(e)
      case Skip(rest) => LexWith(scan, rest, at + |s| - |rest|)
      case Emit(kind, text, rest) => Prepend(Tok(kind, text, at), LexWith(scan, rest, at + |s| - |rest|))
  }

  function Prepend(t: Tok, r: LexResult): LexResult {
    match r case Err(e) => Err(e) case Ok(toks) => Ok([t] + toks)
  }

  function Scanner(kw: map<string, Keyword>): string -> Scan {
    s => if AtToken(s) then ScanFront(kw, s) else Fail(UnexpectedCharacter)
  }

  /** tokenize: the tokens of s with the given keyword table, for an s that starts at offset at. */
  function Lex(kw: map<string, Keyword>, s: string, at: nat): LexResult {
    ScannerAdvances(kw);
    LexWith(Scanner(kw), s, at)
  }

  predicate NulFree(s: string) {
    NUL !in s
  }

  // ----- Extending the input by a newline and more -----

  lemma {:induction false} SkipLineExtends(s: string, t: string)
    requires NulFree(s) && t != "" && t[0] == '\n'
    ensures SkipLine(s + t) == if '\n' in s then SkipLine(s) + t else t[1..]
    ensures '\n' !in s ==> SkipLine(s) == ""
    decreases |s|
  {
    if s == "" {
      assert s + t == t;
    } else {
      assert (s + t)[1..] == s[1..] + t && s[0] in s;
      SkipLineExtends(s[1..], t);
    }
  }

  lemma {:induction false} SkipBlockExtends(s: string, t: string)
    requires SkipBlock(s).Some? && t != "" && t[0] == '\n'
    ensures SkipBlock(s + t) == Some(SkipBlock(s).value + t)
    decreases |s|
  {
    if s[0] == '*' && Peek(s) == '/' {
      assert (s + t)[2..] == s[2..] + t;
    } else {
      assert (s + t)[1..] == s[1..] + t;
      SkipBlockExtends(s[1..], t);
    }
  }

  lemma {:induction false} TakeStringExtends(s: string, acc: string, t: string)
    requires TakeString(s, acc).Some?
    ensures TakeString(s + t, acc) == Some(Piece(TakeString(s, acc).value.text, TakeString(s, acc).value.rest + t))
    decreases |s|
  {
    assert (s + t)[1..] == s[1..] + t;
    if s[0] == '\\' {
      assert (s + t)[2..] == s[2..] + t;
      TakeStringExtends(s[2..], acc + [Unescape(s[1])], t);
    } else if s[0] != '\'' {
      TakeStringExtends(s[1..], acc + [s[0]], t);
    }
  }

  lemma {:induction false} TakeQuotedExtends(s: string, acc: string, t: string)
    requires TakeQuoted(s, acc).Some?
    ensures TakeQuoted(s + t, acc) == Some(Piece(TakeQuoted(s, acc).value.text, TakeQuoted(s, acc).value.rest + t))
    decreases |s|
  {
    assert (s + t)[1..] == s[1..] + t;
    if s[0] != '"' {
      TakeQuotedExtends(s[1..], acc + [s[0]], t);
    }
  }

  lemma {:induction false} TakeNumberExtends(s: string, dot: bool, acc: string, t: string)
    requires t != "" && t[0] == '\n'
    ensures var p := TakeNumber(s, dot, acc); TakeNumber(s + t, dot, acc) == Piece(p.text, p.rest + t)
    decreases |s|
  {
    if s == "" {
      assert s + t == t;
    } else {
      assert (s + t)[1..] == s[1..] + t;
      if IsDigit(s[0]) || (s[0] == '.' && !dot) {
        TakeNumberExtends(s[1..], dot || s[0] == '.', acc + [s[0]], t);
      }
    }
  }

  lemma {:induction false} TakeWordExtends(s: string, acc: string, t: string)
    requires t != "" && t[0] == '\n'
    ensures var p := TakeWord(s, acc); TakeWord(s + t, acc) == Piece(p.text, p.rest + t)
    decreases |s|
  {
    if s == "" {
      assert s + t == t;
    } else {
      assert (s + t)[1..] == s[1..] + t;
      if IsWordChar(s[0]) {
        TakeWordExtends(s[1..], acc + [s[0]], t);
      }
    }
  }

  /** The error is that of a token which is whole: more input cannot undo it. */
  predicate Lasting(e: Error) {
    e == InvalidNumber || e == UnexpectedCharacter
  }

  /** What the front of s is does not change when a newline and more follow; except that a line
      comment running to the end of s then takes the newline too, and something unterminated may
      then end. */
  lemma ScanExtends(kw: map<string, Keyword>, s: string, t: string)
    requires AtToken(s) && NulFree(s) && t != "" && t[0] == '\n'
    requires ScanFront(kw, s).Fail? ==> Lasting(ScanFront(kw, s).error)
    ensures match ScanFront(kw, s)
      case Fail(e) => ScanFront(kw, s + t) == Fail(e)
      case Skip(rest) => ScanFront(kw, s + t) == Skip(rest + t) || (rest == "" && ScanFront(kw, s + t) == Skip(t[1..]))
      case Emit(kind, text, rest) => ScanFront(kw, s + t) == Emit(kind, text, rest + t)
  {
    var c := s[0];
    assert (s + t)[0] == c && (s + t)[1..] == s[1..] + t;
    assert |s| > 1 ==> (s + t)[2..] == s[2..] + t && Peek(s + t) == Peek(s);
    assert |s| == 1 ==> Peek(s + t) == '\n';
    if c == '-' && Peek(s) == '-' {
      assert NulFree(s[1..]);
      SkipLineExtends(s[1..], t);
    } else if c == '/' && Peek(s) == '*' {
      SkipBlockExtends(s[2..], t);
    } else if c == '\'' {
      TakeStringExtends(s[1..], "", t);
    } else if c == '"' {
      TakeQuotedExtends(s[1..], "", t);
    } else if IsDigit(c) {
      TakeNumberExtends(s, false, "", t);
    } else if IsWordStart(c) {
      TakeWordExtends(s, "", t);
    }
  }

  lemma ScanLeavesSuffix(kw: map<string, Keyword>, s: string)
    requires AtToken(s) && !ScanFront(kw, s).Fail?
    ensures ScanFront(kw, s).rest == s[|s| - |ScanFront(kw, s).rest|..]
  {
    var c := s[0];
    if c == '-' && Peek(s) == '-' {
      SkipLineSuffix(s[1..]);
    } else if c == '/' && Peek(s) == '*' {
      SkipBlockSuffix(s[2..]);
    } else if c == '\'' {
      TakeStringSuffix(s[1..], "");
    } else if c == '"' {
      TakeQuotedSuffix(s[1..], "");
    } else if IsDigit(c) {
      TakeNumberSuffix(s, false, "");
    } else if IsWordStart(c) {
      TakeWordSuffix(s, "");
    }
  }

  lemma ScannerAdvances(kw: map<string, Keyword>)
    ensures Advances(Scanner(kw))
  {
    forall s | AtToken(s) && !ScanFront(kw, s).Fail?
      ensures |ScanFront(kw, s).rest| < |s| && ScanFront(kw, s).rest == s[|s| - |ScanFront(kw, s).rest|..]
    {
      ScanLeavesSuffix(kw, s);
    }
  }

  lemma {:induction false} SkipLineSuffix(s: string)
    ensures SkipLine(s) == s[|s| - |SkipLine(s)|..]
  {
    if Current(s) != NUL && s[0] != '\n' { SkipLineSuffix(s[1..]); }
  }

  lemma {:induction false} SkipBlockSuffix(s: string)
    requires SkipBlock(s).Some?
    ensures SkipBlock(s).value == s[|s| - |SkipBlock(s).value|..]
  {
    if !(s[0] == '*' && Peek(s) == '/') { SkipBlockSuffix(s[1..]); }
  }

  lemma {:induction false} TakeStringSuffix(s: string, acc: string)
    requires TakeString(s, acc).Some?
    ensures var r := TakeString(s, acc).value.rest; r == s[|s| - |r|..]
    decreases |s|
  {
    if s[0] == '\\' {
      TakeStringSuffix(s[2..], acc + [Unescape(s[1])]);
    } else if s[0] != '\'' {
      TakeStringSuffix(s[1..], acc + [s[0]]);
    }
  }

  lemma {:induction false} TakeQuotedSuffix(s: string, acc: string)
    requires TakeQuoted(s, acc).Some?
    ensures var r := TakeQuoted(s, acc).value.rest; r == s[|s| - |r|..]
    decreases |s|
  {
    if s[0] != '"' { TakeQuotedSuffix(s[1..], acc + [s[0]]); }
  }

  lemma {:induction false} TakeNumberSuffix(s: string, dot: bool, acc: string)
    ensures var r := TakeNumber(s, dot, acc).rest; r == s[|s| - |r|..]
    decreases |s|
  {
    if s != "" && (IsDigit(s[0]) || (s[0] == '.' && !dot)) {
      TakeNumberSuffix(s[1..], dot || s[0] == '.', acc + [s[0]]);
    }
  }

  lemma {:induction false} TakeWordSuffix(s: string, acc: string)
    ensures var r := TakeWord(s, acc).rest; r == s[|s| - |r|..]
    decreases |s|
  {
    if s != "" && IsWordChar(s[0]) { TakeWordSuffix(s[1..], acc + [s[0]]); }
  }

  // ----- Lexing is compositional -----

  /** The tokens without the final Eof, followed by another result. */
  function Join(toks: seq<Tok>, r: LexResult): LexResult {
    match r case Err(e) => Err(e) case Ok(more) => Ok(toks + more)
  }

  function Init(toks: seq<Tok>): seq<Tok>
    requires toks != []
  {
    toks[..|toks| - 1]
  }

  /** A newline and more after s leave what the front of s is; except that a comment running to
      the end of s may take the newline too. */
  ghost predicate ScansOn(scan: string -> Scan, s: string, t: string)
    requires t != ""
  {
    match scan(s)
    case Fail(e) => Lasting(e) ==> scan(s + t) == Fail(e)
    case Skip(rest) => scan(s + t) == Skip(rest + t) || (rest == "" && scan(s + t) == Skip(t[1..]))
    case Emit(kind, text, rest) => scan(s + t) == Emit(kind, text, rest + t)
  }

  ghost predicate Extends(scan: string -> Scan) {
    forall s, t {:trigger ScansOn(scan, s, t)} ::
      AtToken(s) && NulFree(s) && t != "" && t[0] == '\n' ==> ScansOn(scan, s, t)
  }

  lemma NewlineIsSkipped(scan: string -> Scan, t: string, at: nat)
    requires Advances(scan) && t != "" && t[0] == '\n'
    ensures LexWith(scan, t, at) == LexWith(scan, t[1..], at + 1)
  {
  }

  lemma JoinNothing(r: LexResult)
    ensures Join([], r) == r
  {
    if r.Ok? { assert [] + r.toks == r.toks; }
  }

  lemma PrependJoins(tok: Tok, toks: seq<Tok>, r: LexResult)
    requires toks != []
    ensures Prepend(tok, Join(Init(toks), r)) == Join(Init([tok] + toks), r)
  {
    assert Init([tok] + toks) == [tok] + Init(toks);
    if r.Ok? { assert [tok] + (Init(toks) + r.toks) == ([tok] + Init(toks)) + r.toks; }
  }

  lemma LexEmit(scan: string -> Scan, s: string, at: nat, kind: TokenType, text: string, rest: string, at': nat)
    requires Advances(scan) && AtToken(s) && scan(s) == Emit(kind, text, rest) && at' == at + |s| - |rest|
    ensures LexWith(scan, s, at) == Prepend(Tok(kind, text, at), LexWith(scan, rest, at'))
  {
  }

  lemma LexSkip(scan: string -> Scan, s: string, at: nat, rest: string, at': nat)
    requires Advances(scan) && AtToken(s) && scan(s) == Skip(rest) && at' == at + |s| - |rest|
    ensures LexWith(scan, s, at) == LexWith(scan, rest, at')
  {
  }

  /** One token, when the rest composes. */
  lemma EmitComposes(scan: string -> Scan, s: string, t: string, at: nat, kind: TokenType, text: string, rest: string,
                     at': nat, after: LexResult)
    requires Advances(scan) && AtToken(s) && AtToken(s + t) && at' == at + |s| - |rest|
    requires scan(s) == Emit(kind, text, rest) && scan(s + t) == Emit(kind, text, rest + t)
    requires LexWith(scan, rest, at').Ok?
    requires LexWith(scan, rest + t, at') == Join(Init(LexWith(scan, rest, at').toks), after)
    ensures LexWith(scan, s, at).Ok? && LexWith(scan, s + t, at) == Join(Init(LexWith(scan, s, at).toks), after)
  {
    LexEmit(scan, s, at, kind, text, rest, at');
    LexEmit(scan, s + t, at, kind, text, rest + t, at');
    PrependJoins(Tok(kind, text, at), LexWith(scan, rest, at').toks, after);
  }

  /** One comment. */
  lemma SkipComposes(scan: string -> Scan, s: string, t: string, at: nat, rest: string, at': nat)
    requires Advances(scan) && AtToken(s) && AtToken(s + t) && scan(s) == Skip(rest) && t != "" && t[0] == '\n'
    requires scan(s + t) == Skip(rest + t) || (rest == "" && scan(s + t) == Skip(t[1..]))
    requires at' == at + |s| - |rest|
    ensures LexWith(scan, s, at) == LexWith(scan, rest, at')
    ensures LexWith(scan, s + t, at) == LexWith(scan, rest + t, at')
  {
    LexSkip(scan, s, at, rest, at');
    if scan(s + t) == Skip(rest + t) {
      assert |rest + t| - |t| == |rest|;
      LexSkip(scan, s + t, at, rest + t, at');
    } else {
      assert rest + t == t;
      SkipTakesNewline(scan, s, t, at, at');
    }
  }

  /** A comment that runs to the end takes the newline too, which would have been skipped. */
  lemma SkipTakesNewline(scan: string -> Scan, s: string, t: string, at: nat, at': nat)
    requires Advances(scan) && AtToken(s + t) && t != "" && t[0] == '\n' && at' == at + |s|
    requires scan(s + t) == Skip(t[1..])
    ensures LexWith(scan, s + t, at) == LexWith(scan, t, at')
  {
    LexSkip(scan, s + t, at, t[1..], at' + 1);
    NewlineIsSkipped(scan, t, at');
  }

  lemma NulFreeSuffix(s: string, k: nat)
    requires NulFree(s) && k <= |s|
    ensures NulFree(s[k..])
  {
  }

  lemma SpaceComposes(scan: string -> Scan, s: string, t: string, at: nat)
    requires Advances(scan) && s != "" && IsSpace(s[0]) && s[0] != NUL
    ensures LexWith(scan, s, at) == LexWith(scan, s[1..], at + 1)
    ensures LexWith(scan, s + t, at) == LexWith(scan, s[1..] + t, at + 1)
  {
    assert (s + t)[0] == s[0] && (s + t)[1..] == s[1..] + t;
  }

  lemma {:induction false} LexWithComposes(scan: string -> Scan, s: string, t: string, at: nat, end: nat)
    requires Advances(scan) && Extends(scan) && NulFree(s) && t != "" && t[0] == '\n'
    requires end == at + |s| && LexWith(scan, s, at).Ok?
    ensures LexWith(scan, s + t, at) == Join(Init(LexWith(scan, s, at).toks), LexWith(scan, t, end))
    decreases |s|
  {
    if s == "" {
      assert s + t == t;
      JoinNothing(LexWith(scan, t, at));
    } else if IsSpace(s[0]) {
      SpaceComposes(scan, s, t, at);
      NulFreeSuffix(s, 1);
      LexWithComposes(scan, s[1..], t, at + 1, end);
    } else {
      assert s[0] in s;
      var at' := at + |s| - |scan(s).rest|;
      NulFreeSuffix(s, |s| - |scan(s).rest|);
      LexWithComposes(scan, scan(s).rest, t, at', end);
      FrontComposes(scan, s, t, at, at', LexWith(scan, t, end));
    }
  }

  /** One scan, when the rest composes. */
  lemma FrontComposes(scan: string -> Scan, s: string, t: string, at: nat, at': nat, after: LexResult)
    requires Advances(scan) && Extends(scan) && AtToken(s) && NulFree(s) && t != "" && t[0] == '\n' && !scan(s).Fail?
    requires at' == at + |s| - |scan(s).rest| && LexWith(scan, scan(s).rest, at').Ok?
    requires LexWith(scan, scan(s).rest + t, at') == Join(Init(LexWith(scan, scan(s).rest, at').toks), after)
    ensures LexWith(scan, s, at).Ok? && LexWith(scan, s + t, at) == Join(Init(LexWith(scan, s, at).toks), after)
  {
    assert ScansOn(scan, s, t);
    assert AtToken(s + t) by { assert (s + t)[0] == s[0]; }
    if scan(s).Emit? {
      EmitComposes(scan, s, t, at, scan(s).kind, scan(s).text, scan(s).rest, at', after);
    } else {
      SkipComposes(scan, s, t, at, scan(s).rest, at');
    }
  }

  lemma LineFollows(scan: string -> Scan, s: string, t: string, at: nat, end: nat)
    requires Advances(scan) && Extends(scan) && NulFree(s) && LexWith(scan, s, at).Ok?
    requires t != "" && t[0] == '\n' && end == at + |s|
    ensures LexWith(scan, s + t, at) == Join(Init(LexWith(scan, s, at).toks), LexWith(scan, t[1..], end + 1))
  {
    LexWithComposes(scan, s, t, at, end);
    NewlineIsSkipped(scan, t, end);
  }

  /** The composition, for any scan that newlines do not disturb. */
  lemma LineComposes(scan: string -> Scan, s1: string, s2: string, at: nat)
    requires Advances(scan) && Extends(scan) && NulFree(s1) && LexWith(scan, s1, at).Ok?
    ensures LexWith(scan, s1 + "\n" + s2, at)
         == Join(Init(LexWith(scan, s1, at).toks), LexWith(scan, s2, at + |s1| + 1))
  {
    var t := "\n" + s2;
    assert s1 + "\n" + s2 == s1 + t && t[1..] == s2;
    LineFollows(scan, s1, t, at, at + |s1|);
  }

  lemma ScannerExtends(kw: map<string, Keyword>)
    ensures Extends(Scanner(kw))
  {
    forall s, t | AtToken(s) && NulFree(s) && t != "" && t[0] == '\n' ensures ScansOn(Scanner(kw), s, t) {
      assert AtToken(s + t);
      if ScanFront(kw, s).Fail? ==> Lasting(ScanFront(kw, s).error) {
        ScanExtends(kw, s, t);
      }
    }
  }

  /** If s1 lexes, then s1, a newline and s2 lex to the tokens of s1 without its Eof followed
      by those of s2 (or to its error), each token at its own place: also when s1 ends in a
      line comment, in a word, in a number or in the middle of an operator. */
  lemma LexComposes(kw: map<string, Keyword>, s1: string, s2: string, at: nat)
    requires NulFree(s1) && Lex(kw, s1, at).Ok?
    ensures Lex(kw, s1 + "\n" + s2, at) == Join(Init(Lex(kw, s1, at).toks), Lex(kw, s2, at + |s1| + 1))
  {
    ScannerAdvances(kw);
    ScannerExtends(kw);
    LineComposes(Scanner(kw), s1, s2, at);
  }

  // ----- Errors, and what more input does to them -----

  /** One scan before the error. */
  lemma FrontFails(scan: string -> Scan, s: string, t: string, at: nat, at': nat)
    requires Advances(scan) && Extends(scan) && AtToken(s) && NulFree(s) && t != "" && t[0] == '\n' && !scan(s).Fail?
    requires at' == at + |s| - |scan(s).rest|
    ensures LexWith(scan, s, at).Err? <==> LexWith(scan, scan(s).rest, at').Err?
    ensures LexWith(scan, s, at).Err? ==> LexWith(scan, s, at) == LexWith(scan, scan(s).rest, at')
    ensures LexWith(scan, s + t, at).Err? <==> LexWith(scan, scan(s).rest + t, at').Err?
    ensures LexWith(scan, s + t, at).Err? ==> LexWith(scan, s + t, at) == LexWith(scan, scan(s).rest + t, at')
  {
    assert ScansOn(scan, s, t);
    assert AtToken(s + t) by { assert (s + t)[0] == s[0]; }
    var rest := scan(s).rest;
    if scan(s).Emit? {
      LexEmit(scan, s, at, scan(s).kind, scan(s).text, rest, at');
      LexEmit(scan, s + t, at, scan(s).kind, scan(s).text, rest + t, at');
    } else {
      SkipComposes(scan, s, t, at, rest, at');
    }
  }

  /** What ends something unterminated. */
  function Closer(e: Error): string {
    match e
    case UnterminatedComment => "*/"
    case UnterminatedString => "'"
    case UnterminatedIdentifier => "\""
    case _ => ""
  }

  /** On a line of its own, the closer ends what is unterminated at the front. */
  ghost predicate Closes(scan: string -> Scan) {
    forall s {:trigger scan(s)} :: AtToken(s) && NulFree(s) && scan(s).Fail? && !Lasting(scan(s).error) ==>
      ClosesAt(scan, s, "\n" + Closer(scan(s).error))
  }

  ghost predicate ClosesAt(scan: string -> Scan, s: string, t: string) {
    !scan(s + t).Fail? && scan(s + t).rest == ""
  }

  lemma {:induction false} ErrorLasts(scan: string -> Scan, s: string, t: string, at: nat)
    requires Advances(scan) && Extends(scan) && NulFree(s) && t != "" && t[0] == '\n'
    requires LexWith(scan, s, at).Err? && Lasting(LexWith(scan, s, at).error)
    ensures LexWith(scan, s + t, at) == LexWith(scan, s, at)
    decreases |s|
  {
    assert s[0] in s;
    if IsSpace(s[0]) {
      SpaceComposes(scan, s, t, at);
      NulFreeSuffix(s, 1);
      ErrorLasts(scan, s[1..], t, at + 1);
    } else if scan(s).Fail? {
      assert ScansOn(scan, s, t) && (s + t)[0] == s[0];
    } else {
      var at' := at + |s| - |scan(s).rest|;
      NulFreeSuffix(s, |s| - |scan(s).rest|);
      FrontFails(scan, s, t, at, at');
      ErrorLasts(scan, scan(s).rest, t, at');
    }
  }

  lemma LexClosed(scan: string -> Scan, s: string, at: nat)
    requires Advances(scan) && AtToken(s) && !scan(s).Fail? && scan(s).rest == ""
    ensures LexWith(scan, s, at).Ok?
  {
    assert LexWith(scan, "", at + |s|).Ok?;
  }

  lemma {:induction false} ErrorUndone(scan: string -> Scan, s: string, at: nat)
    requires Advances(scan) && Extends(scan) && Closes(scan) && NulFree(s)
    requires LexWith(scan, s, at).Err? && !Lasting(LexWith(scan, s, at).error)
    ensures LexWith(scan, s + ("\n" + Closer(LexWith(scan, s, at).error)), at).Ok?
    decreases |s|
  {
    var t := "\n" + Closer(LexWith(scan, s, at).error);
    assert s[0] in s;
    if IsSpace(s[0]) {
      SpaceComposes(scan, s, t, at);
      NulFreeSuffix(s, 1);
      ErrorUndone(scan, s[1..], at + 1);
    } else if scan(s).Fail? {
      assert ClosesAt(scan, s, t) && (s + t)[0] == s[0];
      LexClosed(scan, s + t, at);
    } else {
      var at' := at + |s| - |scan(s).rest|;
      NulFreeSuffix(s, |s| - |scan(s).rest|);
      FrontFails(scan, s, t, at, at');
      ErrorUndone(scan, scan(s).rest, at');
    }
  }

  lemma {:induction false} CloseComment(s: string)
    requires NulFree(s) && SkipBlock(s).None?
    ensures SkipBlock(s + "\n*/") == Some("")
    decreases |s|
  {
    var t := "\n*/";
    if s == "" {
      assert s + t == t && t[1..] == "*/" && "*/"[2..] == "";
      assert SkipBlock("*/") == Some("");
    } else {
      assert s[0] in s && (s + t)[0] == s[0] && (s + t)[1..] == s[1..] + t;
      assert Peek(s + t) == if |s| > 1 then s[1] else '\n';
      NulFreeSuffix(s, 1);
      CloseComment(s[1..]);
    }
  }

  lemma {:induction false} CloseString(s: string, acc: string)
    requires NulFree(s) && TakeString(s, acc).None?
    ensures TakeString(s + "\n'", acc).Some? && TakeString(s + "\n'", acc).value.rest == ""
    decreases |s|
  {
    var t := "\n'";
    if s == "" {
      assert s + t == t && t[1..] == "'" && "'"[1..] == "";
    } else {
      assert s[0] in s && (s + t)[0] == s[0] && (s + t)[1..] == s[1..] + t;
      if s[0] == '\\' && |s| == 1 {
        assert (s + t)[2..] == "'" && "'"[1..] == "";
      } else if s[0] == '\\' {
        assert (s + t)[1] == s[1] && (s + t)[2..] == s[2..] + t;
        NulFreeSuffix(s, 2);
        CloseString(s[2..], acc + [Unescape(s[1])]);
      } else {
        NulFreeSuffix(s, 1);
        CloseString(s[1..], acc + [s[0]]);
      }
    }
  }

  lemma {:induction false} CloseQuoted(s: string, acc: string)
    requires NulFree(s) && TakeQuoted(s, acc).None?
    ensures TakeQuoted(s + "\n\"", acc).Some? && TakeQuoted(s + "\n\"", acc).value.rest == ""
    decreases |s|
  {
    var t := "\n\"";
    if s == "" {
      assert s + t == t && t[1..] == "\"" && "\""[1..] == "";
    } else {
      assert s[0] in s && (s + t)[0] == s[0] && (s + t)[1..] == s[1..] + t;
      NulFreeSuffix(s, 1);
      CloseQuoted(s[1..], acc + [s[0]]);
    }
  }

  lemma ScanCloses(kw: map<string, Keyword>, s: string)
    requires AtToken(s) && NulFree(s) && ScanFront(kw, s).Fail? && !Lasting(ScanFront(kw, s).error)
    ensures var r := ScanFront(kw, s + ("\n" + Closer(ScanFront(kw, s).error))); !r.Fail? && r.rest == ""
  {
    var t := "\n" + Closer(ScanFront(kw, s).error);
    assert (s + t)[0] == s[0] && (s + t)[1..] == s[1..] + t;
    NulFreeSuffix(s, 1);
    if s[0] == '/' && Peek(s) == '*' {
      assert t == "\n*/" && (s + t)[2..] == s[2..] + t;
      NulFreeSuffix(s, 2);
      CloseComment(s[2..]);
    } else if s[0] == '\'' {
      assert t == "\n'";
      CloseString(s[1..], "");
    } else if s[0] == '"' {
      assert t == "\n\"";
      CloseQuoted(s[1..], "");
    }
  }

  lemma ScannerCloses(kw: map<string, Keyword>)
    ensures Closes(Scanner(kw))
  {
    var scan := Scanner(kw);
    forall s | AtToken(s) && NulFree(s) && scan(s).Fail? && !Lasting(scan(s).error)
      ensures ClosesAt(scan, s, "\n" + Closer(scan(s).error))
    {
      ScanCloses(kw, s);
      assert AtToken(s + ("\n" + Closer(scan(s).error)));
    }
  }

  /** An error of s1 is the error of s1, a newline and s2, whatever s2 is, exactly when it is one of
      a whole token; something unterminated is ended by its closer. */
  lemma ErrorLastsIff(kw: map<string, Keyword>, s1: string, at: nat)
    requires NulFree(s1) && Lex(kw, s1, at).Err?
    ensures (forall s2 :: Lex(kw, s1 + "\n" + s2, at) == Lex(kw, s1, at)) <==> Lasting(Lex(kw, s1, at).error)
  {
    var scan, e := Scanner(kw), Lex(kw, s1, at).error;
    ScannerAdvances(kw);
    ScannerExtends(kw);
    if Lasting(e) {
      forall s2 ensures Lex(kw, s1 + "\n" + s2, at) == Lex(kw, s1, at) {
        assert s1 + "\n" + s2 == s1 + ("\n" + s2);
        ErrorLasts(scan, s1, "\n" + s2, at);
      }
    } else {
      ScannerCloses(kw);
      ErrorUndone(scan, s1, at);
      assert s1 + "\n" + Closer(e) == s1 + ("\n" + Closer(e));
      assert Lex(kw, s1 + "\n" + Closer(e), at).Ok?;
    }
  }

  // ----- Printing tokens and lexing them again -----

  predicate IsWordText(t: string) {
    t != "" && IsWordStart(t[0]) && forall i :: 0 <= i < |t| ==> IsWordChar(t[i])
  }

  predicate IsNumberText(t: string) {
    && t != "" && IsDigit(t[0]) && !BadNumber(t)
    && (forall i :: 0 <= i < |t| ==> IsDigit(t[i]) || t[i] == '.')
    && (forall i, j :: 0 <= i < j < |t| ==> !(t[i] == '.' && t[j] == '.'))
  }

  function Symbol(kind: TokenType): string {
    match kind
    case Equals => "=" case NotEquals => "<>" case Less => "<" case LessEqual => "<="
    case Greater => ">" case GreaterEqual => ">=" case Plus => "+" case Minus => "-"
    case Divide => "/" case Modulo => "%" case LParen => "(" case RParen => ")"
    case Comma => "," case Dot => "." case Semicolon => ";" case Star => "*"
    case _ => ""
  }

  /** The tokens other than Eof that NUL-free input can produce (see LexableIff). */
  predicate Lexable(kw: map<string, Keyword>, kind: TokenType, text: string) {
    match kind
    case Word(w) => IsWordText(text) && Upper(text) in kw && kw[Upper(text)] == w
    case Identifier => NulFree(text) && '"' !in text
    case String => NulFree(text)
    case Number => IsNumberText(text)
    case Eof => false
    case _ => text == Symbol(kind)
  }

  function Escaped(s: string): string {
    if s == "" then ""
    else (if s[0] == '\\' || s[0] == '\'' then ['\\', s[0]] else [s[0]]) + Escaped(s[1..])
  }

  /** Identifiers in double quotes, strings in single quotes with backslash and quote escaped,
      everything else as it is. */
  function Print(kind: TokenType, text: string): string {
    match kind
    case Identifier => "\"" + text + "\""
    case String => "'" + Escaped(text) + "'"
    case _ => text
  }

  /** Each token on a line of its own. */
  function PrintAll(toks: seq<Tok>): string {
    if toks == [] then "" else Print(toks[0].kind, toks[0].text) + "\n" + PrintAll(toks[1..])
  }

  lemma {:induction false} TakeWordAll(t: string, acc: string, tail: string)
    requires (forall i :: 0 <= i < |t| ==> IsWordChar(t[i])) && tail != "" && tail[0] == '\n'
    ensures TakeWord(t + tail, acc) == Piece(acc + t, tail)
    decreases |t|
  {
    if t == "" {
      assert t + tail == tail && acc + t == acc;
    } else {
      assert (t + tail)[0] == t[0] && (t + tail)[1..] == t[1..] + tail;
      TakeWordAll(t[1..], acc + [t[0]], tail);
      assert acc + [t[0]] + t[1..] == acc + t;
    }
  }

  lemma {:induction false} TakeNumberAll(t: string, dot: bool, acc: string, tail: string)
    requires forall i :: 0 <= i < |t| ==> IsDigit(t[i]) || (t[i] == '.' && !dot)
    requires forall i, j :: 0 <= i < j < |t| ==> !(t[i] == '.' && t[j] == '.')
    requires tail != "" && tail[0] == '\n'
    ensures TakeNumber(t + tail, dot, acc) == Piece(acc + t, tail)
    decreases |t|
  {
    if t == "" {
      assert t + tail == tail && acc + t == acc;
    } else {
      assert (t + tail)[0] == t[0] && (t + tail)[1..] == t[1..] + tail;
      forall i | 0 <= i < |t[1..]| ensures IsDigit(t[1..][i]) || (t[1..][i] == '.' && !(dot || t[0] == '.')) {
        assert t[1..][i] == t[i + 1];
      }
      TakeNumberAll(t[1..], dot || t[0] == '.', acc + [t[0]], tail);
      assert acc + [t[0]] + t[1..] == acc + t;
    }
  }

  lemma {:induction false} TakeQuotedAll(t: string, acc: string, tail: string)
    requires NulFree(t) && '"' !in t
    ensures TakeQuoted(t + "\"" + tail, acc) == Some(Piece(acc + t, tail))
    decreases |t|
  {
    var s := t + "\"" + tail;
    if t == "" {
      assert s[0] == '"' && s[1..] == tail && acc + t == acc;
    } else {
      assert t[0] in t && s[0] == t[0] && s[1..] == t[1..] + "\"" + tail;
      TakeQuotedAll(t[1..], acc + [t[0]], tail);
      assert acc + [t[0]] + t[1..] == acc + t;
    }
  }

  /** One printed character of a string, read back. */
  lemma TakeStringOne(c: char, more: string, acc: string)
    requires c != NUL
    ensures TakeString(Escaped([c]) + more, acc) == TakeString(more, acc + [c])
  {
    assert Escaped([c]) == if c == '\\' || c == '\'' then ['\\', c] else [c];
    if c == '\\' || c == '\'' {
      assert (['\\', c] + more)[2..] == more && Unescape(c) == c;
    } else {
      assert ([c] + more)[1..] == more;
    }
  }

  lemma {:induction false} TakeStringAll(t: string, acc: string, tail: string)
    requires NulFree(t)
    ensures TakeString(Escaped(t) + "'" + tail, acc) == Some(Piece(acc + t, tail))
    decreases |t|
  {
    if t == "" {
      var s := Escaped(t) + "'" + tail;
      assert s[0] == '\'' && s[1..] == tail && acc + t == acc;
    } else {
      var more := Escaped(t[1..]) + "'" + tail;
      assert t[0] in t && [t[0]][1..] == "";
      assert Escaped(t) + "'" + tail == Escaped([t[0]]) + more;
      TakeStringOne(t[0], more, acc);
      TakeStringAll(t[1..], acc + [t[0]], tail);
      assert acc + [t[0]] + t[1..] == acc + t;
    }
  }

  lemma LetterScansWord(kw: map<string, Keyword>, s: string)
    requires s != "" && IsWordStart(s[0])
    ensures AtToken(s) && ScanFront(kw, s) == ScanWord(kw, s)
  {
  }

  lemma PrintedWord(kw: map<string, Keyword>, text: string, tail: string)
    requires IsWordText(text) && tail != "" && tail[0] == '\n'
    ensures AtToken(text + tail) && ScanFront(kw, text + tail) == Emit(WordType(kw, text), text, tail)
  {
    assert (text + tail)[0] == text[0];
    LetterScansWord(kw, text + tail);
    TakeWordAll(text, "", tail);
    assert "" + text == text;
  }

  lemma PrintedNumber(text: string, tail: string)
    requires IsNumberText(text) && tail != "" && tail[0] == '\n'
    ensures ScanNumber(text + tail) == Emit(Number, text, tail)
  {
    TakeNumberAll(text, false, "", tail);
    assert "" + text == text;
  }

  lemma PrintedIdentifier(kw: map<string, Keyword>, text: string, tail: string)
    requires NulFree(text) && '"' !in text
    ensures var s := "\"" + text + "\"" + tail; AtToken(s) && ScanFront(kw, s) == Emit(Identifier, text, tail)
  {
    var s := "\"" + text + "\"" + tail;
    assert s[0] == '"' && s[1..] == text + "\"" + tail;
    TakeQuotedAll(text, "", tail);
    assert "" + text == text;
    QuoteScansIdentifier(kw, s, text, tail);
  }

  lemma QuoteScansIdentifier(kw: map<string, Keyword>, s: string, text: string, tail: string)
    requires s != "" && s[0] == '"' && TakeQuoted(s[1..], "") == Some(Piece(text, tail))
    ensures AtToken(s) && ScanFront(kw, s) == Emit(Identifier, text, tail)
  {
  }

  lemma PrintedString(kw: map<string, Keyword>, text: string, tail: string)
    requires NulFree(text)
    ensures var s := "'" + Escaped(text) + "'" + tail; AtToken(s) && ScanFront(kw, s) == Emit(String, text, tail)
  {
    var s := "'" + Escaped(text) + "'" + tail;
    assert s[0] == '\'' && s[1..] == Escaped(text) + "'" + tail;
    TakeStringAll(text, "", tail);
    assert "" + text == text;
  }

  lemma DigitScansNumber(kw: map<string, Keyword>, s: string)
    requires s != "" && IsDigit(s[0])
    ensures AtToken(s) && ScanFront(kw, s) == ScanNumber(s)
  {
  }

  /** A printed token is read back as that token, up to the newline after it. */
  lemma ScanPrinted(kw: map<string, Keyword>, kind: TokenType, text: string, tail: string)
    requires Lexable(kw, kind, text) && tail != "" && tail[0] == '\n'
    ensures AtToken(Print(kind, text) + tail) && ScanFront(kw, Print(kind, text) + tail) == Emit(kind, text, tail)
  {
    match kind
    case Word(w) => PrintedWord(kw, text, tail);
    case Number =>
      PrintedNumber(text, tail);
      DigitScansNumber(kw, text + tail);
    case Identifier => PrintedIdentifier(kw, text, tail);
    case String => PrintedString(kw, text, tail);
    case _ => ScanSymbol(kw, kind, tail);
  }

  lemma ScanSymbol(kw: map<string, Keyword>, kind: TokenType, tail: string)
    requires Symbol(kind) != "" && tail != "" && tail[0] == '\n'
    ensures AtToken(Symbol(kind) + tail) && ScanFront(kw, Symbol(kind) + tail) == Emit(kind, Symbol(kind), tail)
  {
    var y := Symbol(kind);
    var s := y + tail;
    assert s[0] == y[0] && s[|y|..] == tail;
    assert s[1] == if |y| == 1 then '\n' else y[1];
  }

  /** Two token lists are the same in types and values. */
  predicate SameTokens(a: seq<Tok>, b: seq<Tok>) {
    |a| == |b| && forall i :: 0 <= i < |a| ==> a[i].kind == b[i].kind && a[i].text == b[i].text
  }

  predicate AllLexable(kw: map<string, Keyword>, toks: seq<Tok>) {
    forall i :: 0 <= i < |toks| ==> Lexable(kw, toks[i].kind, toks[i].text)
  }

  /** Printed lexable tokens are read back. */
  ghost predicate ReadsBack(kw: map<string, Keyword>, scan: string -> Scan) {
    forall kind, text, tail {:trigger ReadBack(scan, kind, text, tail)} ::
      Lexable(kw, kind, text) && tail != "" && tail[0] == '\n' ==> ReadBack(scan, kind, text, tail)
  }

  ghost predicate ReadBack(scan: string -> Scan, kind: TokenType, text: string, tail: string) {
    AtToken(Print(kind, text) + tail) && scan(Print(kind, text) + tail) == Emit(kind, text, tail)
  }

  lemma ScannerReadsBack(kw: map<string, Keyword>)
    ensures ReadsBack(kw, Scanner(kw))
  {
    forall kind, text, tail | Lexable(kw, kind, text) && tail != "" && tail[0] == '\n'
      ensures ReadBack(Scanner(kw), kind, text, tail)
    {
      ScanPrinted(kw, kind, text, tail);
    }
  }

  lemma LexPrintedLine(kw: map<string, Keyword>, scan: string -> Scan, tok: Tok, tail: string, at: nat)
    requires Advances(scan) && ReadsBack(kw, scan) && Lexable(kw, tok.kind, tok.text) && tail != "" && tail[0] == '\n'
    ensures var p := Print(tok.kind, tok.text);
      LexWith(scan, p + tail, at) == Prepend(tok.(at := at), LexWith(scan, tail[1..], at + |p| + 1))
  {
    var p := Print(tok.kind, tok.text);
    assert ReadBack(scan, tok.kind, tok.text, tail);
    LexEmit(scan, p + tail, at, tok.kind, tok.text, tail, at + |p|);
    NewlineIsSkipped(scan, tail, at + |p|);
  }

  lemma LexPrintedFirst(kw: map<string, Keyword>, scan: string -> Scan, tok: Tok, more: string, at: nat)
    requires Advances(scan) && ReadsBack(kw, scan) && Lexable(kw, tok.kind, tok.text)
    ensures var p := Print(tok.kind, tok.text);
      LexWith(scan, p + "\n" + more, at) == Prepend(tok.(at := at), LexWith(scan, more, at + |p| + 1))
  {
    var tail := "\n" + more;
    assert Print(tok.kind, tok.text) + "\n" + more == Print(tok.kind, tok.text) + tail && tail[1..] == more;
    LexPrintedLine(kw, scan, tok, tail, at);
  }

  lemma PrependSame(tok: Tok, at: nat, r: LexResult, toks: seq<Tok>)
    requires r.Ok? && r.toks != [] && toks != [] && tok == toks[0] && SameTokens(Init(r.toks), toks[1..])
    ensures var p := Prepend(tok.(at := at), r); p.Ok? && p.toks != [] && SameTokens(Init(p.toks), toks)
  {
    assert Init([tok.(at := at)] + r.toks) == [tok.(at := at)] + Init(r.toks);
    assert toks == [tok] + toks[1..];
  }

  lemma {:induction false} LexPrinted(kw: map<string, Keyword>, scan: string -> Scan, toks: seq<Tok>, at: nat)
    requires Advances(scan) && ReadsBack(kw, scan) && AllLexable(kw, toks)
    ensures var r := LexWith(scan, PrintAll(toks), at); r.Ok? && SameTokens(Init(r.toks), toks)
    decreases |toks|
  {
    if toks != [] {
      var tok, later := toks[0], PrintAll(toks[1..]);
      LexPrintedFirst(kw, scan, tok, later, at);
      var next := at + |Print(tok.kind, tok.text)| + 1;
      var r := LexWith(scan, later, next);
      LexPrinted(kw, scan, toks[1..], next);
      assert r.toks != [];
      PrependSame(tok, at, r, toks);
      assert PrintAll(toks) == Print(tok.kind, tok.text) + "\n" + later;
    }
  }

  // ----- Which tokens there are -----

  lemma {:induction false} TakeWordText(s: string, acc: string)
    requires forall i :: 0 <= i < |acc| ==> IsWordChar(acc[i])
    ensures var t := TakeWord(s, acc).text; acc <= t && (forall i :: 0 <= i < |t| ==> IsWordChar(t[i]))
    ensures s != "" && IsWordChar(s[0]) ==> acc + [s[0]] <= TakeWord(s, acc).text
    decreases |s|
  {
    if s != "" && IsWordChar(s[0]) { TakeWordText(s[1..], acc + [s[0]]); }
  }

  lemma {:induction false} TakeNumberText(s: string, dot: bool, acc: string)
    requires forall i :: 0 <= i < |acc| ==> IsDigit(acc[i]) || acc[i] == '.'
    requires forall i, j :: 0 <= i < j < |acc| ==> !(acc[i] == '.' && acc[j] == '.')
    requires dot <==> '.' in acc
    ensures var t := TakeNumber(s, dot, acc).text;
      && acc <= t && (forall i :: 0 <= i < |t| ==> IsDigit(t[i]) || t[i] == '.')
      && (forall i, j :: 0 <= i < j < |t| ==> !(t[i] == '.' && t[j] == '.'))
    ensures s != "" && IsDigit(s[0]) ==> acc + [s[0]] <= TakeNumber(s, dot, acc).text
    decreases |s|
  {
    if s != "" && (IsDigit(s[0]) || (s[0] == '.' && !dot)) {
      var more := acc + [s[0]];
      assert forall i :: 0 <= i < |acc| ==> acc[i] in acc;
      TakeNumberText(s[1..], dot || s[0] == '.', more);
    }
  }

  lemma {:induction false} TakeQuotedText(s: string, acc: string)
    requires TakeQuoted(s, acc).Some? && NulFree(acc) && '"' !in acc
    ensures NulFree(TakeQuoted(s, acc).value.text) && '"' !in TakeQuoted(s, acc).value.text
    decreases |s|
  {
    if s[0] != '"' { TakeQuotedText(s[1..], acc + [s[0]]); }
  }

  lemma {:induction false} TakeStringText(s: string, acc: string)
    requires TakeString(s, acc).Some? && NulFree(s) && NulFree(acc)
    ensures NulFree(TakeString(s, acc).value.text)
    decreases |s|
  {
    if s[0] == '\\' {
      assert s[1] in s;
      TakeStringText(s[2..], acc + [Unescape(s[1])]);
    } else if s[0] != '\'' {
      assert s[0] in s;
      TakeStringText(s[1..], acc + [s[0]]);
    }
  }

  lemma ScanIsLexable(kw: map<string, Keyword>, s: string)
    requires AtToken(s) && NulFree(s) && ScanFront(kw, s).Emit?
    ensures Lexable(kw, ScanFront(kw, s).kind, ScanFront(kw, s).text)
  {
    var c := s[0];
    if c == '\'' {
      TakeStringText(s[1..], "");
    } else if c == '"' {
      TakeQuotedText(s[1..], "");
    } else if IsDigit(c) {
      TakeNumberText(s, false, "");
      assert ("" + [c])[0] == c;
    } else if IsWordStart(c) {
      TakeWordText(s, "");
      assert ("" + [c])[0] == c;
      WordIsPlain(TakeWord(s, "").text);
    }
  }

  lemma WordIsPlain(t: string)
    requires forall i :: 0 <= i < |t| ==> IsWordChar(t[i])
    ensures NulFree(t) && '"' !in t
  {
  }

  /** Every token scanned from NUL-free input is lexable. */
  ghost predicate OnlyLexable(kw: map<string, Keyword>, scan: string -> Scan) {
    forall s {:trigger scan(s)} :: AtToken(s) && NulFree(s) && scan(s).Emit? ==> Lexable(kw, scan(s).kind, scan(s).text)
  }

  lemma ScannerOnlyLexable(kw: map<string, Keyword>)
    ensures OnlyLexable(kw, Scanner(kw))
  {
    forall s | AtToken(s) && NulFree(s) && ScanFront(kw, s).Emit?
      ensures Lexable(kw, ScanFront(kw, s).kind, ScanFront(kw, s).text)
    {
      ScanIsLexable(kw, s);
    }
  }

  lemma {:induction false} LexIsLexable(kw: map<string, Keyword>, scan: string -> Scan, s: string, at: nat)
    requires Advances(scan) && OnlyLexable(kw, scan) && NulFree(s) && LexWith(scan, s, at).Ok?
    ensures AllLexable(kw, Init(LexWith(scan, s, at).toks))
    decreases |s|
  {
    if s != "" {
      assert s[0] in s;
      if IsSpace(s[0]) {
        LexIsLexable(kw, scan, s[1..], at + 1);
      } else {
        var front := scan(s);
        LexIsLexable(kw, scan, front.rest, at + |s| - |front.rest|);
        if front.Emit? {
          var more := LexWith(scan, front.rest, at + |s| - |front.rest|).toks;
          assert Init([Tok(front.kind, front.text, at)] + more) == [Tok(front.kind, front.text, at)] + Init(more);
        }
      }
    }
  }

  /** Whatever NUL-free input lexes to, printing the tokens and lexing the print gives the same
      types and values. */
  lemma PrintRoundTrip(kw: map<string, Keyword>, s: string)
    requires NulFree(s) && Lex(kw, s, 0).Ok?
    ensures var toks := Init(Lex(kw, s, 0).toks);
      var again := Lex(kw, PrintAll(toks), 0);
      again.Ok? && SameTokens(Init(again.toks), toks)
  {
    ScannerAdvances(kw);
    ScannerOnlyLexable(kw);
    ScannerReadsBack(kw);
    LexIsLexable(kw, Scanner(kw), s, 0);
    LexPrinted(kw, Scanner(kw), Init(Lex(kw, s, 0).toks), 0);
  }

  /** s lexes to some list that has the token in it, before the Eof. */
  ghost predicate Produces(kw: map<string, Keyword>, s: string, kind: TokenType, text: string) {
    NulFree(s) && Lex(kw, s, 0).Ok? && HasToken(Init(Lex(kw, s, 0).toks), kind, text)
  }

  ghost predicate HasToken(toks: seq<Tok>, kind: TokenType, text: string) {
    exists i :: 0 <= i < |toks| && toks[i].kind == kind && toks[i].text == text
  }

  lemma {:induction false} EscapedNulFree(t: string)
    requires NulFree(t)
    ensures NulFree(Escaped(t))
  {
    if t != "" {
      assert t[0] in t;
      EscapedNulFree(t[1..]);
    }
  }

  lemma PrintNulFree(kw: map<string, Keyword>, kind: TokenType, text: string)
    requires Lexable(kw, kind, text)
    ensures NulFree(Print(kind, text))
  {
    match kind
    case Word(_) => WordIsPlain(text);
    case Identifier =>
    case String => EscapedNulFree(text);
    case Number =>
    case _ =>
  }

  lemma LexableIsProduced(kw: map<string, Keyword>, kind: TokenType, text: string) returns (s: string)
    requires Lexable(kw, kind, text)
    ensures Produces(kw, s, kind, text)
  {
    s := Print(kind, text) + "\n";
    PrintNulFree(kw, kind, text);
    var one := [Tok(kind, text, 0)];
    assert PrintAll(one) == s + PrintAll(one[1..]) == s;
    ScannerAdvances(kw);
    ScannerReadsBack(kw);
    LexPrinted(kw, Scanner(kw), one, 0);
    assert Init(Lex(kw, s, 0).toks)[0].kind == kind;
  }

  /** The tokens that some NUL-free input produces are exactly the lexable ones. */
  lemma LexableIff(kw: map<string, Keyword>, kind: TokenType, text: string)
    ensures Lexable(kw, kind, text) <==> exists s :: Produces(kw, s, kind, text)
  {
    if Lexable(kw, kind, text) {
      var s := LexableIsProduced(kw, kind, text);
    }
    if s :| Produces(kw, s, kind, text) {
      ScannerAdvances(kw);
      ScannerOnlyLexable(kw);
      LexIsLexable(kw, Scanner(kw), s, 0);
    }
  }
}
