/**
 What src/sql_lexer.cpp makes of each kind of text, said of the whole tokenization and in
 characters: where a token starts and ends, its type and value, and the errors.
 */
module Tokens {
  import opened Options
  import opened Lexing

  // ----- One scan, seen from the whole input -----

  lemma ScannerIsFront(kw: map<string, Keyword>, s: string)
    requires AtToken(s)
    ensures Scanner(kw)(s) == ScanFront(kw, s)
  {
  }

  lemma EmitsWith(scan: string -> Scan, s: string, at: nat, kind: TokenType, text: string, rest: string, next: nat)
    requires Advances(scan) && AtToken(s) && scan(s) == Emit(kind, text, rest) && next == at + |s| - |rest|
    ensures LexWith(scan, s, at) == Prepend(Tok(kind, text, at), LexWith(scan, rest, next))
  {
  }

  lemma Emits(kw: map<string, Keyword>, s: string, at: nat, kind: TokenType, text: string, rest: string, next: nat)
    requires AtToken(s) && ScanFront(kw, s) == Emit(kind, text, rest) && next == at + |s| - |rest|
    ensures Lex(kw, s, at) == Prepend(Tok(kind, text, at), Lex(kw, rest, next))
  {
    ScannerIsFront(kw, s);
    ScannerAdvances(kw);
    EmitsWith(Scanner(kw), s, at, kind, text, rest, next);
  }

  lemma SkipsWith(scan: string -> Scan, s: string, at: nat, rest: string, next: nat)
    requires Advances(scan) && AtToken(s) && scan(s) == Skip(rest) && next == at + |s| - |rest|
    ensures LexWith(scan, s, at) == LexWith(scan, rest, next)
  {
  }

  lemma Skips(kw: map<string, Keyword>, s: string, at: nat, rest: string, next: nat)
    requires AtToken(s) && ScanFront(kw, s) == Skip(rest) && next == at + |s| - |rest|
    ensures Lex(kw, s, at) == Lex(kw, rest, next)
  {
    ScannerIsFront(kw, s);
    ScannerAdvances(kw);
    SkipsWith(Scanner(kw), s, at, rest, next);
  }

  lemma FailsWith(scan: string -> Scan, s: string, at: nat, e: Error)
    requires Advances(scan) && AtToken(s) && scan(s) == Fail(e)
    ensures LexWith(scan, s, at) == Err(e)
  {
  }

  lemma Fails(kw: map<string, Keyword>, s: string, at: nat, e: Error)
    requires AtToken(s) && ScanFront(kw, s) == Fail(e)
    ensures Lex(kw, s, at) == Err(e)
  {
    ScannerIsFront(kw, s);
    ScannerAdvances(kw);
    FailsWith(Scanner(kw), s, at, e);
  }

  // ----- Nothing, and white space -----

  /** At the end of the input, and at a NUL, there is only the end marker. */
  lemma EndMeans(kw: map<string, Keyword>, s: string, at: nat)
    requires s == "" || s[0] as int == 0
    ensures Lex(kw, s, at) == Ok([Tok(Eof, "", at)])
  {
    ScannerAdvances(kw);
  }

  /** A space and the five control characters from tab to carriage return are passed over. */
  lemma SpaceMeans(kw: map<string, Keyword>, c: char, s: string, at: nat)
    requires c as int == 32 || 9 <= c as int <= 13
    ensures Lex(kw, [c] + s, at) == Lex(kw, s, at + 1)
  {
    ScannerAdvances(kw);
    assert ([c] + s)[1..] == s;
  }

  // ----- Words -----

  predicate Letter(c: char) { 65 <= c as int <= 90 || 97 <= c as int <= 122 }

  predicate Digit(c: char) { 48 <= c as int <= 57 }

  predicate InWord(c: char) { Letter(c) || Digit(c) || c == '_' }

  /** Letters, digits and underscores, the first not a digit. */
  predicate WordText(t: string) {
    t != "" && !Digit(t[0]) && forall i :: 0 <= i < |t| ==> InWord(t[i])
  }

  /** k is t with its small letters made capital. */
  predicate Capitals(t: string, k: string) {
    |t| == |k| && forall i :: 0 <= i < |t| ==>
      if 97 <= t[i] as int <= 122 then k[i] as int == t[i] as int - 32 else k[i] == t[i]
  }

  /** The type of a word: that of the key which it matches in any mixture of cases, if any. */
  ghost predicate WordHasType(kw: map<string, Keyword>, t: string, kind: TokenType) {
    && (forall k :: k in kw && Capitals(t, k) ==> kind == Word(kw[k]))
    && ((forall k :: k in kw ==> !Capitals(t, k)) ==> kind == Identifier)
  }

  lemma UpperIsCapitals(t: string, k: string)
    ensures Capitals(t, k) <==> k == Upper(t)
  {
    if Capitals(t, k) {
      assert forall i :: 0 <= i < |t| ==> k[i] == Upper(t)[i];
    }
  }

  lemma {:induction false} TakeWordStops(t: string, acc: string, rest: string)
    requires (forall i :: 0 <= i < |t| ==> InWord(t[i])) && (rest == "" || !InWord(rest[0]))
    ensures TakeWord(t + rest, acc) == Piece(acc + t, rest)
    decreases |t|
  {
    if t == "" {
      assert t + rest == rest && acc + t == acc;
    } else {
      assert (t + rest)[1..] == t[1..] + rest && acc + [t[0]] + t[1..] == acc + t;
      TakeWordStops(t[1..], acc + [t[0]], rest);
    }
  }

  lemma WordScans(kw: map<string, Keyword>, t: string, rest: string, kind: TokenType)
    requires WordText(t) && (rest == "" || !InWord(rest[0])) && WordHasType(kw, t, kind)
    ensures AtToken(t + rest) && ScanFront(kw, t + rest) == Emit(kind, t, rest)
  {
    assert (t + rest)[0] == t[0] && InWord(t[0]);
    LetterScansWord(kw, t + rest);
    TakeWordStops(t, "", rest);
    assert "" + t == t;
    KeyIsUpper(kw, t, kind);
  }

  lemma KeyIsUpper(kw: map<string, Keyword>, t: string, kind: TokenType)
    requires WordHasType(kw, t, kind)
    ensures WordType(kw, t) == kind
  {
    UpperIsCapitals(t, Upper(t));
    forall k | k in kw && Capitals(t, k) ensures k == Upper(t) { UpperIsCapitals(t, k); }
  }

  /** A word, as far as it goes, is one token with its text as it was written.  It is a keyword
      exactly when, in capitals, it is in the table. */
  lemma WordMeans(kw: map<string, Keyword>, t: string, rest: string, at: nat, kind: TokenType)
    requires WordText(t) && (rest == "" || !InWord(rest[0])) && WordHasType(kw, t, kind)
    ensures Lex(kw, t + rest, at) == Prepend(Tok(kind, t, at), Lex(kw, rest, at + |t|))
  {
    WordScans(kw, t, rest, kind);
    Emits(kw, t + rest, at, kind, t, rest, at + |t|);
  }

  lemma KeyGivesType(kw: map<string, Keyword>, t: string, k: string)
    requires k in kw && Capitals(t, k)
    ensures WordHasType(kw, t, Word(kw[k]))
  {
    UpperIsCapitals(t, k);
    forall k' | k' in kw && Capitals(t, k') ensures k' == k { UpperIsCapitals(t, k'); }
  }

  lemma OneToken(kw: map<string, Keyword>, t: string, kind: TokenType)
    requires Lex(kw, t + "", 0) == Prepend(Tok(kind, t, 0), Lex(kw, "", |t|))
    ensures Lex(kw, t, 0) == Ok([Tok(kind, t, 0), Tok(Eof, "", |t|)])
  {
    assert t + "" == t;
    EndMeans(kw, "", |t|);
  }

  /** A word alone that matches a key. */
  lemma KeywordAlone(kw: map<string, Keyword>, t: string, k: string)
    requires WordText(t) && k in kw && Capitals(t, k)
    ensures Lex(kw, t, 0) == Ok([Tok(Word(kw[k]), t, 0), Tok(Eof, "", |t|)])
  {
    KeyGivesType(kw, t, k);
    WordMeans(kw, t, "", 0, Word(kw[k]));
    OneToken(kw, t, Word(kw[k]));
  }

  /** A word alone that matches no key. */
  lemma IdentifierAlone(kw: map<string, Keyword>, t: string)
    requires WordText(t) && forall k :: k in kw ==> !Capitals(t, k)
    ensures Lex(kw, t, 0) == Ok([Tok(Identifier, t, 0), Tok(Eof, "", |t|)])
  {
    WordMeans(kw, t, "", 0, Identifier);
    OneToken(kw, t, Identifier);
  }

  // ----- The keyword table -----

  predicate Entry(table: map<string, Keyword>, k: string, w: Keyword) {
    k in table && table[k] == w
  }

  lemma StatementEntries()
    ensures Entry(STATEMENT_WORDS, "SELECT", SELECT) && Entry(STATEMENT_WORDS, "FROM", FROM)
    ensures Entry(STATEMENT_WORDS, "WHERE", WHERE) && Entry(STATEMENT_WORDS, "INSERT", INSERT)
    ensures Entry(STATEMENT_WORDS, "INTO", INTO) && Entry(STATEMENT_WORDS, "VALUES", VALUES)
    ensures Entry(STATEMENT_WORDS, "UPDATE", UPDATE) && Entry(STATEMENT_WORDS, "SET", SET)
    ensures Entry(STATEMENT_WORDS, "DELETE", DELETE) && Entry(STATEMENT_WORDS, "CREATE", CREATE)
    ensures Entry(STATEMENT_WORDS, "TABLE", TABLE) && Entry(STATEMENT_WORDS, "DROP", DROP)
    ensures Entry(STATEMENT_WORDS, "ALTER", ALTER) && Entry(STATEMENT_WORDS, "ADD", ADD)
    ensures Entry(STATEMENT_WORDS, "MODIFY", MODIFY)
  {
  }

  lemma SchemaEntries()
    ensures Entry(SCHEMA_WORDS, "PRIMARY", PRIMARY) && Entry(SCHEMA_WORDS, "KEY", KEY)
    ensures Entry(SCHEMA_WORDS, "NOT", NOT_KEYWORD) && Entry(SCHEMA_WORDS, "NULL", NULL_KEYWORD)
    ensures Entry(SCHEMA_WORDS, "UNIQUE", UNIQUE) && Entry(SCHEMA_WORDS, "FOREIGN", FOREIGN)
    ensures Entry(SCHEMA_WORDS, "REFERENCES", REFERENCES) && Entry(SCHEMA_WORDS, "DEFAULT", DEFAULT)
    ensures Entry(SCHEMA_WORDS, "CHECK", CHECK) && Entry(SCHEMA_WORDS, "CONSTRAINT", CONSTRAINT)
  {
  }

  lemma ClauseEntries()
    ensures Entry(CLAUSE_WORDS, "AND", AND) && Entry(CLAUSE_WORDS, "OR", OR)
    ensures Entry(CLAUSE_WORDS, "IN", IN) && Entry(CLAUSE_WORDS, "BETWEEN", BETWEEN)
    ensures Entry(CLAUSE_WORDS, "LIKE", LIKE) && Entry(CLAUSE_WORDS, "IS", IS)
    ensures Entry(CLAUSE_WORDS, "ORDER", ORDER) && Entry(CLAUSE_WORDS, "BY", BY)
    ensures Entry(CLAUSE_WORDS, "GROUP", GROUP) && Entry(CLAUSE_WORDS, "HAVING", HAVING)
    ensures Entry(CLAUSE_WORDS, "LIMIT", LIMIT) && Entry(CLAUSE_WORDS, "OFFSET", OFFSET)
    ensures Entry(CLAUSE_WORDS, "DISTINCT", DISTINCT)
  {
  }

  lemma JoinEntries()
    ensures Entry(JOIN_WORDS, "INNER", INNER) && Entry(JOIN_WORDS, "LEFT", LEFT)
    ensures Entry(JOIN_WORDS, "RIGHT", RIGHT) && Entry(JOIN_WORDS, "FULL", FULL)
    ensures Entry(JOIN_WORDS, "OUTER", OUTER) && Entry(JOIN_WORDS, "JOIN", JOIN)
    ensures Entry(JOIN_WORDS, "ON", ON) && Entry(JOIN_WORDS, "USING", USING)
    ensures Entry(JOIN_WORDS, "UNION", UNION) && Entry(JOIN_WORDS, "INTERSECT", INTERSECT)
    ensures Entry(JOIN_WORDS, "EXCEPT", EXCEPT)
  {
  }

  lemma CaseEntries()
    ensures Entry(CASE_WORDS, "CASE", CASE) && Entry(CASE_WORDS, "WHEN", WHEN)
    ensures Entry(CASE_WORDS, "THEN", THEN) && Entry(CASE_WORDS, "ELSE", ELSE)
    ensures Entry(CASE_WORDS, "END", END) && Entry(CASE_WORDS, "AS", AS)
    ensures Entry(CASE_WORDS, "ASC", ASC) && Entry(CASE_WORDS, "DESC", DESC)
  {
  }

  lemma TypeEntries()
    ensures Entry(TYPE_WORDS, "INT", INT) && Entry(TYPE_WORDS, "BIGINT", BIGINT)
    ensures Entry(TYPE_WORDS, "FLOAT", FLOAT) && Entry(TYPE_WORDS, "DOUBLE", DOUBLE)
    ensures Entry(TYPE_WORDS, "DECIMAL", DECIMAL) && Entry(TYPE_WORDS, "VARCHAR", VARCHAR)
    ensures Entry(TYPE_WORDS, "CHAR", CHAR) && Entry(TYPE_WORDS, "BOOLEAN", BOOLEAN)
    ensures Entry(TYPE_WORDS, "DATE", DATE) && Entry(TYPE_WORDS, "TIMESTAMP", TIMESTAMP)
    ensures Entry(TYPE_WORDS, "TEXT", TEXT) && Entry(TYPE_WORDS, "BLOB", BLOB)
  {
  }

  lemma OnlyStatementEntries(k: string)
    requires k in STATEMENT_WORDS
    ensures
      || k == "SELECT" || k == "FROM" || k == "WHERE" || k == "INSERT" || k == "INTO" || k == "VALUES"
      || k == "UPDATE" || k == "SET" || k == "DELETE" || k == "CREATE" || k == "TABLE" || k == "DROP"
      || k == "ALTER" || k == "ADD" || k == "MODIFY"
  {
  }

  lemma OnlySchemaEntries(k: string)
    requires k in SCHEMA_WORDS
    ensures
      || k == "PRIMARY" || k == "KEY" || k == "NOT" || k == "NULL" || k == "UNIQUE" || k == "FOREIGN"
      || k == "REFERENCES" || k == "DEFAULT" || k == "CHECK" || k == "CONSTRAINT"
  {
  }

  lemma OnlyClauseEntries(k: string)
    requires k in CLAUSE_WORDS
    ensures
      || k == "AND" || k == "OR" || k == "IN" || k == "BETWEEN" || k == "LIKE" || k == "IS"
      || k == "ORDER" || k == "BY" || k == "GROUP" || k == "HAVING" || k == "LIMIT" || k == "OFFSET"
      || k == "DISTINCT"
  {
  }

  lemma OnlyJoinEntries(k: string)
    requires k in JOIN_WORDS
    ensures
      || k == "INNER" || k == "LEFT" || k == "RIGHT" || k == "FULL" || k == "OUTER" || k == "JOIN"
      || k == "ON" || k == "USING" || k == "UNION" || k == "INTERSECT" || k == "EXCEPT"
  {
  }

  lemma OnlyCaseEntries(k: string)
    requires k in CASE_WORDS
    ensures
      || k == "CASE" || k == "WHEN" || k == "THEN" || k == "ELSE" || k == "END" || k == "AS"
      || k == "ASC" || k == "DESC"
  {
  }

  lemma OnlyTypeEntries(k: string)
    requires k in TYPE_WORDS
    ensures
      || k == "INT" || k == "BIGINT" || k == "FLOAT" || k == "DOUBLE" || k == "DECIMAL"
      || k == "VARCHAR" || k == "CHAR" || k == "BOOLEAN" || k == "DATE" || k == "TIMESTAMP"
      || k == "TEXT" || k == "BLOB"
  {
  }

  lemma JoinedEntry(a: map<string, Keyword>, b: map<string, Keyword>, k: string)
    ensures k in a + b <==> k in a || k in b
    ensures k in a + b ==> Entry(a, k, (a + b)[k]) || Entry(b, k, (a + b)[k])
  {
  }

  lemma PartsEntry(a: map<string, Keyword>, b: map<string, Keyword>, c: map<string, Keyword>, d: map<string, Keyword>,
                   e: map<string, Keyword>, f: map<string, Keyword>, k: string, all: map<string, Keyword>)
    requires all == a + b + c + d + e + f
    ensures k in all <==> k in a || k in b || k in c || k in d || k in e || k in f
    ensures k in all ==> Entry(a, k, all[k]) || Entry(b, k, all[k]) || Entry(c, k, all[k]) || Entry(d, k, all[k])
                         || Entry(e, k, all[k]) || Entry(f, k, all[k])
  {
    JoinedEntry(a, b, k);
    JoinedEntry(a + b, c, k);
    JoinedEntry(a + b + c, d, k);
    JoinedEntry(a + b + c + d, e, k);
    JoinedEntry(a + b + c + d + e, f, k);
  }

  /** A keyword is an entry of one of the parts, and every entry is a keyword. */
  lemma TableMeans(k: string)
    ensures k in KEYWORDS <==> k in STATEMENT_WORDS || k in SCHEMA_WORDS || k in CLAUSE_WORDS || k in JOIN_WORDS
                               || k in CASE_WORDS || k in TYPE_WORDS
    ensures k in KEYWORDS ==>
              || Entry(STATEMENT_WORDS, k, KEYWORDS[k]) || Entry(SCHEMA_WORDS, k, KEYWORDS[k])
              || Entry(CLAUSE_WORDS, k, KEYWORDS[k]) || Entry(JOIN_WORDS, k, KEYWORDS[k])
              || Entry(CASE_WORDS, k, KEYWORDS[k]) || Entry(TYPE_WORDS, k, KEYWORDS[k])
  {
    PartsEntry(STATEMENT_WORDS, SCHEMA_WORDS, CLAUSE_WORDS, JOIN_WORDS, CASE_WORDS, TYPE_WORDS, k, KEYWORDS);
  }

  lemma SelectIsStatement()
    ensures "SELECT" !in SCHEMA_WORDS && "SELECT" !in CLAUSE_WORDS && "SELECT" !in JOIN_WORDS
    ensures "SELECT" !in CASE_WORDS && "SELECT" !in TYPE_WORDS
  {
  }

  lemma SelectEntry()
    ensures Entry(KEYWORDS, "SELECT", SELECT)
  {
    StatementEntries();
    SelectIsStatement();
    TableMeans("SELECT");
  }

  lemma SelectAlone(kw: map<string, Keyword>, t: string)
    requires Entry(kw, "SELECT", SELECT) && Capitals(t, "SELECT")
    ensures Lex(kw, t, 0) == Ok([Tok(Word(SELECT), t, 0), Tok(Eof, "", 6)])
  {
    CapitalsAreWord(t, "SELECT");
    KeywordAlone(kw, t, "SELECT");
  }

  /** SELECT, in any mixture of cases. */
  lemma SelectIsSelect(t: string)
    requires Capitals(t, "SELECT")
    ensures Lex(KEYWORDS, t, 0) == Ok([Tok(Word(SELECT), t, 0), Tok(Eof, "", 6)])
  {
    SelectEntry();
    SelectAlone(KEYWORDS, t);
  }

  lemma CapitalsAreWord(t: string, k: string)
    requires Capitals(t, k) && WordText(k)
    ensures WordText(t)
  {
  }

  // ----- Numbers -----

  /** Digits, with at most one dot, which is not the first character. */
  predicate NumberText(t: string) {
    && t != "" && Digit(t[0]) && (forall i :: 0 <= i < |t| ==> Digit(t[i]) || t[i] == '.')
    && forall i, j :: 0 <= i < j < |t| ==> !(t[i] == '.' && t[j] == '.')
  }

  /** What follows does not belong to the number. */
  predicate EndsNumber(t: string, rest: string) {
    rest == "" || (!Digit(rest[0]) && (rest[0] == '.' ==> '.' in t))
  }

  lemma NoSecondDot(acc: string, t: string)
    requires '.' in acc && t != ""
    requires forall i, j :: 0 <= i < j < |acc + t| ==> !((acc + t)[i] == '.' && (acc + t)[j] == '.')
    ensures t[0] != '.'
  {
    var i :| 0 <= i < |acc| && acc[i] == '.';
    assert (acc + t)[i] == '.' && (acc + t)[|acc|] == t[0];
  }

  lemma {:induction false} TakeNumberStops(t: string, acc: string, rest: string)
    requires (forall i :: 0 <= i < |t| ==> Digit(t[i]) || t[i] == '.')
    requires forall i, j :: 0 <= i < j < |acc + t| ==> !((acc + t)[i] == '.' && (acc + t)[j] == '.')
    requires rest == "" || (!Digit(rest[0]) && (rest[0] == '.' ==> '.' in acc + t))
    ensures TakeNumber(t + rest, '.' in acc, acc) == Piece(acc + t, rest)
    decreases |t|
  {
    if t == "" {
      assert t + rest == rest && acc + t == acc;
    } else {
      var acc' := acc + [t[0]];
      assert (t + rest)[1..] == t[1..] + rest && acc' + t[1..] == acc + t;
      if '.' in acc { NoSecondDot(acc, t); }
      assert '.' in acc' <==> '.' in acc || t[0] == '.';
      TakeNumberStops(t[1..], acc', rest);
    }
  }

  lemma NumberScans(kw: map<string, Keyword>, t: string, rest: string)
    requires NumberText(t) && EndsNumber(t, rest)
    ensures AtToken(t + rest)
    ensures ScanFront(kw, t + rest)
      == if '.' !in t && |t| > 1 && t[0] as int == 48 then Fail(InvalidNumber) else Emit(Number, t, rest)
  {
    assert (t + rest)[0] == t[0] && "" + t == t;
    DigitScansNumber(kw, t + rest);
    TakeNumberStops(t, "", rest);
  }

  /** A number, as far as it goes, is one token; but one that starts with a zero and goes on
      without a dot is an error. */
  lemma NumberMeans(kw: map<string, Keyword>, t: string, rest: string, at: nat)
    requires NumberText(t) && EndsNumber(t, rest)
    ensures Lex(kw, t + rest, at)
      == if '.' !in t && |t| > 1 && t[0] as int == 48 then Err(InvalidNumber)
         else Prepend(Tok(Number, t, at), Lex(kw, rest, at + |t|))
  {
    NumberScans(kw, t, rest);
    if '.' !in t && |t| > 1 && t[0] as int == 48 {
      Fails(kw, t + rest, at, InvalidNumber);
    } else {
      Emits(kw, t + rest, at, Number, t, rest, at + |t|);
    }
  }

  // ----- Strings -----

  /** A string as it is written: characters, and characters behind a backslash. */
  datatype Item = Plain(c: char) | Escaped_(c: char)

  predicate Writable(items: seq<Item>) {
    forall i :: 0 <= i < |items| ==>
      items[i].c as int != 0 && (items[i].Plain? ==> items[i].c != '\'' && items[i].c as int != 92)
  }

  function WrittenItem(i: Item): string {
    if i.Plain? then [i.c] else [92 as char, i.c]
  }

  function Written(items: seq<Item>): string {
    if items == [] then "" else WrittenItem(items[0]) + Written(items[1..])
  }

  /** n, t and r behind a backslash are line feed, tab and carriage return; anything else is itself. */
  function Stands(i: Item): char {
    if i.Plain? then i.c
    else if i.c as int == 110 then 10 as char
    else if i.c as int == 116 then 9 as char
    else if i.c as int == 114 then 13 as char
    else i.c
  }

  function Meant(items: seq<Item>): string {
    seq(|items|, i requires 0 <= i < |items| => Stands(items[i]))
  }

  lemma TakeItem(i: Item, more: string, acc: string)
    requires Writable([i])
    ensures TakeString(WrittenItem(i) + more, acc) == TakeString(more, acc + [Stands(i)])
  {
    assert [i][0] == i;
    var s := WrittenItem(i) + more;
    if i.Plain? {
      assert s[1..] == more;
    } else {
      assert s[2..] == more && s[0] == '\\';
    }
  }

  lemma MeantFirst(items: seq<Item>)
    requires items != []
    ensures Meant(items) == [Stands(items[0])] + Meant(items[1..])
  {
  }

  lemma {:induction false} TakeItems(items: seq<Item>, more: string, acc: string)
    requires Writable(items)
    ensures TakeString(Written(items) + more, acc) == TakeString(more, acc + Meant(items))
    decreases |items|
  {
    if items == [] {
      assert Written(items) + more == more && acc + Meant(items) == acc;
    } else {
      var first, later := items[0], items[1..];
      assert Written(items) + more == WrittenItem(first) + (Written(later) + more);
      TakeItem(first, Written(later) + more, acc);
      TakeItems(later, more, acc + [Stands(first)]);
      MeantFirst(items);
      assert acc + [Stands(first)] + Meant(later) == acc + ([Stands(first)] + Meant(later));
    }
  }

  lemma QuoteScansString(kw: map<string, Keyword>, s: string)
    requires s != "" && s[0] == '\''
    ensures AtToken(s)
    ensures ScanFront(kw, s)
      == match TakeString(s[1..], "") case None => Fail(UnterminatedString) case Some(p) => Emit(String, p.text, p.rest)
  {
  }

  lemma StringScans(kw: map<string, Keyword>, items: seq<Item>, rest: string)
    requires Writable(items)
    ensures var s := "'" + Written(items) + "'" + rest;
      AtToken(s) && ScanFront(kw, s) == Emit(String, Meant(items), rest)
  {
    var s := "'" + Written(items) + "'" + rest;
    assert s[1..] == Written(items) + ("'" + rest) && ("'" + rest)[1..] == rest;
    QuoteScansString(kw, s);
    TakeItems(items, "'" + rest, "");
    assert "" + Meant(items) == Meant(items);
  }

  /** A string in single quotes is one token with what its items stand for. */
  lemma StringMeans(kw: map<string, Keyword>, items: seq<Item>, rest: string, at: nat)
    requires Writable(items)
    ensures Lex(kw, "'" + Written(items) + "'" + rest, at)
      == Prepend(Tok(String, Meant(items), at), Lex(kw, rest, at + |Written(items)| + 2))
  {
    StringScans(kw, items, rest);
    Emits(kw, "'" + Written(items) + "'" + rest, at, String, Meant(items), rest, at + |Written(items)| + 2);
  }

  /** Without the closing quote it is an error; also with a backslash in its place. */
  lemma OpenStringMeans(kw: map<string, Keyword>, items: seq<Item>, tail: string, at: nat)
    requires Writable(items) && (tail == "" || tail == [92 as char])
    ensures Lex(kw, "'" + Written(items) + tail, at) == Err(UnterminatedString)
  {
    var s := "'" + Written(items) + tail;
    assert s[1..] == Written(items) + tail;
    QuoteScansString(kw, s);
    TakeItems(items, tail, "");
    Fails(kw, s, at, UnterminatedString);
  }

  // ----- Identifiers in quotes -----

  predicate Quotable(t: string) {
    forall i :: 0 <= i < |t| ==> t[i] != '"' && t[i] as int != 0
  }

  lemma {:induction false} TakeQuotedStops(t: string, acc: string, rest: string)
    requires Quotable(t)
    ensures TakeQuoted(t + ("\"" + rest), acc) == Some(Piece(acc + t, rest)) && TakeQuoted(t, acc) == None
    decreases |t|
  {
    var s := t + ("\"" + rest);
    if t == "" {
      assert s == "\"" + rest && ("\"" + rest)[1..] == rest && acc + t == acc;
    } else {
      assert s[1..] == t[1..] + ("\"" + rest) && acc + [t[0]] + t[1..] == acc + t;
      TakeQuotedStops(t[1..], acc + [t[0]], rest);
    }
  }

  lemma QuoteScansQuoted(kw: map<string, Keyword>, s: string)
    requires s != "" && s[0] == '"'
    ensures AtToken(s)
    ensures ScanFront(kw, s)
      == match TakeQuoted(s[1..], "")
         case None => Fail(UnterminatedIdentifier)
         case Some(p) => Emit(Identifier, p.text, p.rest)
  {
  }

  lemma QuotedScans(kw: map<string, Keyword>, t: string, rest: string)
    requires Quotable(t)
    ensures var s := "\"" + t + "\"" + rest; AtToken(s) && ScanFront(kw, s) == Emit(Identifier, t, rest)
  {
    var s := "\"" + t + "\"" + rest;
    assert s[1..] == t + ("\"" + rest) && "" + t == t;
    TakeQuotedStops(t, "", rest);
    QuoteScansQuoted(kw, s);
  }

  /** Anything in double quotes is an identifier, a keyword too. */
  lemma QuotedMeans(kw: map<string, Keyword>, t: string, rest: string, at: nat)
    requires Quotable(t)
    ensures Lex(kw, "\"" + t + "\"" + rest, at) == Prepend(Tok(Identifier, t, at), Lex(kw, rest, at + |t| + 2))
  {
    QuotedScans(kw, t, rest);
    Emits(kw, "\"" + t + "\"" + rest, at, Identifier, t, rest, at + |t| + 2);
  }

  /** Without the closing quote it is an error. */
  lemma OpenQuotedMeans(kw: map<string, Keyword>, t: string, at: nat)
    requires Quotable(t)
    ensures Lex(kw, "\"" + t, at) == Err(UnterminatedIdentifier)
  {
    assert ("\"" + t)[1..] == t;
    TakeQuotedStops(t, "", "");
    QuoteScansQuoted(kw, "\"" + t);
    Fails(kw, "\"" + t, at, UnterminatedIdentifier);
  }

  // ----- Comments -----

  lemma {:induction false} SkipLineStops(t: string, rest: string)
    requires forall i :: 0 <= i < |t| ==> t[i] as int != 10 && t[i] as int != 0
    ensures SkipLine(t + ("\n" + rest)) == rest && SkipLine(t) == ""
    decreases |t|
  {
    var s := t + ("\n" + rest);
    if t == "" {
      assert s == "\n" + rest && ("\n" + rest)[1..] == rest;
    } else {
      assert s[1..] == t[1..] + ("\n" + rest);
      SkipLineStops(t[1..], rest);
    }
  }

  lemma DashesScanComment(kw: map<string, Keyword>, s: string)
    requires |s| >= 2 && s[0] == '-' && s[1] == '-'
    ensures AtToken(s) && ScanFront(kw, s) == Skip(SkipLine(s[1..]))
  {
  }

  predicate OneLine(t: string) {
    forall i :: 0 <= i < |t| ==> t[i] as int != 10 && t[i] as int != 0
  }

  /** Two dashes: passed over up to and including the next newline. */
  lemma LineCommentMeans(kw: map<string, Keyword>, t: string, rest: string, at: nat)
    requires OneLine(t)
    ensures Lex(kw, "--" + t + "\n" + rest, at) == Lex(kw, rest, at + |t| + 3)
  {
    var s := "--" + t + "\n" + rest;
    assert s[1..] == ("-" + t) + ("\n" + rest);
    SkipLineStops("-" + t, rest);
    DashesScanComment(kw, s);
    Skips(kw, s, at, rest, at + |t| + 3);
  }

  /** Without a newline, up to the end. */
  lemma LastLineCommentMeans(kw: map<string, Keyword>, t: string, at: nat)
    requires OneLine(t)
    ensures Lex(kw, "--" + t, at) == Ok([Tok(Eof, "", at + |t| + 2)])
  {
    var s := "--" + t;
    assert s[1..] == "-" + t;
    SkipLineStops("-" + t, "");
    DashesScanComment(kw, s);
    Skips(kw, s, at, "", at + |t| + 2);
    EndMeans(kw, "", at + |t| + 2);
  }

  /** An asterisk and a slash stand at place i. */
  predicate EndsAt(s: string, i: int) {
    0 <= i < |s| - 1 && s[i] == '*' && s[i + 1] == '/'
  }

  lemma {:induction false} SkipBlockStops(t: string, rest: string)
    requires (forall i :: 0 <= i < |t| ==> t[i] as int != 0 && !EndsAt(t + "*/", i))
    ensures SkipBlock(t + ("*/" + rest)) == Some(rest)
    decreases |t|
  {
    var s := t + ("*/" + rest);
    if t == "" {
      assert s == "*/" + rest && ("*/" + rest)[2..] == rest;
    } else {
      assert s[1..] == t[1..] + ("*/" + rest);
      assert !EndsAt(t + "*/", 0) && s[0] == (t + "*/")[0] && s[1] == (t + "*/")[1];
      forall i | 0 <= i < |t[1..]| ensures t[1..][i] as int != 0 && !EndsAt(t[1..] + "*/", i) {
        assert (t + "*/")[1..] == t[1..] + "*/";
        assert !EndsAt(t + "*/", i + 1);
      }
      SkipBlockStops(t[1..], rest);
    }
  }

  lemma {:induction false} SkipBlockOpen(t: string)
    requires forall i :: 0 <= i < |t| ==> t[i] as int != 0 && !EndsAt(t, i)
    ensures SkipBlock(t) == None
    decreases |t|
  {
    if t != "" {
      assert !EndsAt(t, 0);
      forall i | 0 <= i < |t[1..]| ensures t[1..][i] as int != 0 && !EndsAt(t[1..], i) { assert !EndsAt(t, i + 1); }
      SkipBlockOpen(t[1..]);
    }
  }

  lemma SlashScansComment(kw: map<string, Keyword>, s: string)
    requires |s| >= 2 && s[0] == '/' && s[1] == '*'
    ensures AtToken(s)
    ensures ScanFront(kw, s)
      == match SkipBlock(s[2..]) case None => Fail(UnterminatedComment) case Some(rest) => Skip(rest)
  {
  }

  /** A slash and an asterisk: passed over up to the first asterisk and slash after them. */
  lemma BlockCommentMeans(kw: map<string, Keyword>, t: string, rest: string, at: nat)
    requires forall i :: 0 <= i < |t| ==> t[i] as int != 0 && !EndsAt(t + "*/", i)
    ensures Lex(kw, "/*" + t + "*/" + rest, at) == Lex(kw, rest, at + |t| + 4)
  {
    var s := "/*" + t + "*/" + rest;
    assert s[2..] == t + ("*/" + rest);
    SkipBlockStops(t, rest);
    SlashScansComment(kw, s);
    Skips(kw, s, at, rest, at + |t| + 4);
  }

  /** Without them it is an error. */
  lemma OpenCommentMeans(kw: map<string, Keyword>, t: string, at: nat)
    requires forall i :: 0 <= i < |t| ==> t[i] as int != 0 && !EndsAt(t, i)
    ensures Lex(kw, "/*" + t, at) == Err(UnterminatedComment)
  {
    assert ("/*" + t)[2..] == t;
    SkipBlockOpen(t);
    SlashScansComment(kw, "/*" + t);
    Fails(kw, "/*" + t, at, UnterminatedComment);
  }

  // ----- Operators and punctuation -----

  /** The symbols and their types. */
  predicate SymbolHasType(t: string, kind: TokenType) {
    match t
    case "(" => kind == LParen
    case ")" => kind == RParen
    case "," => kind == Comma
    case "." => kind == Dot
    case ";" => kind == Semicolon
    case "*" => kind == Star
    case "=" => kind == Equals
    case "+" => kind == Plus
    case "-" => kind == Minus
    case "/" => kind == Divide
    case "%" => kind == Modulo
    case "<" => kind == Less
    case ">" => kind == Greater
    case "<=" => kind == LessEqual
    case ">=" => kind == GreaterEqual
    case "<>" => kind == NotEquals
    case _ => false
  }

  /** The symbol is as long as the input allows. */
  predicate EndsSymbol(t: string, rest: string) {
    rest == "" ||
    match t
    case "<" => rest[0] != '=' && rest[0] != '>'
    case ">" => rest[0] != '='
    case "-" => rest[0] != '-'
    case "/" => rest[0] != '*'
    case _ => true
  }

  lemma PunctuationScans(kw: map<string, Keyword>, s: string, kind: TokenType)
    requires s != "" && Punctuation(s[0]) == Some(kind) && !InWord(s[0])
    requires (s[0] == '-' ==> Peek(s) != '-') && (s[0] == '/' ==> Peek(s) != '*')
    ensures AtToken(s) && ScanFront(kw, s) == Emit(kind, [s[0]], s[1..])
  {
  }

  lemma ComparisonScans(kw: map<string, Keyword>, s: string)
    requires s != "" && (s[0] == '<' || s[0] == '>')
    ensures AtToken(s) && ScanFront(kw, s) == ScanComparison(s)
  {
  }

  lemma PairScans(kw: map<string, Keyword>, t: string, kind: TokenType, rest: string)
    requires SymbolHasType(t, kind) && |t| == 2
    ensures AtToken(t + rest) && ScanFront(kw, t + rest) == Emit(kind, t, rest)
  {
    var s := t + rest;
    assert s[0] == t[0] && s[1] == t[1] && s[2..] == rest;
    ComparisonScans(kw, s);
  }

  lemma AngleScans(kw: map<string, Keyword>, t: string, kind: TokenType, rest: string)
    requires SymbolHasType(t, kind) && EndsSymbol(t, rest) && (t == "<" || t == ">")
    ensures AtToken(t + rest) && ScanFront(kw, t + rest) == Emit(kind, t, rest)
  {
    var s := t + rest;
    assert s[0] == t[0] && s[1..] == rest && Peek(s) == Current(rest);
    ComparisonScans(kw, s);
  }

  lemma CharacterScans(kw: map<string, Keyword>, t: string, kind: TokenType, rest: string)
    requires SymbolHasType(t, kind) && EndsSymbol(t, rest) && |t| == 1 && t != "<" && t != ">"
    ensures AtToken(t + rest) && ScanFront(kw, t + rest) == Emit(kind, t, rest)
  {
    var s := t + rest;
    assert s[0] == t[0] && s[1..] == rest && Peek(s) == Current(rest) && t == [t[0]];
    PunctuationScans(kw, s, kind);
  }

  lemma SymbolScans(kw: map<string, Keyword>, t: string, kind: TokenType, rest: string)
    requires SymbolHasType(t, kind) && EndsSymbol(t, rest)
    ensures AtToken(t + rest) && ScanFront(kw, t + rest) == Emit(kind, t, rest)
  {
    if |t| == 2 {
      PairScans(kw, t, kind, rest);
    } else if t == "<" || t == ">" {
      AngleScans(kw, t, kind, rest);
    } else {
      CharacterScans(kw, t, kind, rest);
    }
  }

  lemma SymbolMeans(kw: map<string, Keyword>, t: string, kind: TokenType, rest: string, at: nat)
    requires SymbolHasType(t, kind) && EndsSymbol(t, rest)
    ensures Lex(kw, t + rest, at) == Prepend(Tok(kind, t, at), Lex(kw, rest, at + |t|))
  {
    SymbolScans(kw, t, kind, rest);
    Emits(kw, t + rest, at, kind, t, rest, at + |t|);
  }

  /** No token starts with the character. */
  predicate Unexpected(c: char) {
    c as int > 0 && c as int != 32 && !(9 <= c as int <= 13) && !InWord(c) && c !in "'\"()<>=,.;*+-/%"
  }

  lemma UnexpectedMeans(kw: map<string, Keyword>, c: char, rest: string, at: nat)
    requires Unexpected(c)
    ensures Lex(kw, [c] + rest, at) == Err(UnexpectedCharacter)
  {
    var listed := "'\"()<>=,.;*+-/%";
    assert listed[0] == '\'' && listed[1] == '"' && listed[2] == '(' && listed[3] == ')' && listed[4] == '<';
    assert listed[5] == '>' && listed[6] == '=' && listed[7] == ',' && listed[8] == '.' && listed[9] == ';';
    assert listed[10] == '*' && listed[11] == '+' && listed[12] == '-' && listed[13] == '/' && listed[14] == '%';
    assert ([c] + rest)[0] == c;
    Fails(kw, [c] + rest, at, UnexpectedCharacter);
  }
}
