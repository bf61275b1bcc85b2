/**
 The query language of the search index, as far as the reader uses it (SQLite FTS5
 documentation, section 3): quoted phrases, AND, OR and parentheses.
 */
module MatchLanguage {
  import opened Basics

  datatype Token = Phrase(text: string) | And | Or | Open | Close

  datatype Expr = Term(text: string) | Conj(left: Expr, right: Expr) | Disj(left: Expr, right: Expr)

  /** Whether a row matches, given which phrases occur in it. */
  function Eval(e: Expr, row: string -> bool): bool {
    match e
    case Term(text) => row(text)
    case Conj(l, r) => Eval(l, row) && Eval(r, row)
    case Disj(l, r) => Eval(l, row) || Eval(r, row)
  }

  // ----- Lexing -----

  /** Characters an unquoted word may hold. */
  predicate IsBareword(c: char) {
    'A' <= c <= 'Z' || 'a' <= c <= 'z' || '0' <= c <= '9' || c == '_' || c as int > 127 || c as int == 26
  }

  /** `word` stands at the front of `s`, as a whole word. */
  predicate Word(s: string, word: string) {
    word <= s && (|s| == |word| || !IsBareword(s[|word|]))
  }

  /** The string up to its closing quote, with doubled quotes standing for one, and what follows. */
  function Quoted(s: string): (r: Option<(string, string)>)
    ensures r.Some? ==> |r.value.1| < |s|
  {
    if s == [] then None
    else if s[0] != '"' then
      match Quoted(s[1..])
      case None => None
      case Some((text, rest)) => Some(([s[0]] + text, rest))
    else if |s| > 1 && s[1] == '"' then
      match Quoted(s[2..])
      case None => None
      case Some((text, rest)) => Some((['"'] + text, rest))
    else Some(([], s[1..]))
  }

  function Cons(t: Token, rest: Option<seq<Token>>): Option<seq<Token>> {
    match rest
    case None => None
    case Some(ts) => Some([t] + ts)
  }

  function Lex(s: string): Option<seq<Token>>
    decreases |s|
  {
    if s == [] then Some([])
    else if s[0] == ' ' then Lex(s[1..])
    else if s[0] == '(' then Cons(Open, Lex(s[1..]))
    else if s[0] == ')' then Cons(Close, Lex(s[1..]))
    else if s[0] == '"' then
      match Quoted(s[1..])
      case None => None
      case Some((text, rest)) => Cons(Phrase(text), Lex(rest))
    else if Word(s, "AND") then Cons(And, Lex(s[3..]))
    else if Word(s, "OR") then Cons(Or, Lex(s[2..]))
    else None
  }

  // ----- Parsing: AND binds tighter than OR -----

  function ParseOr(ts: seq<Token>): (r: Option<(Expr, seq<Token>)>)
    ensures r.Some? ==> |r.value.1| < |ts|
    decreases |ts|, 2
  {
    match ParseAnd(ts)
    case None => None
    case Some((left, rest)) =>
      if rest != [] && rest[0] == Or then
        match ParseOr(rest[1..])
        case None => None
        case Some((right, after)) => Some((Disj(left, right), after))
      else Some((left, rest))
  }

  function ParseAnd(ts: seq<Token>): (r: Option<(Expr, seq<Token>)>)
    ensures r.Some? ==> |r.value.1| < |ts|
    decreases |ts|, 1
  {
    match ParsePrimary(ts)
    case None => None
    case Some((left, rest)) =>
      if rest != [] && rest[0] == And then
        match ParseAnd(rest[1..])
        case None => None
        case Some((right, after)) => Some((Conj(left, right), after))
      else Some((left, rest))
  }

  function ParsePrimary(ts: seq<Token>): (r: Option<(Expr, seq<Token>)>)
    ensures r.Some? ==> |r.value.1| < |ts|
    decreases |ts|, 0
  {
    if ts == [] then None
    else match ts[0]
      case Phrase(text) => Some((Term(text), ts[1..]))
      case Open =>
        (match ParseOr(ts[1..])
         case None => None
         case Some((e, rest)) => if rest != [] && rest[0] == Close then Some((e, rest[1..])) else None)
      case _ => None
  }

  /** The expression a whole query string stands for. */
  function Parse(s: string): Option<Expr> {
    match Lex(s)
    case None => None
    case Some(ts) =>
      match ParseOr(ts)
      case None => None
      case Some((e, rest)) => if rest == [] then Some(e) else None
  }

  // ----- Lexing what the compiler writes -----

  predicate NoQuote(text: string) {
    forall k :: 0 <= k < |text| ==> text[k] != '"'
  }

  lemma {:induction false} QuotedText(text: string, rest: string)
    requires NoQuote(text) && (rest == [] || rest[0] != '"')
    ensures Quoted(text + ['"'] + rest) == Some((text, rest))
  {
    var s := text + ['"'] + rest;
    if text == [] {
      assert s[1..] == rest;
    } else {
      assert s[1..] == text[1..] + ['"'] + rest;
      QuotedText(text[1..], rest);
      assert [text[0]] + text[1..] == text;
    }
  }

  lemma {:induction false} LexPhrase(text: string, rest: string)
    requires NoQuote(text) && (rest == [] || rest[0] != '"')
    ensures Lex(['"'] + text + ['"'] + rest) == Cons(Phrase(text), Lex(rest))
  {
    var s := ['"'] + text + ['"'] + rest;
    assert s[1..] == text + ['"'] + rest;
    QuotedText(text, rest);
  }

  lemma {:induction false} LexSpace(rest: string)
    ensures Lex([' '] + rest) == Lex(rest)
  {
    assert ([' '] + rest)[1..] == rest;
  }

  lemma {:induction false} LexAnd(rest: string)
    ensures Lex(" AND " + rest) == Cons(And, Lex(rest))
  {
    var s := "AND" + ([' '] + rest);
    assert " AND " + rest == [' '] + s;
    LexSpace(s);
    assert s[0] == 'A' && s[3] == ' ' && s[3..] == [' '] + rest;
    assert Word(s, "AND");
    LexSpace(rest);
  }

  lemma {:induction false} LexOr(rest: string)
    ensures Lex(" OR " + rest) == Cons(Or, Lex(rest))
  {
    var s := "OR" + ([' '] + rest);
    assert " OR " + rest == [' '] + s;
    LexSpace(s);
    assert s[0] == 'O' && s[2] == ' ' && s[2..] == [' '] + rest;
    assert !("AND" <= s) by { assert "AND"[0] != s[0]; }
    assert Word(s, "OR");
    LexSpace(rest);
  }

  lemma {:induction false} LexParen(c: char, rest: string)
    requires c == '(' || c == ')'
    ensures Lex([c] + rest) == Cons(if c == '(' then Open else Close, Lex(rest))
  {
    assert ([c] + rest)[1..] == rest;
  }
}
