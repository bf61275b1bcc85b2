/** The query compiler: word lists in, one index query out. */
module SearchQueries {
  import opened Basics
  import opened MatchLanguage

  /** Case folding and the class of word characters, which Python's Unicode tables fix. */
  datatype Lexicon = Lexicon(fold: string -> string, isWord: char -> bool)

  /** A quotation mark is no word character. */
  predicate Sane(lx: Lexicon) {
    !lx.isWord('"')
  }

  function RunLength(lx: Lexicon, text: string): (n: nat)
    ensures n <= |text| && forall k :: 0 <= k < n ==> lx.isWord(text[k])
    ensures n < |text| ==> !lx.isWord(text[n])
  {
    if text == [] || !lx.isWord(text[0]) then 0 else 1 + RunLength(lx, text[1..])
  }

  /** The maximal runs of word characters, as `re.findall` returns them. */
  function Words(lx: Lexicon, text: string): (words: seq<string>)
    ensures forall w :: w in words ==> w != [] && forall k :: 0 <= k < |w| ==> lx.isWord(w[k])
    decreases |text|
  {
    if text == [] then []
    else
      var n := RunLength(lx, text);
      if n == 0 then Words(lx, text[1..]) else [text[..n]] + Words(lx, text[n..])
  }

  function Join(sep: string, parts: seq<string>): string {
    if parts == [] then []
    else if |parts| == 1 then parts[0]
    else parts[0] + sep + Join(sep, parts[1..])
  }

  /** The phrase a literal is searched as. */
  function PhraseOf(lx: Lexicon, literal: string): string {
    Join(" ", Words(lx, lx.fold(literal)))
  }

  predicate HasWords(lx: Lexicon, literal: string) {
    Words(lx, lx.fold(literal)) != []
  }

  /** A query that can be searched for: some literals, and a word in each. */
  predicate Searchable(lx: Lexicon, query: seq<string>) {
    query != [] && forall l :: l in query ==> HasWords(lx, l)
  }

  /** The phrases of a query's literals. */
  function PhrasesOf(lx: Lexicon, query: seq<string>): set<string> {
    set l | l in query :: PhraseOf(lx, l)
  }

  /** What a search means: some searchable query has the phrase of each of its literals in the row. */
  ghost predicate Wanted(lx: Lexicon, queries: seq<seq<string>>, row: string -> bool) {
    exists q :: q in queries && Searchable(lx, q) && forall l :: l in q ==> row(PhraseOf(lx, l))
  }

  // ----- What the words of a text are -----

  /** `word` stands in `text` at `at`, is made of word characters, and none comes right before or after it. */
  predicate IsRun(lx: Lexicon, text: string, word: string, at: nat) {
    && word != [] && at + |word| <= |text| && text[at..at + |word|] == word
    && (forall k :: at <= k < at + |word| ==> lx.isWord(text[k]))
    && (at == 0 || !lx.isWord(text[at - 1]))
    && (at + |word| == |text| || !lx.isWord(text[at + |word|]))
  }

  predicate NoneWithin(lx: Lexicon, text: string, from: nat, to: nat)
    requires to <= |text|
  {
    forall k :: from <= k < to ==> !lx.isWord(text[k])
  }

  /** The words stand in order at these places from `from` on, and no word character is outside of them. */
  predicate RunsAt(lx: Lexicon, text: string, from: nat, words: seq<string>, places: seq<nat>)
    decreases |words|
  {
    if words == [] || places == [] then
      words == [] && places == [] && NoneWithin(lx, text, from, |text|)
    else
      && from <= places[0] && IsRun(lx, text, words[0], places[0]) && NoneWithin(lx, text, from, places[0])
      && RunsAt(lx, text, places[0] + |words[0]|, words[1..], places[1..])
  }

  /** The words are the maximal runs of word characters of the text, all of them, in order. */
  ghost predicate AreRuns(lx: Lexicon, text: string, words: seq<string>) {
    exists places: seq<nat> :: RunsAt(lx, text, 0, words, places)
  }

  lemma {:induction false} SkipsOne(lx: Lexicon, text: string, from: nat, words: seq<string>, places: seq<nat>)
    requires from < |text| && !lx.isWord(text[from]) && RunsAt(lx, text, from + 1, words, places)
    ensures RunsAt(lx, text, from, words, places)
  {
  }

  lemma {:induction false} TakesOne(lx: Lexicon, text: string, at: nat, word: string, next: nat, words: seq<string>,
      places: seq<nat>)
    requires IsRun(lx, text, word, at) && next == at + |word| && RunsAt(lx, text, next, words, places)
    ensures RunsAt(lx, text, at, [word] + words, [at] + places)
  {
    assert ([word] + words)[1..] == words && ([at] + places)[1..] == places;
    assert NoneWithin(lx, text, at, at);
  }

  lemma {:induction false} WordsStep(lx: Lexicon, text: string, from: nat, n: nat)
    requires from < |text| && n == RunLength(lx, text[from..])
    ensures n == 0 ==> Words(lx, text[from..]) == Words(lx, text[from + 1..])
    ensures n > 0 ==> Words(lx, text[from..]) == [text[from..][..n]] + Words(lx, text[from + n..])
  {
    DropDrop(text, from, if n == 0 then 1 else n);
  }

  lemma {:induction false} WordsFrom(lx: Lexicon, text: string, from: nat) returns (places: seq<nat>)
    requires from <= |text| && (from == 0 || from == |text| || !lx.isWord(text[from - 1]) || !lx.isWord(text[from]))
    ensures RunsAt(lx, text, from, Words(lx, text[from..]), places)
    decreases |text| - from
  {
    places := [];
    if from < |text| {
      var n := RunLength(lx, text[from..]);
      EndOfRun(lx, text, from, n);
      WordsStep(lx, text, from, n);
      if n == 0 {
        places := WordsFrom(lx, text, from + 1);
        SkipsOne(lx, text, from, Words(lx, text[from + 1..]), places);
      } else {
        places := WordsFrom(lx, text, from + n);
        FirstRun(lx, text, from, n, Words(lx, text[from + n..]), places);
        places := [from] + places;
      }
    }
  }

  lemma {:induction false} EndOfRun(lx: Lexicon, text: string, from: nat, n: nat)
    requires from < |text| && n == RunLength(lx, text[from..])
    ensures from + n <= |text| && (from + n < |text| ==> !lx.isWord(text[from + n]))
    ensures n == 0 ==> !lx.isWord(text[from])
  {
  }

  lemma {:induction false} RunIsWord(lx: Lexicon, text: string, from: nat, n: nat)
    requires from < |text| && 0 < n == RunLength(lx, text[from..])
    requires from == 0 || !lx.isWord(text[from - 1]) || !lx.isWord(text[from])
    ensures IsRun(lx, text, text[from..][..n], from)
  {
    var rest := text[from..];
    assert forall k :: from <= k < |text| ==> text[k] == rest[k - from];
    assert rest[..n] == text[from..from + n];
  }

  lemma {:induction false} FirstRun(lx: Lexicon, text: string, from: nat, n: nat, words: seq<string>, places: seq<nat>)
    requires from < |text| && 0 < n == RunLength(lx, text[from..])
    requires from == 0 || !lx.isWord(text[from - 1]) || !lx.isWord(text[from])
    requires RunsAt(lx, text, from + n, words, places)
    ensures RunsAt(lx, text, from, [text[from..][..n]] + words, [from] + places)
  {
    RunIsWord(lx, text, from, n);
    TakesOne(lx, text, from, text[from..][..n], from + n, words, places);
  }

  /** The words of a text are its maximal runs of word characters, all of them, in order. */
  lemma {:induction false} WordsAreRuns(lx: Lexicon, text: string)
    ensures AreRuns(lx, text, Words(lx, text))
  {
    var places := WordsFrom(lx, text, 0);
    assert text[0..] == text;
  }

  function TotalLength(words: seq<string>): nat {
    if words == [] then 0 else |words[0]| + TotalLength(words[1..])
  }

  /** The phrase holds the words as its runs, with spaces between them, as few as possible. */
  ghost predicate IsSpelled(lx: Lexicon, words: seq<string>, phrase: string) {
    && AreRuns(lx, phrase, words)
    && (forall k :: 0 <= k < |phrase| && !lx.isWord(phrase[k]) ==> phrase[k] == ' ')
    && |phrase| == TotalLength(words) + Max(0, |words| - 1)
  }

  predicate IsWordy(lx: Lexicon, word: string) {
    word != [] && forall k :: 0 <= k < |word| ==> lx.isWord(word[k])
  }

  lemma {:induction false} RunInside(lx: Lexicon, front: string, word: string, rest: string)
    requires IsWordy(lx, word) && (front == [] || !lx.isWord(front[|front| - 1]))
    requires rest == [] || !lx.isWord(rest[0])
    ensures IsRun(lx, front + word + rest, word, |front|)
  {
    var text := front + word + rest;
    assert text[|front|..|front| + |word|] == word;
    assert forall k :: 0 <= k < |word| ==> text[|front| + k] == word[k];
  }

  lemma {:induction false} Regroup(front: string, word: string, rest: string)
    ensures front + (word + " " + rest) == front + word + " " + rest == front + word + (" " + rest)
    ensures (front + word + " " + rest)[|front| + |word|] == ' '
  {
  }

  /** A word, a space and more runs behind it are runs. */
  lemma {:induction false} WordThenRuns(lx: Lexicon, text: string, at: nat, word: string, next: nat,
      words: seq<string>, rest: seq<nat>)
    requires IsRun(lx, text, word, at) && next == at + |word| + 1 <= |text| && !lx.isWord(text[next - 1])
    requires RunsAt(lx, text, next, words, rest)
    ensures RunsAt(lx, text, at, [word] + words, [at] + rest)
  {
    SkipsOne(lx, text, next - 1, words, rest);
    TakesOne(lx, text, at, word, next - 1, words, rest);
  }

  lemma {:induction false} LastWordRuns(lx: Lexicon, front: string, word: string)
    requires !lx.isWord(' ') && (front == [] || front[|front| - 1] == ' ') && IsWordy(lx, word)
    ensures RunsAt(lx, front + word, |front|, [word], [|front|])
  {
    RunInside(lx, front, word, []);
    assert front + word + [] == front + word;
    assert NoneWithin(lx, front + word, |front| + |word|, |front + word|);
    TakesOne(lx, front + word, |front|, word, |front + word|, [], []);
    assert [word] + [] == [word];
  }

  lemma {:induction false} WordBefore(lx: Lexicon, front: string, word: string, rest: string, words: seq<string>,
      places: seq<nat>)
    requires !lx.isWord(' ') && (front == [] || front[|front| - 1] == ' ') && IsWordy(lx, word)
    requires RunsAt(lx, front + word + " " + rest, |front + word + " "|, words, places)
    ensures RunsAt(lx, front + (word + " " + rest), |front|, [word] + words, [|front|] + places)
  {
    Regroup(front, word, rest);
    RunInside(lx, front, word, " " + rest);
    WordThenRuns(lx, front + word + " " + rest, |front|, word, |front + word + " "|, words, places);
  }

  lemma {:induction false} JoinRuns(lx: Lexicon, front: string, words: seq<string>) returns (places: seq<nat>)
    requires !lx.isWord(' ') && (front == [] || front[|front| - 1] == ' ')
    requires forall w :: w in words ==> IsWordy(lx, w)
    ensures RunsAt(lx, front + Join(" ", words), |front|, words, places)
    decreases |words|
  {
    if words == [] {
      places := [];
    } else if |words| == 1 {
      LastWordRuns(lx, front, words[0]);
      assert [words[0]] == words;
      places := [|front|];
    } else {
      var rest := JoinRuns(lx, front + words[0] + " ", words[1..]);
      WordBefore(lx, front, words[0], Join(" ", words[1..]), words[1..], rest);
      assert [words[0]] + words[1..] == words;
      places := [|front|] + rest;
    }
  }

  lemma {:induction false} JoinGaps(lx: Lexicon, words: seq<string>)
    requires forall w :: w in words ==> IsWordy(lx, w)
    ensures forall k :: 0 <= k < |Join(" ", words)| && !lx.isWord(Join(" ", words)[k]) ==> Join(" ", words)[k] == ' '
    ensures |Join(" ", words)| == TotalLength(words) + Max(0, |words| - 1)
  {
    if |words| > 1 {
      JoinGaps(lx, words[1..]);
      assert IsWordy(lx, words[0]);
    } else if |words| == 1 {
      assert IsWordy(lx, words[0]);
      assert TotalLength(words[1..]) == 0;
    }
  }

  /**
   The phrase of a literal: the maximal runs of word characters of the folded literal in order,
   with one space between neighbours. It has a word when the folded literal has a word character.
   */
  lemma {:induction false} PhraseSpellsRuns(lx: Lexicon, literal: string) returns (words: seq<string>)
    requires !lx.isWord(' ')
    ensures AreRuns(lx, lx.fold(literal), words) && IsSpelled(lx, words, PhraseOf(lx, literal))
    ensures HasWords(lx, literal) <==> exists k :: 0 <= k < |lx.fold(literal)| && lx.isWord(lx.fold(literal)[k])
  {
    var text := lx.fold(literal);
    words := Words(lx, text);
    WordsAreRuns(lx, text);
    assert forall w :: w in words ==> IsWordy(lx, w);
    var places := JoinRuns(lx, [], words);
    JoinGaps(lx, words);
    assert [] + Join(" ", words) == Join(" ", words);
    SomeWord(lx, text, words);
  }

  lemma {:induction false} SomeWord(lx: Lexicon, text: string, words: seq<string>)
    requires AreRuns(lx, text, words)
    ensures words != [] <==> exists k :: 0 <= k < |text| && lx.isWord(text[k])
  {
    var places: seq<nat> :| RunsAt(lx, text, 0, words, places);
    if words != [] {
      assert lx.isWord(text[places[0]]);
    }
  }

  // ----- Rendering -----

  function Quote(phrase: string): string {
    ['"'] + phrase + ['"']
  }

  function QuoteAll(phrases: seq<string>): (r: seq<string>)
    ensures |r| == |phrases|
  {
    if phrases == [] then [] else [Quote(phrases[0])] + QuoteAll(phrases[1..])
  }

  /** `"(" + " AND ".join(…) + ")"`. */
  function Alternative(phrases: seq<string>): string {
    ['('] + Join(" AND ", QuoteAll(phrases)) + [')']
  }

  function Alternatives(lists: seq<seq<string>>): (r: seq<string>)
    ensures |r| == |lists|
    ensures forall i :: 0 <= i < |lists| ==> r[i] == Alternative(lists[i])
  {
    if lists == [] then [] else [Alternative(lists[0])] + Alternatives(lists[1..])
  }

  /** Phrase lists the compiler produces: none empty, no quotes inside. */
  predicate Clean(phrases: seq<string>) {
    phrases != [] && forall p :: p in phrases ==> NoQuote(p)
  }

  predicate AllClean(lists: seq<seq<string>>) {
    forall i :: 0 <= i < |lists| ==> Clean(lists[i])
  }

  lemma {:induction false} PhraseHasNoQuote(lx: Lexicon, words: seq<string>)
    requires Sane(lx)
    requires forall w :: w in words ==> forall k :: 0 <= k < |w| ==> lx.isWord(w[k])
    ensures NoQuote(Join(" ", words))
  {
    if |words| > 0 {
      assert NoQuote(words[0]) by { assert words[0] in words; }
      if |words| > 1 {
        PhraseHasNoQuote(lx, words[1..]);
        NoQuoteConcat(words[0], " ");
        NoQuoteConcat(words[0] + " ", Join(" ", words[1..]));
      }
    }
  }

  lemma {:induction false} NoQuoteConcat(a: string, b: string)
    requires NoQuote(a) && NoQuote(b)
    ensures NoQuote(a + b)
  {
  }

  // ----- The tokens of a rendering -----

  function AndTokens(phrases: seq<string>): seq<Token> {
    if phrases == [] then []
    else if |phrases| == 1 then [Phrase(phrases[0])]
    else [Phrase(phrases[0]), And] + AndTokens(phrases[1..])
  }

  function AltTokens(phrases: seq<string>): seq<Token> {
    [Open] + AndTokens(phrases) + [Close]
  }

  function OrTokens(lists: seq<seq<string>>): seq<Token> {
    if lists == [] then []
    else if |lists| == 1 then AltTokens(lists[0])
    else AltTokens(lists[0]) + [Or] + OrTokens(lists[1..])
  }

  /** Tokens put in front of the tokens of a rest. */
  function Prepend(ts: seq<Token>, rest: Option<seq<Token>>): Option<seq<Token>> {
    match rest
    case None => None
    case Some(more) => Some(ts + more)
  }

  lemma {:induction false} ConsPrepend(t: Token, ts: seq<Token>, rest: Option<seq<Token>>)
    ensures Cons(t, Prepend(ts, rest)) == Prepend([t] + ts, rest)
  {
    if rest.Some? {
      assert [t] + (ts + rest.value) == [t] + ts + rest.value;
    }
  }

  lemma {:induction false} LexConjunction(phrases: seq<string>, rest: string)
    requires Clean(phrases) && (rest == [] || rest[0] != '"')
    ensures Lex(Join(" AND ", QuoteAll(phrases)) + rest) == Prepend(AndTokens(phrases), Lex(rest))
  {
    var p := phrases[0];
    assert p in phrases;
    if |phrases| == 1 {
      assert QuoteAll(phrases) == [Quote(p)];
      LexPhrase(p, rest);
      assert Cons(Phrase(p), Lex(rest)) == Prepend([Phrase(p)], Lex(rest));
    } else {
      assert Clean(phrases[1..]);
      LexConjunction(phrases[1..], rest);
      var tail := Join(" AND ", QuoteAll(phrases[1..])) + rest;
      JoinStep(" AND ", QuoteAll(phrases), rest);
      LexAnd(tail);
      LexPhrase(p, " AND " + tail);
      assert Join(" AND ", QuoteAll(phrases)) + rest == ['"'] + p + ['"'] + (" AND " + tail);
      ConsPrepend(And, AndTokens(phrases[1..]), Lex(rest));
      ConsPrepend(Phrase(p), [And] + AndTokens(phrases[1..]), Lex(rest));
      assert [Phrase(p)] + ([And] + AndTokens(phrases[1..])) == AndTokens(phrases);
    }
  }

  lemma {:induction false} JoinStep(sep: string, parts: seq<string>, rest: string)
    requires |parts| > 1
    ensures Join(sep, parts) + rest == parts[0] + (sep + (Join(sep, parts[1..]) + rest))
  {
    assert parts[0] + sep + Join(sep, parts[1..]) + rest == parts[0] + (sep + (Join(sep, parts[1..]) + rest));
  }

  lemma {:induction false} LexAlternative(phrases: seq<string>, rest: string)
    requires Clean(phrases)
    ensures Lex(Alternative(phrases) + rest) == Prepend(AltTokens(phrases), Lex(rest))
  {
    var inner := Join(" AND ", QuoteAll(phrases));
    var closing := [')'] + rest;
    assert Alternative(phrases) + rest == ['('] + (inner + closing);
    LexParen('(', inner + closing);
    LexConjunction(phrases, closing);
    LexParen(')', rest);
    if Lex(rest).Some? {
      var ts := Lex(rest).value;
      assert [Open] + (AndTokens(phrases) + ([Close] + ts)) == AltTokens(phrases) + ts;
    }
  }

  lemma {:induction false} LexDisjunction(lists: seq<seq<string>>)
    requires lists != [] && AllClean(lists)
    ensures Lex(Join(" OR ", Alternatives(lists))) == Some(OrTokens(lists))
  {
    assert Clean(lists[0]);
    if |lists| == 1 {
      LexAlternative(lists[0], []);
      assert Alternatives(lists) == [Alternative(lists[0])];
      assert Alternative(lists[0]) + [] == Alternative(lists[0]);
      assert AltTokens(lists[0]) + [] == AltTokens(lists[0]);
    } else {
      var more := lists[1..];
      assert AllClean(more) by {
        forall i | 0 <= i < |more| ensures Clean(more[i]) { assert more[i] == lists[i + 1]; }
      }
      LexDisjunction(more);
      var tail := Join(" OR ", Alternatives(more));
      LexOr(tail);
      LexAlternative(lists[0], " OR " + tail);
      assert Join(" OR ", Alternatives(lists)) == Alternative(lists[0]) + (" OR " + tail);
      assert AltTokens(lists[0]) + ([Or] + OrTokens(more)) == OrTokens(lists);
    }
  }

  // ----- What the tokens parse to -----

  /** Tokens that end a conjunction. */
  predicate EndsAnd(rest: seq<Token>) {
    rest == [] || rest[0] != And
  }

  function AndExpr(phrases: seq<string>): Expr
    requires phrases != []
  {
    if |phrases| == 1 then Term(phrases[0]) else Conj(Term(phrases[0]), AndExpr(phrases[1..]))
  }

  function OrExpr(lists: seq<seq<string>>): Expr
    requires lists != [] && forall i :: 0 <= i < |lists| ==> lists[i] != []
  {
    if |lists| == 1 then AndExpr(lists[0]) else Disj(AndExpr(lists[0]), OrExpr(lists[1..]))
  }

  lemma {:induction false} ParseConjunction(phrases: seq<string>, rest: seq<Token>)
    requires phrases != [] && EndsAnd(rest)
    ensures ParseAnd(AndTokens(phrases) + rest) == Some((AndExpr(phrases), rest))
  {
    if |phrases| == 1 {
      ParseLast(phrases[0], rest);
    } else {
      ParseConjunction(phrases[1..], rest);
      var tail := AndTokens(phrases[1..]) + rest;
      ParseConjunct(phrases[0], tail, AndExpr(phrases[1..]), rest);
      AndTokensStep(phrases, rest);
    }
  }

  lemma {:induction false} AndTokensStep(phrases: seq<string>, rest: seq<Token>)
    requires |phrases| > 1
    ensures AndTokens(phrases) + rest == [Phrase(phrases[0])] + ([And] + (AndTokens(phrases[1..]) + rest))
  {
  }

  lemma {:induction false} ParseLast(phrase: string, rest: seq<Token>)
    requires EndsAnd(rest)
    ensures ParseAnd([Phrase(phrase)] + rest) == Some((Term(phrase), rest))
  {
    assert ([Phrase(phrase)] + rest)[1..] == rest;
  }

  lemma {:induction false} ParseConjunct(phrase: string, tail: seq<Token>, e: Expr, rest: seq<Token>)
    requires ParseAnd(tail) == Some((e, rest))
    ensures ParseAnd([Phrase(phrase)] + ([And] + tail)) == Some((Conj(Term(phrase), e), rest))
  {
    var ts := [Phrase(phrase)] + ([And] + tail);
    assert ts[1..] == [And] + tail;
    assert ([And] + tail)[1..] == tail;
  }

  lemma {:induction false} ParseAlternative(phrases: seq<string>, rest: seq<Token>)
    requires phrases != [] && EndsAnd(rest)
    ensures ParseAnd(AltTokens(phrases) + rest) == Some((AndExpr(phrases), rest))
  {
    var ts := AltTokens(phrases) + rest;
    var inner := AndTokens(phrases) + ([Close] + rest);
    assert ts == [Open] + inner;
    assert ts[1..] == inner;
    ParseConjunction(phrases, [Close] + rest);
    assert ([Close] + rest)[1..] == rest;
    assert ParseOr(inner) == Some((AndExpr(phrases), [Close] + rest));
  }

  lemma {:induction false} ParseDisjunction(lists: seq<seq<string>>)
    requires lists != [] && AllClean(lists)
    ensures forall i :: 0 <= i < |lists| ==> lists[i] != []
    ensures ParseOr(OrTokens(lists)) == Some((OrExpr(lists), []))
  {
    assert forall i :: 0 <= i < |lists| ==> Clean(lists[i]);
    if |lists| == 1 {
      ParseAlternative(lists[0], []);
      assert AltTokens(lists[0]) + [] == OrTokens(lists);
    } else {
      var more := lists[1..];
      assert AllClean(more) by {
        forall i | 0 <= i < |more| ensures Clean(more[i]) { assert more[i] == lists[i + 1]; }
      }
      ParseDisjunction(more);
      ParseAlternative(lists[0], [Or] + OrTokens(more));
      assert AltTokens(lists[0]) + ([Or] + OrTokens(more)) == OrTokens(lists);
      assert ([Or] + OrTokens(more))[1..] == OrTokens(more);
    }
  }

  // ----- What it means -----

  ghost predicate AllIn(phrases: seq<string>, row: string -> bool) {
    forall p :: p in phrases ==> row(p)
  }

  lemma {:induction false} EvalConjunction(phrases: seq<string>, row: string -> bool)
    requires phrases != []
    ensures Eval(AndExpr(phrases), row) <==> AllIn(phrases, row)
  {
    if |phrases| > 1 {
      EvalConjunction(phrases[1..], row);
      assert phrases == [phrases[0]] + phrases[1..];
    }
  }

  lemma {:induction false} EvalDisjunction(lists: seq<seq<string>>, row: string -> bool)
    requires lists != [] && forall i :: 0 <= i < |lists| ==> lists[i] != []
    ensures Eval(OrExpr(lists), row) <==> exists i :: 0 <= i < |lists| && AllIn(lists[i], row)
  {
    EvalConjunction(lists[0], row);
    if |lists| > 1 {
      var more := lists[1..];
      EvalDisjunction(more, row);
      if i :| 0 <= i < |more| && AllIn(more[i], row) {
        assert lists[i + 1] == more[i];
      }
      if i :| 0 <= i < |lists| && AllIn(lists[i], row) {
        if i > 0 {
          assert more[i - 1] == lists[i];
        }
      }
    }
  }

  /** The string rendered from phrase lists parses, and matches the rows that have all of some list. */
  lemma {:induction false} RenderedMeaning(lists: seq<seq<string>>, row: string -> bool)
    requires lists != [] && AllClean(lists)
    ensures
      var e := Parse(Join(" OR ", Alternatives(lists)));
      e.Some? && (Eval(e.value, row) <==> exists i :: 0 <= i < |lists| && AllIn(lists[i], row))
  {
    LexDisjunction(lists);
    ParseDisjunction(lists);
    EvalDisjunction(lists, row);
  }

  /** An alternative's string tells its phrases apart, so dropping equal strings drops equal lists only. */
  lemma {:induction false} AlternativeInjective(a: seq<string>, b: seq<string>)
    requires Clean(a) && Clean(b) && Alternative(a) == Alternative(b)
    ensures a == b
  {
    LexAlternative(a, []);
    LexAlternative(b, []);
    assert Alternative(a) + [] == Alternative(b) + [];
    assert Prepend(AltTokens(a), Some([])) == Prepend(AltTokens(b), Some([]));
    assert AltTokens(a) + [] == AltTokens(a) && AltTokens(b) + [] == AltTokens(b);
    var n := |AltTokens(a)|;
    assert AltTokens(a)[1..n - 1] == AndTokens(a) && AltTokens(b)[1..n - 1] == AndTokens(b);
    AndTokensInjective(a, b);
  }

  lemma {:induction false} AndTokensInjective(a: seq<string>, b: seq<string>)
    requires a != [] && b != [] && AndTokens(a) == AndTokens(b)
    ensures a == b
  {
    assert AndTokens(a)[0] == Phrase(a[0]) && AndTokens(b)[0] == Phrase(b[0]);
    assert |AndTokens(a)| > 1 <==> |a| > 1;
    assert |AndTokens(b)| > 1 <==> |b| > 1;
    if |a| > 1 {
      assert AndTokens(a)[2..] == AndTokens(a[1..]) && AndTokens(b)[2..] == AndTokens(b[1..]);
      AndTokensInjective(a[1..], b[1..]);
      assert a == [a[0]] + a[1..] && b == [b[0]] + b[1..];
    }
  }

  // ----- The compiler -----

  function Elements(phrases: seq<string>): set<string> {
    set p | p in phrases
  }

  /** The inner loop: the distinct phrases of a query in order, or nothing when some literal has no word. */
  method Required(lx: Lexicon, query: seq<string>) returns (required: Option<seq<string>>)
    requires Sane(lx)
    ensures required.Some? <==> forall l :: l in query ==> HasWords(lx, l)
    ensures required.Some? ==> Elements(required.value) == PhrasesOf(lx, query)
    ensures required.Some? ==> forall p :: p in required.value ==> NoQuote(p)
  {
    var phrases: seq<string> := [];
    var i := 0;
    while i < |query|
      invariant i <= |query|
      invariant Gathered(lx, query, i, phrases)
    {
      var tokens := Words(lx, lx.fold(query[i]));
      if tokens == [] {
        Wordless(lx, query, i);
        return None;
      }
      var phrase := Join(" ", tokens);
      PhraseHasNoQuote(lx, tokens);
      GatheredMore(lx, query, i, phrases, phrase);
      if phrase !in phrases {
        phrases := phrases + [phrase];
      }
      i := i + 1;
    }
    AllGathered(lx, query, phrases);
    required := Some(phrases);
  }

  /** The distinct phrases of the first `i` literals, each of which has a word. */
  predicate Gathered(lx: Lexicon, query: seq<string>, i: nat, phrases: seq<string>)
    requires i <= |query|
  {
    && (forall k :: 0 <= k < i ==> HasWords(lx, query[k]))
    && Elements(phrases) == PhrasesOf(lx, query[..i])
    && forall p :: p in phrases ==> NoQuote(p)
  }

  lemma {:induction false} GatheredMore(lx: Lexicon, query: seq<string>, i: nat, phrases: seq<string>, phrase: string)
    requires i < |query| && Gathered(lx, query, i, phrases)
    requires HasWords(lx, query[i]) && phrase == PhraseOf(lx, query[i]) && NoQuote(phrase)
    ensures Gathered(lx, query, i + 1, if phrase in phrases then phrases else phrases + [phrase])
  {
    PhrasesGrow(lx, query, i);
    ElementsWith(phrases, phrase);
    NoQuotesWith(phrases, phrase);
  }

  lemma {:induction false} ElementsWith(phrases: seq<string>, phrase: string)
    ensures Elements(if phrase in phrases then phrases else phrases + [phrase]) == Elements(phrases) + {phrase}
  {
    if phrase in phrases {
      assert phrase in Elements(phrases);
    } else {
      ElementsGrow(phrases, phrase);
    }
  }

  lemma {:induction false} NoQuotesWith(phrases: seq<string>, phrase: string)
    requires NoQuote(phrase) && forall p :: p in phrases ==> NoQuote(p)
    ensures forall p :: p in (if phrase in phrases then phrases else phrases + [phrase]) ==> NoQuote(p)
  {
  }

  lemma {:induction false} AllGathered(lx: Lexicon, query: seq<string>, phrases: seq<string>)
    requires Gathered(lx, query, |query|, phrases)
    ensures forall l :: l in query ==> HasWords(lx, l)
    ensures Elements(phrases) == PhrasesOf(lx, query)
  {
    assert query[..|query|] == query;
  }

  lemma {:induction false} Wordless(lx: Lexicon, query: seq<string>, i: nat)
    requires i < |query| && Words(lx, lx.fold(query[i])) == []
    ensures exists l :: l in query && !HasWords(lx, l)
  {
    assert query[i] in query && !HasWords(lx, query[i]);
  }

  lemma {:induction false} PhrasesGrow(lx: Lexicon, query: seq<string>, i: nat)
    requires i < |query|
    ensures PhrasesOf(lx, query[..i + 1]) == PhrasesOf(lx, query[..i]) + {PhraseOf(lx, query[i])}
  {
    assert query[..i + 1] == query[..i] + [query[i]];
  }

  lemma {:induction false} ElementsGrow(phrases: seq<string>, p: string)
    ensures Elements(phrases + [p]) == Elements(phrases) + {p}
  {
  }

  /** What each query asks of a row; nothing for a query that cannot be searched for. */
  function Asked(lx: Lexicon, queries: seq<seq<string>>, k: nat): Option<set<string>>
    requires k < |queries|
  {
    if Searchable(lx, queries[k]) then Some(PhrasesOf(lx, queries[k])) else None
  }

  function AllAsked(lx: Lexicon, queries: seq<seq<string>>, n: nat): (asked: seq<Option<set<string>>>)
    requires n <= |queries|
    ensures |asked| == n
    ensures forall k :: 0 <= k < n ==> asked[k] == Asked(lx, queries, k)
  {
    if n == 0 then [] else AllAsked(lx, queries, n - 1) + [Asked(lx, queries, n - 1)]
  }

  /**
   The phrase lists stand for what the first `n` queries ask: list `j` holds what query
   `from[j]` asks, and what query `k` asks is in list `at[k]`.
   */
  ghost predicate StandFor(
    asked: seq<Option<set<string>>>, n: nat, lists: seq<seq<string>>, from: seq<nat>, at: map<nat, nat>)
    requires n <= |asked|
  {
    && |from| == |lists|
    && (forall j :: 0 <= j < |lists| ==> from[j] < n && asked[from[j]] == Some(Elements(lists[j])))
    && forall k: nat :: k < n && asked[k].Some? ==>
      k in at && at[k] < |lists| && Elements(lists[at[k]]) == asked[k].value
  }

  lemma {:induction false} Added(asked: seq<Option<set<string>>>, n: nat, lists: seq<seq<string>>, from: seq<nat>,
      at: map<nat, nat>,
    phrases: seq<string>)
    requires n < |asked| && StandFor(asked, n, lists, from, at) && asked[n] == Some(Elements(phrases))
    ensures StandFor(asked, n + 1, lists + [phrases], from + [n], at[n := |lists|])
  {
  }

  lemma {:induction false} StillAt(asked: seq<Option<set<string>>>, n: nat, lists: seq<seq<string>>, from: seq<nat>,
      at: map<nat, nat>,
      j: nat, k: nat)
    requires n < |asked| && StandFor(asked, n, lists, from, at)
    requires j < |lists| && asked[n] == Some(Elements(lists[j]))
    requires k < n + 1 && asked[k].Some?
    ensures k in at[n := j] && at[n := j][k] < |lists| && Elements(lists[at[n := j][k]]) == asked[k].value
  {
    if k < n {
      assert k in at;
    }
  }

  lemma {:induction false} Repeated(asked: seq<Option<set<string>>>, n: nat, lists: seq<seq<string>>, from: seq<nat>,
      at: map<nat, nat>,
      j: nat)
    requires n < |asked| && StandFor(asked, n, lists, from, at)
    requires j < |lists| && asked[n] == Some(Elements(lists[j]))
    ensures StandFor(asked, n + 1, lists, from, at[n := j])
  {
    var more := at[n := j];
    forall k: nat | k < n + 1 && asked[k].Some?
      ensures k in more && more[k] < |lists| && Elements(lists[more[k]]) == asked[k].value
    {
      StillAt(asked, n, lists, from, at, j, k);
    }
  }

  lemma {:induction false} Skipped(asked: seq<Option<set<string>>>, n: nat, lists: seq<seq<string>>, from: seq<nat>,
      at: map<nat, nat>)
    requires n < |asked| && StandFor(asked, n, lists, from, at) && asked[n].None?
    ensures StandFor(asked, n + 1, lists, from, at)
  {
  }

  /** The outer loop: one alternative per distinct searchable query. */
  method CompileAll(lx: Lexicon, queries: seq<seq<string>>)
    returns (alternatives: seq<string>, ghost lists: seq<seq<string>>, ghost from: seq<nat>, ghost at: map<nat, nat>)
    requires Sane(lx)
    ensures alternatives == Alternatives(lists) && AllClean(lists)
    ensures StandFor(AllAsked(lx, queries, |queries|), |queries|, lists, from, at)
  {
    ghost var asked := AllAsked(lx, queries, |queries|);
    alternatives, lists, from, at := [], [], [], map[];
    var i := 0;
    while i < |queries|
      invariant i <= |queries| && Compiled(asked, i, alternatives, lists, from, at)
    {
      var required := Required(lx, queries[i]);
      OneAsked(lx, queries, i, required);
      if required.Some? && required.value != [] {
        var alternative := Alternative(required.value);
        if alternative !in alternatives {
          CompiledAdds(asked, i, alternatives, lists, from, at, required.value);
          alternatives := alternatives + [alternative];
          lists, from, at := lists + [required.value], from + [i], at[i := |lists|];
        } else {
          at := CompiledRepeats(asked, i, alternatives, lists, from, at, required.value);
        }
      } else {
        CompiledSkips(asked, i, alternatives, lists, from, at);
      }
      i := i + 1;
    }
  }

  /** The alternatives so far are those of phrase lists that stand for the first `n` queries. */
  ghost predicate Compiled(asked: seq<Option<set<string>>>, n: nat, alternatives: seq<string>,
      lists: seq<seq<string>>, from: seq<nat>, at: map<nat, nat>)
    requires n <= |asked|
  {
    alternatives == Alternatives(lists) && AllClean(lists) && StandFor(asked, n, lists, from, at)
  }

  lemma {:induction false} CompiledAdds(asked: seq<Option<set<string>>>, n: nat, alternatives: seq<string>,
      lists: seq<seq<string>>,
      from: seq<nat>, at: map<nat, nat>, phrases: seq<string>)
    requires n < |asked| && Compiled(asked, n, alternatives, lists, from, at)
    requires asked[n] == Some(Elements(phrases)) && Clean(phrases)
    ensures Compiled(asked, n + 1, alternatives + [Alternative(phrases)], lists + [phrases], from + [n],
                     at[n := |lists|])
  {
    Added(asked, n, lists, from, at, phrases);
    AlternativesAppend(lists, phrases);
  }

  lemma {:induction false} CompiledRepeats(asked: seq<Option<set<string>>>, n: nat, alternatives: seq<string>,
      lists: seq<seq<string>>,
      from: seq<nat>, at: map<nat, nat>, phrases: seq<string>) returns (more: map<nat, nat>)
    requires n < |asked| && Compiled(asked, n, alternatives, lists, from, at)
    requires asked[n] == Some(Elements(phrases)) && Clean(phrases) && Alternative(phrases) in alternatives
    ensures Compiled(asked, n + 1, alternatives, lists, from, more)
  {
    var j := FindList(lists, phrases);
    Repeated(asked, n, lists, from, at, j);
    more := at[n := j];
  }

  lemma {:induction false} CompiledSkips(asked: seq<Option<set<string>>>, n: nat, alternatives: seq<string>,
      lists: seq<seq<string>>,
      from: seq<nat>, at: map<nat, nat>)
    requires n < |asked| && Compiled(asked, n, alternatives, lists, from, at) && asked[n].None?
    ensures Compiled(asked, n + 1, alternatives, lists, from, at)
  {
    Skipped(asked, n, lists, from, at);
  }

  /** What the inner loop finds is what the query asks. */
  lemma {:induction false} OneAsked(lx: Lexicon, queries: seq<seq<string>>, i: nat, required: Option<seq<string>>)
    requires i < |queries|
    requires required.Some? <==> forall l :: l in queries[i] ==> HasWords(lx, l)
    requires required.Some? ==> Elements(required.value) == PhrasesOf(lx, queries[i])
    requires required.Some? ==> forall p :: p in required.value ==> NoQuote(p)
    ensures
      var asked := AllAsked(lx, queries, |queries|);
      if required.Some? && required.value != [] then asked[i] == Some(Elements(required.value)) && Clean(required.value)
      else asked[i].None?
  {
    PhrasesEmptyIff(lx, queries[i]);
    if required.Some? && required.value != [] {
      assert required.value[0] in Elements(required.value);
    }
  }

  lemma {:induction false} PhrasesEmptyIff(lx: Lexicon, query: seq<string>)
    ensures PhrasesOf(lx, query) == {} <==> query == []
  {
    if query != [] {
      assert PhraseOf(lx, query[0]) in PhrasesOf(lx, query);
    }
  }

  lemma {:induction false} FindList(lists: seq<seq<string>>, phrases: seq<string>) returns (j: nat)
    requires AllClean(lists) && Clean(phrases) && Alternative(phrases) in Alternatives(lists)
    ensures j < |lists| && lists[j] == phrases
  {
    j :| 0 <= j < |lists| && Alternatives(lists)[j] == Alternative(phrases);
    assert Clean(lists[j]);
    AlternativeInjective(phrases, lists[j]);
  }

  lemma {:induction false} AlternativesAppend(lists: seq<seq<string>>, phrases: seq<string>)
    ensures Alternatives(lists + [phrases]) == Alternatives(lists) + [Alternative(phrases)]
  {
    var more := Alternatives(lists + [phrases]);
    assert forall i :: 0 <= i < |lists| ==> more[i] == Alternative((lists + [phrases])[i]) == Alternative(lists[i]);
  }

  /**
   `_match_query`: fails exactly when no query is searchable; otherwise the string it
   returns parses, and matches exactly the rows the queries want.
   */
  method MatchQuery(lx: Lexicon, queries: seq<seq<string>>) returns (r: Option<string>)
    requires Sane(lx)
    ensures r.None? <==> forall q :: q in queries ==> !Searchable(lx, q)
    ensures r.Some? ==> Parse(r.value).Some?
    ensures r.Some? ==> forall row: string -> bool :: Eval(Parse(r.value).value, row) <==> Wanted(lx, queries, row)
  {
    var alternatives, lists, from, at := CompileAll(lx, queries);
    NoneIffUnsearchable(lx, queries, lists, from, at);
    if alternatives == [] {
      return None;
    }
    r := Some(Join(" OR ", alternatives));
    CompiledParses(lists);
    forall row: string -> bool ensures Eval(Parse(r.value).value, row) <==> Wanted(lx, queries, row) {
      RenderedMeaning(lists, row);
      ListsMeanQueries(lx, queries, lists, from, at, row);
    }
  }

  lemma {:induction false} CompiledParses(lists: seq<seq<string>>)
    requires lists != [] && AllClean(lists)
    ensures Parse(Join(" OR ", Alternatives(lists))).Some?
  {
    RenderedMeaning(lists, _ => true);
  }

  lemma {:induction false} NoneIffUnsearchable(
    lx: Lexicon, queries: seq<seq<string>>, lists: seq<seq<string>>, from: seq<nat>, at: map<nat, nat>)
    requires StandFor(AllAsked(lx, queries, |queries|), |queries|, lists, from, at)
    ensures lists == [] <==> forall q :: q in queries ==> !Searchable(lx, q)
  {
    var asked := AllAsked(lx, queries, |queries|);
    if lists == [] {
      forall q | q in queries ensures !Searchable(lx, q) {
        var k: nat :| k < |queries| && queries[k] == q;
        assert asked[k] == Asked(lx, queries, k);
      }
    } else {
      assert asked[from[0]] == Asked(lx, queries, from[0]);
      assert queries[from[0]] in queries && Searchable(lx, queries[from[0]]);
    }
  }

  /** Phrase lists mean what the queries they stand for mean. */
  lemma {:induction false} ListsMeanQueries(lx: Lexicon, queries: seq<seq<string>>, lists: seq<seq<string>>,
      from: seq<nat>,
    at: map<nat, nat>, row: string -> bool)
    requires StandFor(AllAsked(lx, queries, |queries|), |queries|, lists, from, at)
    ensures (exists i :: 0 <= i < |lists| && AllIn(lists[i], row)) <==> Wanted(lx, queries, row)
  {
    var asked := AllAsked(lx, queries, |queries|);
    if i :| 0 <= i < |lists| && AllIn(lists[i], row) {
      assert asked[from[i]] == Asked(lx, queries, from[i]);
      assert queries[from[i]] in queries;
      assert forall p :: p in Elements(lists[i]) ==> row(p);
    }
    if Wanted(lx, queries, row) {
      var q :| q in queries && Searchable(lx, q) && forall p :: p in PhrasesOf(lx, q) ==> row(p);
      var k: nat :| k < |queries| && queries[k] == q;
      assert asked[k] == Asked(lx, queries, k);
      assert forall p :: p in lists[at[k]] ==> p in Elements(lists[at[k]]);
      assert AllIn(lists[at[k]], row);
    }
  }
}
