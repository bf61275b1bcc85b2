/** Cutting a plain text document into blocks (`_blocks` of the text extractor). */
module TextBlocks {
  import opened Basics
  import opened PythonText

  // ----- str.strip -----

  function LeftStrip(s: string): string {
    if s != [] && IsSpace(s[0]) then LeftStrip(s[1..]) else s
  }

  function RightStrip(s: string): string {
    if s != [] && IsSpace(s[|s| - 1]) then RightStrip(s[..|s| - 1]) else s
  }

  function Strip(s: string): string {
    RightStrip(LeftStrip(s))
  }

  /** `s` neither begins nor ends with white space. */
  predicate Stripped(s: string) {
    s != [] ==> (!IsSpace(s[0]) && !IsSpace(s[|s| - 1]))
  }

  /** `part` is a stretch of `whole`. */
  ghost predicate IsSlice(part: string, whole: string) {
    exists i: nat, j: nat :: i <= j <= |whole| && part == whole[i..j]
  }

  /** The characters of `s` that are not white space, in order. */
  function Solid(s: string): string {
    if s == [] then [] else (if IsSpace(s[0]) then [] else [s[0]]) + Solid(s[1..])
  }

  lemma {:induction false} Regroup(a: string, b: string, c: string)
    ensures a + b + c == a + (b + c)
  {
  }

  lemma {:induction false} SolidConcat(a: string, b: string)
    ensures Solid(a + b) == Solid(a) + Solid(b)
  {
    if a == [] {
      assert a + b == b;
    } else {
      SolidConcat(a[1..], b);
      assert (a + b)[1..] == a[1..] + b;
      Regroup(if IsSpace(a[0]) then [] else [a[0]], Solid(a[1..]), Solid(b));
    }
  }

  lemma {:induction false} SolidCut(s: string, i: nat)
    requires i <= |s|
    ensures Solid(s[..i]) + Solid(s[i..]) == Solid(s)
  {
    SplitAt(s, i);
    SolidConcat(s[..i], s[i..]);
  }

  lemma {:induction false} LeftStripFacts(s: string)
    ensures Solid(LeftStrip(s)) == Solid(s)
    ensures LeftStrip(s) != [] ==> !IsSpace(LeftStrip(s)[0])
    ensures |LeftStrip(s)| <= |s| && LeftStrip(s) == s[|s| - |LeftStrip(s)|..]
  {
    if s != [] && IsSpace(s[0]) {
      LeftStripFacts(s[1..]);
      DropDrop(s, 1, |s| - 1 - |LeftStrip(s)|);
    }
  }

  lemma {:induction false} RightStripFacts(s: string)
    ensures Solid(RightStrip(s)) == Solid(s)
    ensures RightStrip(s) != [] ==> (!IsSpace(RightStrip(s)[|RightStrip(s)| - 1]) && RightStrip(s)[0] == s[0])
    ensures |RightStrip(s)| <= |s| && RightStrip(s) == s[..|RightStrip(s)|]
  {
    if s != [] && IsSpace(s[|s| - 1]) {
      RightStripFacts(s[..|s| - 1]);
      SolidCut(s, |s| - 1);
      assert Solid(s[|s| - 1..]) == [];
    }
  }

  /** Stripping loses white space only, and leaves something exactly when there was something else. */
  lemma {:induction false} StripFacts(s: string)
    ensures Stripped(Strip(s)) && Solid(Strip(s)) == Solid(s)
    ensures IsSlice(Strip(s), s) && |Strip(s)| <= |s|
    ensures s != [] && !IsSpace(s[0]) ==> Strip(s) != [] && Strip(s)[0] == s[0]
  {
    LeftStripFacts(s);
    RightStripFacts(LeftStrip(s));
    StretchOfStretch(s, LeftStrip(s), Strip(s));
    if s != [] && !IsSpace(s[0]) {
      StripKeepsFirst(s);
    }
  }

  lemma {:induction false} StretchOfStretch(s: string, back: string, front: string)
    requires |front| <= |back| <= |s| && back == s[|s| - |back|..] && front == back[..|front|]
    ensures IsSlice(front, s)
  {
    var from := |s| - |back|;
    assert front == s[from..from + |front|];
  }

  lemma {:induction false} StripKeepsFirst(s: string)
    requires s != [] && !IsSpace(s[0])
    ensures Strip(s) != [] && Strip(s)[0] == s[0]
  {
    RightStripFacts(s);
    assert Solid(s) != [];
  }

  // ----- Stretches of a text -----

  predicate Blank(s: string) {
    forall k :: 0 <= k < |s| ==> IsSpace(s[k])
  }

  /** The parts are stretches of the text, in order, with nothing but white space before, between and after them. */
  ghost predicate Stretches(parts: seq<string>, text: string) {
    if parts == [] then Blank(text)
    else exists at: nat :: StretchAt(parts[|parts| - 1], text, at) && Stretches(parts[..|parts| - 1], text[..at])
  }

  /** `part` is at `at`, and white space follows. */
  predicate StretchAt(part: string, text: string, at: nat) {
    at + |part| <= |text| && text[at..at + |part|] == part && Blank(text[at + |part|..])
  }

  lemma {:induction false} StretchesMore(parts: seq<string>, text: string, part: string, gap: string)
    requires Stretches(parts, text) && Blank(gap)
    ensures Stretches(parts + [part], text + part + gap)
  {
    var more := text + part + gap;
    assert (parts + [part])[..|parts|] == parts && more[..|text|] == text;
    assert more[|text|..|text| + |part|] == part && more[|text| + |part|..] == gap;
    assert StretchAt(part, more, |text|);
  }

  /** The last part with the text before it and the white space behind it. */
  lemma {:induction false} LastStretch(parts: seq<string>, text: string) returns (before: string, gap: string)
    requires parts != [] && Stretches(parts, text)
    ensures text == before + parts[|parts| - 1] + gap && Blank(gap) && Stretches(parts[..|parts| - 1], before)
  {
    var last := parts[|parts| - 1];
    var at: nat :| StretchAt(last, text, at) && Stretches(parts[..|parts| - 1], text[..at]);
    before, gap := text[..at], text[at + |last|..];
  }

  lemma {:induction false} StretchesBlank(parts: seq<string>, text: string, gap: string)
    requires Stretches(parts, text) && Blank(gap)
    ensures Stretches(parts, text + gap)
  {
    if parts != [] {
      var before, rest := LastStretch(parts, text);
      StretchesMore(parts[..|parts| - 1], before, parts[|parts| - 1], rest + gap);
      WithLast(parts);
      Regroup(before + parts[|parts| - 1], rest, gap);
    }
  }

  lemma {:induction false} WithLast(parts: seq<string>)
    requires parts != []
    ensures parts[..|parts| - 1] + [parts[|parts| - 1]] == parts
  {
  }

  lemma {:induction false} ConcatLast(parts: seq<string>, more: seq<string>)
    requires more != []
    ensures parts + more[..|more| - 1] + [more[|more| - 1]] == parts + more
  {
  }

  lemma {:induction false} StretchesConcat(parts: seq<string>, text: string, more: seq<string>, rest: string)
    requires Stretches(parts, text) && Stretches(more, rest)
    ensures Stretches(parts + more, text + rest)
  {
    if more == [] {
      StretchesBlank(parts, text, rest);
      assert parts + more == parts;
    } else {
      var last := more[|more| - 1];
      var before, gap := LastStretch(more, rest);
      StretchesConcat(parts, text, more[..|more| - 1], before);
      StretchesMore(parts + more[..|more| - 1], text + before, last, gap);
      ConcatLast(parts, more);
      Regroup(text, before, last);
      Regroup(text, before + last, gap);
    }
  }

  /** Hence the parts hold exactly what is not white space. */
  lemma {:induction false} StretchesSolid(parts: seq<string>, text: string)
    requires Stretches(parts, text)
    ensures Solid(Joined(parts)) == Solid(text)
  {
    if parts == [] {
      BlankSolid(text);
    } else {
      var last := parts[|parts| - 1];
      var before, gap := LastStretch(parts, text);
      StretchesSolid(parts[..|parts| - 1], before);
      SolidOfThree(Joined(parts[..|parts| - 1]), before, last, gap);
    }
  }

  lemma {:induction false} SolidOfThree(joined: string, before: string, last: string, gap: string)
    requires Solid(joined) == Solid(before) && Blank(gap)
    ensures Solid(joined + last) == Solid(before + last + gap)
  {
    BlankSolid(gap);
    SolidConcat(joined, last);
    SolidConcat(before, last);
    SolidConcat(before + last, gap);
  }

  lemma {:induction false} BlankSolid(s: string)
    requires Blank(s)
    ensures Solid(s) == []
  {
    if s != [] {
      BlankSolid(s[1..]);
    }
  }

  lemma {:induction false} LeftStripGap(s: string)
    ensures |LeftStrip(s)| <= |s| && s == s[..|s| - |LeftStrip(s)|] + LeftStrip(s)
    ensures Blank(s[..|s| - |LeftStrip(s)|])
  {
    if s != [] && IsSpace(s[0]) {
      LeftStripGap(s[1..]);
      var n := |s| - |LeftStrip(s)|;
      assert s[..n] == [s[0]] + s[1..][..n - 1];
    }
  }

  lemma {:induction false} RightStripGap(s: string)
    ensures |RightStrip(s)| <= |s| && s == RightStrip(s) + s[|RightStrip(s)|..]
    ensures Blank(s[|RightStrip(s)|..])
  {
    if s != [] && IsSpace(s[|s| - 1]) {
      RightStripGap(s[..|s| - 1]);
      var n := |RightStrip(s)|;
      assert s[n..] == s[..|s| - 1][n..] + [s[|s| - 1]];
    }
  }

  lemma {:induction false} StripParts(s: string) returns (left: string, right: string)
    ensures s == left + Strip(s) + right && Blank(left) && Blank(right)
  {
    var n := |s| - |LeftStrip(s)|;
    LeftStripGap(s);
    RightStripGap(LeftStrip(s));
    left, right := s[..n], LeftStrip(s)[|Strip(s)|..];
    Regroup(left, Strip(s), right);
  }

  /** What is left of a text when it is stripped is its one stretch. */
  lemma {:induction false} StripStretches(s: string)
    ensures Stretches(if Strip(s) == [] then [] else [Strip(s)], s)
  {
    var left, right := StripParts(s);
    if Strip(s) == [] {
      assert s == left + right;
    } else {
      StretchesMore([], left, Strip(s), right);
    }
  }

  // ----- re.split at blank lines -----

  /** Two newlines with nothing but white space between them. */
  predicate BlankLine(s: string, i: nat, j: nat) {
    && i < j < |s| && s[i] == '\n' && s[j] == '\n'
    && forall k :: i < k < j ==> IsSpace(s[k])
  }

  predicate NoBlankLine(s: string) {
    forall i, j :: 0 <= i < j < |s| ==> !BlankLine(s, i, j)
  }

  lemma {:induction false} BlankLineShift(whole: string, a: nat, b: nat, i: nat, j: nat)
    requires a <= b <= |whole| && BlankLine(whole[a..b], i, j)
    ensures BlankLine(whole, a + i, a + j)
  {
    forall k | a + i < k < a + j ensures IsSpace(whole[k]) {
      assert whole[a..b][k - a] == whole[k];
    }
  }

  lemma {:induction false} SliceNoBlankLine(part: string, whole: string)
    requires NoBlankLine(whole) && IsSlice(part, whole)
    ensures NoBlankLine(part)
  {
    var a: nat, b: nat :| a <= b <= |whole| && part == whole[a..b];
    forall i, j | 0 <= i < j < |part| ensures !BlankLine(part, i, j) {
      if BlankLine(part, i, j) {
        BlankLineShift(whole, a, b, i, j);
      }
    }
  }

  /** Where the white space that starts at `i` ends. */
  function RunEnd(s: string, i: nat): (e: nat)
    requires i <= |s|
    ensures i <= e <= |s|
    ensures forall k :: i <= k < e ==> IsSpace(s[k])
    ensures e < |s| ==> !IsSpace(s[e])
    decreases |s| - i
  {
    if i < |s| && IsSpace(s[i]) then RunEnd(s, i + 1) else i
  }

  /** `s.rfind(c, from, to)`, or -1. */
  function RFind(s: string, c: char, from: nat, to: nat): (r: int)
    requires to <= |s|
    ensures r == -1 || (from <= r < to && s[r] == c)
    ensures forall k :: (from <= k < to && r < k) ==> s[k] != c
  {
    if to <= from then -1
    else if s[to - 1] == c then to - 1
    else RFind(s, c, from, to - 1)
  }

  /** The end of the match of `\n\s*\n` at `i`: the pattern is greedy. */
  function SeparatorEnd(s: string, i: nat): (e: int)
    requires i < |s|
    ensures e == -1 || (i + 1 < e <= |s| && BlankLine(s, i, e - 1))
    ensures forall j :: (i < j < |s| && e <= j) ==> !BlankLine(s, i, j)
  {
    if s[i] != '\n' then -1
    else
      var last := RFind(s, '\n', i + 1, RunEnd(s, i + 1));
      if last < 0 then -1 else last + 1
  }

  /** `re.split`: the pieces of `s` from `start`, with no separator found before `at`. */
  function Split(s: string, start: nat, at: nat): seq<string>
    requires start <= at <= |s|
    decreases |s| - at
  {
    if at == |s| then [s[start..]]
    else
      var e := SeparatorEnd(s, at);
      if e < 0 then Split(s, start, at + 1) else [s[start..at]] + Split(s, e, e)
  }

  function Joined(parts: seq<string>): string {
    if parts == [] then [] else Joined(parts[..|parts| - 1]) + parts[|parts| - 1]
  }

  lemma {:induction false} JoinedFront(part: string, rest: seq<string>)
    ensures Joined([part] + rest) == part + Joined(rest)
  {
    var all := [part] + rest;
    if rest == [] {
      assert all[..0] == [];
    } else {
      JoinedFront(part, rest[..|rest| - 1]);
      assert all[..|all| - 1] == [part] + rest[..|rest| - 1];
    }
  }

  lemma {:induction false} BlankLineSolid(s: string, i: nat, j: nat)
    requires i <= j <= |s|
    requires forall k :: i <= k < j ==> IsSpace(s[k])
    ensures Solid(s[i..j]) == []
    decreases j - i
  {
    if i < j {
      BlankLineSolid(s, i + 1, j);
      assert s[i..j][1..] == s[i + 1..j];
    }
  }

  /** Splitting drops only white space, whatever the text. */
  lemma {:induction false} SplitSolid(s: string, start: nat, at: nat)
    requires start <= at <= |s|
    ensures Solid(Joined(Split(s, start, at))) == Solid(s[start..])
    decreases |s| - at
  {
    if at == |s| {
      assert Joined(Split(s, start, at)) == s[start..] by { JoinedFront(s[start..], []); }
    } else {
      var e := SeparatorEnd(s, at);
      if e < 0 {
        SplitSolid(s, start, at + 1);
      } else {
        SplitSolid(s, e, e);
        JoinedFront(s[start..at], Split(s, e, e));
        SolidConcat(s[start..at], Joined(Split(s, e, e)));
        SolidSkip(s, start, at, e);
      }
    }
  }

  lemma {:induction false} SolidSkip(s: string, start: nat, at: nat, e: nat)
    requires start <= at < e <= |s| && BlankLine(s, at, e - 1)
    ensures Solid(s[start..at]) + Solid(s[e..]) == Solid(s[start..])
  {
    BlankLineSolid(s, at, e);
    SolidConcat(s[at..e], s[e..]);
    assert s[at..] == s[at..e] + s[e..];
    SolidConcat(s[start..at], s[at..]);
    assert s[start..] == s[start..at] + s[at..];
  }

  /** No newline in `[start, at)` begins a blank line of `s`. */
  ghost predicate NoneBefore(s: string, start: nat, at: nat) {
    forall i, j :: start <= i < at && i < j < |s| ==> !BlankLine(s, i, j)
  }

  lemma {:induction false} PieceNoBlankLine(s: string, start: nat, at: nat)
    requires start <= at <= |s| && NoneBefore(s, start, at)
    ensures NoBlankLine(s[start..at])
  {
    var piece := s[start..at];
    forall i, j | 0 <= i < j < |piece| ensures !BlankLine(piece, i, j) {
      if BlankLine(piece, i, j) {
        BlankLineShift(s, start, at, i, j);
      }
    }
  }

  /** No piece holds a blank line. */
  lemma {:induction false} SplitPieces(s: string, start: nat, at: nat)
    requires start <= at <= |s| && NoneBefore(s, start, at)
    ensures forall p :: p in Split(s, start, at) ==> NoBlankLine(p)
    decreases |s| - at
  {
    PieceNoBlankLine(s, start, at);
    if at < |s| {
      var e := SeparatorEnd(s, at);
      if e < 0 {
        SplitPieces(s, start, at + 1);
      } else {
        SplitPieces(s, e, e);
      }
    } else {
      assert s[start..] == s[start..at];
    }
  }

  /** The first blank line from `start` on is at `at`, and the last newline that makes one with it is at `e - 1`. */
  ghost predicate IsSeparator(s: string, start: nat, at: nat, e: nat) {
    && start <= at < e <= |s| && BlankLine(s, at, e - 1) && NoneBefore(s, start, at)
    && forall j :: e <= j < |s| ==> !BlankLine(s, at, j)
  }

  /** The pieces from `start` on: one up to the first separator, then those behind it; the last goes to the end. */
  ghost predicate ArePieces(s: string, start: nat, pieces: seq<string>)
    requires start <= |s|
    decreases |pieces|
  {
    && pieces != []
    && if |pieces| == 1 then pieces[0] == s[start..] && NoneBefore(s, start, |s|)
       else exists at: nat, e: nat ::
         IsSeparator(s, start, at, e) && pieces[0] == s[start..at] && ArePieces(s, e, pieces[1..])
  }

  lemma {:induction false} PieceBefore(s: string, start: nat, at: nat, e: nat, pieces: seq<string>)
    requires IsSeparator(s, start, at, e) && ArePieces(s, e, pieces)
    ensures ArePieces(s, start, [s[start..at]] + pieces)
  {
    assert ([s[start..at]] + pieces)[1..] == pieces;
  }

  /** A text is split at its blank lines, each as long as possible, and nowhere else. */
  lemma {:induction false} SplitsAtBlankLines(s: string, start: nat, at: nat)
    requires start <= at <= |s| && NoneBefore(s, start, at)
    ensures ArePieces(s, start, Split(s, start, at))
    decreases |s| - at
  {
    if at < |s| {
      var e := SeparatorEnd(s, at);
      if e < 0 {
        SplitsAtBlankLines(s, start, at + 1);
      } else {
        SplitsAtBlankLines(s, e, e);
        PieceBefore(s, start, at, e, Split(s, e, e));
      }
    }
  }

  /** The pieces are apart by blank lines only. */
  lemma {:induction false} SplitStretches(s: string, start: nat, at: nat)
    requires start <= at <= |s|
    ensures Stretches(Paragraphs(Split(s, start, at)), s[start..])
    decreases |s| - at
  {
    if at == |s| {
      StripStretches(s[start..]);
      ParagraphsFront(s[start..], []);
    } else {
      var e := SeparatorEnd(s, at);
      if e < 0 {
        SplitStretches(s, start, at + 1);
      } else {
        SplitStretches(s, e, e);
        PieceStretches(s[start..at], s[at..e], Split(s, e, e), s[e..]);
        InThree(s, start, at, e);
      }
    }
  }

  lemma {:induction false} InThree(s: string, start: nat, at: nat, e: nat)
    requires start <= at <= e <= |s|
    ensures s[start..at] + s[at..e] + s[e..] == s[start..]
  {
    assert s[start..e] == s[start..at] + s[at..e];
  }

  lemma {:induction false} PieceStretches(piece: string, gap: string, pieces: seq<string>, rest: string)
    requires Blank(gap) && Stretches(Paragraphs(pieces), rest)
    ensures Stretches(Paragraphs([piece] + pieces), piece + gap + rest)
  {
    ParagraphsFront(piece, pieces);
    StripStretches(piece);
    StretchesBlank(Paragraphs([piece]), piece, gap);
    StretchesConcat(Paragraphs([piece]), piece + gap, Paragraphs(pieces), rest);
  }

  lemma {:induction false} ParagraphsFront(piece: string, pieces: seq<string>)
    ensures Paragraphs([piece]) == if Strip(piece) == [] then [] else [Strip(piece)]
    ensures Paragraphs([piece] + pieces) == Paragraphs([piece]) + Paragraphs(pieces)
  {
    OneParagraph(piece);
    if pieces == [] {
      assert [piece] + pieces == [piece];
    } else {
      var front, last := pieces[..|pieces| - 1], pieces[|pieces| - 1];
      ParagraphsFront(piece, front);
      ParagraphsBack([piece] + front, last);
      ParagraphsBack(front, last);
      WithLast(pieces);
      ConcatLast([piece], pieces);
    }
  }

  lemma {:induction false} OneParagraph(piece: string)
    ensures Paragraphs([piece]) == if Strip(piece) == [] then [] else [Strip(piece)]
  {
    assert [piece][..0] == [] && Paragraphs([]) == [];
  }

  lemma {:induction false} ParagraphsBack(pieces: seq<string>, last: string)
    ensures Paragraphs(pieces + [last]) == Paragraphs(pieces) + if Strip(last) == [] then [] else [Strip(last)]
  {
    assert (pieces + [last])[..|pieces|] == pieces;
  }

  // ----- Blocks -----

  /** What every block is: some text, with no white space around it, no blank line, and no longer than the limit. */
  predicate IsBlock(block: string, limit: nat) {
    block != [] && Stripped(block) && |block| <= limit && NoBlankLine(block)
  }

  predicate AreBlocks(blocks: seq<string>, limit: nat) {
    blocks == [] || (AreBlocks(blocks[..|blocks| - 1], limit) && IsBlock(blocks[|blocks| - 1], limit))
  }

  lemma {:induction false} EachIsBlock(blocks: seq<string>, limit: nat, i: nat)
    requires AreBlocks(blocks, limit) && i < |blocks|
    ensures IsBlock(blocks[i], limit)
  {
    if i < |blocks| - 1 {
      EachIsBlock(blocks[..|blocks| - 1], limit, i);
    }
  }

  lemma {:induction false} OneMoreBlock(blocks: seq<string>, block: string, limit: nat)
    requires AreBlocks(blocks, limit) && IsBlock(block, limit)
    ensures AreBlocks(blocks + [block], limit)
  {
    assert (blocks + [block])[..|blocks|] == blocks;
  }

  lemma {:induction false} MoreBlocks(a: seq<string>, b: seq<string>, limit: nat)
    requires AreBlocks(a, limit) && AreBlocks(b, limit)
    ensures AreBlocks(a + b, limit)
  {
    if b == [] {
      assert a + b == a;
    } else {
      MoreBlocks(a, b[..|b| - 1], limit);
      OneMoreBlock(a + b[..|b| - 1], b[|b| - 1], limit);
      assert a + b == a + b[..|b| - 1] + [b[|b| - 1]];
    }
  }

  /**
   Where a text longer than the limit is cut: at the last newline, else at the last
   blank, else at the limit; the first two only in the second half.
   */
  ghost predicate IsCut(text: string, limit: nat, cut: int)
    requires limit <= |text|
  {
    var half := limit / 2;
    || (half <= cut < limit && text[cut] == '\n' && '\n' !in text[cut + 1..limit])
    || ('\n' !in text[half..limit] && half <= cut < limit && text[cut] == ' ' && ' ' !in text[cut + 1..limit])
    || ('\n' !in text[half..limit] && ' ' !in text[half..limit] && cut == limit)
  }

  method SplitPoint(text: string, limit: nat) returns (split: int)
    requires limit < |text|
    ensures IsCut(text, limit, split)
  {
    split := RFind(text, '\n', 0, limit);
    if split < limit / 2 {
      split := RFind(text, ' ', 0, limit);
    }
    if split < limit / 2 {
      split := limit;
    }
  }

  lemma {:induction false} CutInside(remaining: string, limit: nat, split: int)
    requires 1 <= limit < |remaining| && IsCut(remaining, limit, split) && Stripped(remaining)
    ensures 1 <= split <= limit
  {
    assert split != 0 by {
      assert IsSpace('\n') && IsSpace(' ');
    }
  }

  /** The text before a cut makes a block. */
  lemma {:induction false} CutBlock(remaining: string, split: nat)
    requires 1 <= split <= |remaining| && Stripped(remaining) && NoBlankLine(remaining)
    ensures IsBlock(Strip(remaining[..split]), split)
  {
    var front := remaining[..split];
    StripFacts(front);
    assert front == remaining[0..split];
    SliceNoBlankLine(front, remaining);
    SliceNoBlankLine(Strip(front), front);
  }

  /** What follows is again stripped. */
  lemma {:induction false} CutRest(remaining: string, split: nat)
    requires 1 <= split <= |remaining| && Stripped(remaining) && NoBlankLine(remaining)
    ensures Stripped(Strip(remaining[split..])) && NoBlankLine(Strip(remaining[split..]))
    ensures |Strip(remaining[split..])| < |remaining|
  {
    var back := remaining[split..];
    StripFacts(back);
    assert back == remaining[split..|remaining|];
    SliceNoBlankLine(back, remaining);
    SliceNoBlankLine(Strip(back), back);
  }

  /** One round of the inner loop. */
  lemma {:induction false} CutStep(blocks: seq<string>, remaining: string, limit: nat, split: int)
    requires 1 <= limit < |remaining| && IsCut(remaining, limit, split)
    requires AreBlocks(blocks, limit) && Stripped(remaining) && NoBlankLine(remaining)
    ensures 1 <= split <= limit
    ensures AreBlocks(blocks + [Strip(remaining[..split])], limit)
    ensures
      var rest := Strip(remaining[split..]);
      Stripped(rest) && NoBlankLine(rest) && |rest| < |remaining|
  {
    CutInside(remaining, limit, split);
    CutBlock(remaining, split);
    CutRest(remaining, split);
    OneMoreBlock(blocks, Strip(remaining[..split]), limit);
  }

  /** The blocks of one paragraph: it is cut as long as it is over the limit, and otherwise stays whole. */
  ghost predicate IsCutUp(paragraph: string, limit: nat, blocks: seq<string>)
    decreases |blocks|
  {
    if |paragraph| <= limit then blocks == if paragraph == [] then [] else [paragraph]
    else
      && blocks != []
      && exists cut: nat ::
          && IsCut(paragraph, limit, cut) && cut <= |paragraph|
          && blocks[0] == Strip(paragraph[..cut]) && IsCutUp(Strip(paragraph[cut..]), limit, blocks[1..])
  }

  /** However the rest of the paragraph is cut up, the blocks so far are in front of that. */
  ghost predicate CutSoFar(paragraph: string, limit: nat, blocks: seq<string>, remaining: string) {
    forall more: seq<string> :: IsCutUp(remaining, limit, more) ==> IsCutUp(paragraph, limit, blocks + more)
  }

  lemma {:induction false} CutOnce(remaining: string, limit: nat, cut: nat, more: seq<string>)
    requires limit < |remaining| && IsCut(remaining, limit, cut) && cut <= |remaining|
    requires IsCutUp(Strip(remaining[cut..]), limit, more)
    ensures IsCutUp(remaining, limit, [Strip(remaining[..cut])] + more)
  {
    assert ([Strip(remaining[..cut])] + more)[1..] == more;
  }

  lemma {:induction false} CutFurther(paragraph: string, limit: nat, blocks: seq<string>, remaining: string, cut: nat)
    requires CutSoFar(paragraph, limit, blocks, remaining)
    requires limit < |remaining| && IsCut(remaining, limit, cut) && cut <= |remaining|
    ensures CutSoFar(paragraph, limit, blocks + [Strip(remaining[..cut])], Strip(remaining[cut..]))
  {
    var front, rest := Strip(remaining[..cut]), Strip(remaining[cut..]);
    forall more: seq<string> | IsCutUp(rest, limit, more)
      ensures IsCutUp(paragraph, limit, blocks + [front] + more)
    {
      CutOneMore(paragraph, limit, blocks, remaining, cut, more);
    }
  }

  lemma {:induction false} CutOneMore(paragraph: string, limit: nat, blocks: seq<string>, remaining: string, cut: nat,
      more: seq<string>)
    requires CutSoFar(paragraph, limit, blocks, remaining)
    requires limit < |remaining| && IsCut(remaining, limit, cut) && cut <= |remaining|
    requires IsCutUp(Strip(remaining[cut..]), limit, more)
    ensures IsCutUp(paragraph, limit, blocks + [Strip(remaining[..cut])] + more)
  {
    CutOnce(remaining, limit, cut, more);
    OneBetween(blocks, Strip(remaining[..cut]), more);
  }

  lemma {:induction false} OneBetween(blocks: seq<string>, block: string, more: seq<string>)
    ensures blocks + [block] + more == blocks + ([block] + more)
  {
  }

  lemma {:induction false} NothingCut(paragraph: string, limit: nat)
    ensures CutSoFar(paragraph, limit, [], paragraph)
  {
    forall more: seq<string> | IsCutUp(paragraph, limit, more) ensures IsCutUp(paragraph, limit, [] + more) {
      assert [] + more == more;
    }
  }

  lemma {:induction false} AllCut(paragraph: string, limit: nat, blocks: seq<string>, remaining: string)
    requires CutSoFar(paragraph, limit, blocks, remaining) && |remaining| <= limit
    ensures IsCutUp(paragraph, limit, if remaining == [] then blocks else blocks + [remaining])
  {
    var more := if remaining == [] then [] else [remaining];
    assert IsCutUp(remaining, limit, more);
    assert blocks + more == if remaining == [] then blocks else blocks + [remaining];
  }

  /** A cut takes a stretch of the paragraph and leaves one. */
  lemma {:induction false} CutStretches(remaining: string, split: nat, parts: seq<string>)
    requires 1 <= split <= |remaining| && Stripped(remaining)
    requires Stretches(parts, Strip(remaining[split..]))
    ensures Stretches([Strip(remaining[..split])] + parts, remaining)
  {
    var head, back := remaining[..split], remaining[split..];
    HeadStretches(head);
    InsideStripped(parts, back);
    StretchesConcat([Strip(head)], head, parts, back);
    SplitAt(remaining, split);
  }

  lemma {:induction false} HeadStretches(head: string)
    requires head != [] && !IsSpace(head[0])
    ensures Stretches([Strip(head)], head)
  {
    StripKeepsFirst(head);
    StripStretches(head);
  }

  lemma {:induction false} InsideStripped(parts: seq<string>, s: string)
    requires Stretches(parts, Strip(s))
    ensures Stretches(parts, s)
  {
    var left, right := StripParts(s);
    StretchesConcat([], left, parts, Strip(s));
    assert [] + parts == parts;
    StretchesBlank(parts, left + Strip(s), right);
  }

  /** What a paragraph is cut up into: blocks that are its stretches. */
  lemma {:induction false} CutUpStretches(paragraph: string, limit: nat, blocks: seq<string>)
    requires limit >= 1 && Stripped(paragraph) && NoBlankLine(paragraph) && IsCutUp(paragraph, limit, blocks)
    ensures Stretches(blocks, paragraph)
    decreases |blocks|
  {
    if |paragraph| > limit {
      var cut: nat :|
        && IsCut(paragraph, limit, cut) && cut <= |paragraph|
        && blocks[0] == Strip(paragraph[..cut]) && IsCutUp(Strip(paragraph[cut..]), limit, blocks[1..]);
      CutInside(paragraph, limit, cut);
      CutRest(paragraph, cut);
      CutUpStretches(Strip(paragraph[cut..]), limit, blocks[1..]);
      CutStretches(paragraph, cut, blocks[1..]);
      assert blocks == [blocks[0]] + blocks[1..];
    } else if paragraph != [] {
      OneStretch(paragraph);
    }
  }

  lemma {:induction false} OneStretch(s: string)
    ensures Stretches([s], s)
  {
    StretchesMore([], [], s, []);
    assert [] + s + [] == s && [] + [s] == [s];
  }

  /** The inner loop: one stripped paragraph. */
  method SplitParagraph(paragraph: string, limit: nat) returns (blocks: seq<string>)
    requires limit >= 1 && Stripped(paragraph) && NoBlankLine(paragraph)
    ensures AreBlocks(blocks, limit) && IsCutUp(paragraph, limit, blocks)
    ensures Stretches(blocks, paragraph) && Solid(Joined(blocks)) == Solid(paragraph)
  {
    blocks := [];
    var remaining := paragraph;
    NothingCut(paragraph, limit);
    while |remaining| > limit
      invariant AreBlocks(blocks, limit) && CutSoFar(paragraph, limit, blocks, remaining)
      invariant Stripped(remaining) && NoBlankLine(remaining)
      decreases |remaining|
    {
      var split := SplitPoint(remaining, limit);
      CutStep(blocks, remaining, limit, split);
      CutFurther(paragraph, limit, blocks, remaining, split);
      blocks := blocks + [Strip(remaining[..split])];
      remaining := Strip(remaining[split..]);
    }
    AllCut(paragraph, limit, blocks, remaining);
    if remaining != [] {
      OneMoreBlock(blocks, remaining, limit);
      blocks := blocks + [remaining];
    }
    CutUpStretches(paragraph, limit, blocks);
    StretchesSolid(blocks, paragraph);
  }

  /** The pieces, stripped, without the empty ones. */
  function Paragraphs(pieces: seq<string>): (r: seq<string>)
    ensures forall p :: p in r ==> p != []
  {
    if pieces == [] then []
    else
      var p := Strip(pieces[|pieces| - 1]);
      Paragraphs(pieces[..|pieces| - 1]) + (if p != [] then [p] else [])
  }

  lemma {:induction false} ParagraphsAreStripped(pieces: seq<string>)
    requires forall p :: p in pieces ==> NoBlankLine(p)
    ensures forall p :: p in Paragraphs(pieces) ==> Stripped(p) && NoBlankLine(p)
  {
    if pieces != [] {
      var last := pieces[|pieces| - 1];
      ParagraphsAreStripped(pieces[..|pieces| - 1]);
      StripFacts(last);
      SliceNoBlankLine(Strip(last), last);
    }
  }

  /** The paragraphs are cut up one after the other. */
  ghost predicate AreCutUp(paragraphs: seq<string>, limit: nat, blocks: seq<string>) {
    if paragraphs == [] then blocks == []
    else exists k: nat ::
      && k <= |blocks| && AreCutUp(paragraphs[..|paragraphs| - 1], limit, blocks[..k])
      && IsCutUp(paragraphs[|paragraphs| - 1], limit, blocks[k..])
  }

  lemma {:induction false} OneMoreCutUp(paragraphs: seq<string>, limit: nat, blocks: seq<string>, paragraph: string,
      more: seq<string>)
    requires AreCutUp(paragraphs, limit, blocks) && IsCutUp(paragraph, limit, more)
    ensures AreCutUp(paragraphs + [paragraph], limit, blocks + more)
  {
    assert (paragraphs + [paragraph])[..|paragraphs|] == paragraphs;
    assert (blocks + more)[..|blocks|] == blocks && (blocks + more)[|blocks|..] == more;
  }

  /** A paragraph of at most `limit` characters is one block. */
  lemma {:induction false} ShortParagraphWhole(paragraphs: seq<string>, limit: nat, blocks: seq<string>,
      paragraph: string)
    requires AreCutUp(paragraphs, limit, blocks)
    requires paragraph in paragraphs && paragraph != [] && |paragraph| <= limit
    ensures paragraph in blocks
  {
    var k := LastCutUp(paragraphs, limit, blocks);
    if paragraph == paragraphs[|paragraphs| - 1] {
      assert blocks[k] == blocks[k..][0] == paragraph;
    } else {
      ShortParagraphWhole(paragraphs[..|paragraphs| - 1], limit, blocks[..k], paragraph);
    }
  }

  /** Stretches of the paragraphs are stretches of whatever the paragraphs are stretches of. */
  lemma {:induction false} CutUpOfText(paragraphs: seq<string>, limit: nat, blocks: seq<string>, text: string)
    requires limit >= 1 && AreCutUp(paragraphs, limit, blocks) && Stretches(paragraphs, text)
    requires forall p :: p in paragraphs ==> Stripped(p) && NoBlankLine(p)
    ensures Stretches(blocks, text)
  {
    if paragraphs != [] {
      var last := paragraphs[|paragraphs| - 1];
      var k := LastCutUp(paragraphs, limit, blocks);
      var before, gap := LastStretch(paragraphs, text);
      CutUpOfText(paragraphs[..|paragraphs| - 1], limit, blocks[..k], before);
      CutUpStretches(last, limit, blocks[k..]);
      StretchesConcat(blocks[..k], before, blocks[k..], last);
      assert blocks[..k] + blocks[k..] == blocks;
      StretchesBlank(blocks, before + last, gap);
    }
  }

  /** Where the blocks of the last paragraph begin. */
  lemma {:induction false} LastCutUp(paragraphs: seq<string>, limit: nat, blocks: seq<string>) returns (k: nat)
    requires paragraphs != [] && AreCutUp(paragraphs, limit, blocks)
    ensures k <= |blocks| && AreCutUp(paragraphs[..|paragraphs| - 1], limit, blocks[..k])
    ensures IsCutUp(paragraphs[|paragraphs| - 1], limit, blocks[k..])
  {
    k :|
      && k <= |blocks| && AreCutUp(paragraphs[..|paragraphs| - 1], limit, blocks[..k])
      && IsCutUp(paragraphs[|paragraphs| - 1], limit, blocks[k..]);
  }

  /** One turn of the outer loop. */
  lemma {:induction false} NextCutUp(paragraphs: seq<string>, i: nat, limit: nat, blocks: seq<string>,
      more: seq<string>)
    requires i < |paragraphs| && AreBlocks(blocks, limit) && AreCutUp(paragraphs[..i], limit, blocks)
    requires AreBlocks(more, limit) && IsCutUp(paragraphs[i], limit, more)
    ensures AreBlocks(blocks + more, limit) && AreCutUp(paragraphs[..i + 1], limit, blocks + more)
  {
    MoreBlocks(blocks, more, limit);
    OneMoreCutUp(paragraphs[..i], limit, blocks, paragraphs[i], more);
    assert paragraphs[..i + 1] == paragraphs[..i] + [paragraphs[i]];
  }

  lemma {:induction false} BlocksOfText(text: string, limit: nat, blocks: seq<string>)
    requires limit >= 1 && AreCutUp(Paragraphs(Split(text, 0, 0)), limit, blocks)
    ensures Stretches(blocks, text) && Solid(Joined(blocks)) == Solid(text)
  {
    ParagraphsOfText(text);
    CutUpOfText(Paragraphs(Split(text, 0, 0)), limit, blocks, text);
    StretchesSolid(blocks, text);
  }

  /**
   `_blocks`: every block is non-empty, stripped and at most `limit` long; the blocks are the
   paragraphs cut up, hence stretches of the text in order with only white space between them,
   and hold exactly its characters that are not white space.
   */
  method Blocks(text: string, limit: nat) returns (blocks: seq<string>)
    requires limit >= 1
    ensures AreBlocks(blocks, limit) && AreCutUp(Paragraphs(Split(text, 0, 0)), limit, blocks)
    ensures Stretches(blocks, text) && Solid(Joined(blocks)) == Solid(text)
  {
    var paragraphs := Paragraphs(Split(text, 0, 0));
    ParagraphsOfText(text);
    blocks := [];
    var i := 0;
    while i < |paragraphs|
      invariant 0 <= i <= |paragraphs| && AreBlocks(blocks, limit) && AreCutUp(paragraphs[..i], limit, blocks)
    {
      var more := SplitParagraph(paragraphs[i], limit);
      NextCutUp(paragraphs, i, limit, blocks, more);
      blocks := blocks + more;
      i := i + 1;
    }
    assert paragraphs[..i] == paragraphs;
    BlocksOfText(text, limit, blocks);
  }

  /** The paragraphs are stretches of the text. */
  lemma {:induction false} ParagraphsOfText(text: string)
    ensures Stretches(Paragraphs(Split(text, 0, 0)), text)
    ensures forall p :: p in Paragraphs(Split(text, 0, 0)) ==> Stripped(p) && NoBlankLine(p)
  {
    SplitPieces(text, 0, 0);
    SplitStretches(text, 0, 0);
    ParagraphsAreStripped(Split(text, 0, 0));
    assert text[0..] == text;
  }

  /** With a limit of zero the cut of a non-empty paragraph removes nothing: the loop would never end. */
  lemma {:induction false} ZeroLimitStuck(remaining: string)
    requires remaining != [] && Stripped(remaining)
    ensures RFind(remaining, '\n', 0, 0) < 0 / 2
    ensures forall split :: IsCut(remaining, 0, split) ==> split == 0 && Strip(remaining[split..]) == remaining
  {
    forall split | IsCut(remaining, 0, split) ensures split == 0 && Strip(remaining[split..]) == remaining {
      assert remaining[0..] == remaining;
    }
  }
}
