/**
  The two text chunkers. Whatever the text, the chunks respect the limit and,
  white space aside, hold exactly the text, in order.
 */
module Chunking {
  import opened Basics
  import opened Text

  predicate IsDelimiter(c: char) {
    c == '.' || c == '?' || c == '!'
  }

  lemma {:induction false} FlattenPush(parts: seq<string>, last: string)
    ensures Flatten(parts + [last]) == Flatten(parts) + last
  {
    assert (parts + [last])[..|parts|] == parts;
  }

  lemma {:induction false} FlattenJoin(a: seq<string>, b: seq<string>)
    ensures Flatten(a + b) == Flatten(a) + Flatten(b)
  {
    if b == [] {
      assert a + b == a;
    } else {
      assert (a + b)[..|a + b| - 1] == a + b[..|b| - 1];
      FlattenJoin(a, b[..|b| - 1]);
    }
  }

  /** The chunks hold the text: they respect the limit and lose no visible character. */
  ghost predicate Holds(chunks: seq<string>, text: string, limit: int) {
    && (forall k :: 0 <= k < |chunks| ==> |chunks[k]| <= limit)
    && Erase(Flatten(chunks)) == Erase(text)
  }

  lemma {:induction false} ErasePush(parts: seq<string>, last: string)
    ensures Erase(Flatten(parts + [last])) == Erase(Flatten(parts)) + Erase(last)
  {
    FlattenPush(parts, last);
    EraseJoin(Flatten(parts), last);
  }

  lemma {:induction false} Assoc(a: string, b: string, c: string)
    ensures a + b + c == a + (b + c)
  {
  }

  /** No delimiter but at the very end. */
  predicate OneSentence(s: string) {
    forall p :: 0 <= p < |s| - 1 ==> !IsDelimiter(s[p])
  }

  ghost predicate Split(chunks: seq<string>) {
    forall k :: 0 <= k < |chunks| ==> OneSentence(chunks[k])
  }

  lemma {:induction false} StripOneSentence(s: string)
    requires OneSentence(s)
    ensures OneSentence(Strip(s))
  {
    hide Strip;
    var lo, hi := StripIsSlice(s);
  }

  // ---- no cut without a reason --------------------------------------------

  predicate EndsSentence(s: string) {
    s != "" && IsDelimiter(s[|s| - 1])
  }

  ghost predicate IsSlice(text: string, s: string) {
    exists a, b :: 0 <= a <= b <= |text| && s == text[a..b]
  }

  /** A full window of `limit` characters of the text, stripped. */
  ghost predicate IsWindow(text: string, s: string, limit: int) {
    exists p, q :: 0 <= p <= q <= |text| && q - p == limit && s == Strip(text[p..q])
  }

  /** The chunk stops where it does for a reason: a sentence ends or the limit is used up. */
  ghost predicate Due(text: string, chunk: string, limit: int) {
    EndsSentence(chunk) || IsWindow(text, chunk, limit)
  }

  lemma {:induction false} StripEnds(s: string)
    requires EndsSentence(s)
    ensures EndsSentence(Strip(s))
  {
    hide StripLeft, StripRight;
    LeftEnds(s);
    RightEnds(StripLeft(s));
  }

  lemma {:induction false} LeftEnds(s: string)
    requires EndsSentence(s)
    ensures EndsSentence(StripLeft(s))
  {
    if IsSpace(s[0]) { LeftEnds(s[1..]); }
  }

  lemma {:induction false} RightEnds(s: string)
    requires EndsSentence(s)
    ensures StripRight(s) == s
  {
  }

  lemma {:induction false} PieceErased(pieces: seq<string>, i: nat)
    requires i < |pieces| && Erase(Flatten(pieces)) == ""
    ensures Erase(pieces[i]) == ""
  {
    hide Erase, Flatten;
    var front, back := pieces[..i + 1], pieces[i + 1..];
    assert pieces == front + back && front == pieces[..i] + [pieces[i]];
    HoldsMore(front, back);
    ErasePush(pieces[..i], pieces[i]);
  }

  lemma {:induction false} StripSlice(text: string, a: nat, b: nat)
    requires a <= b <= |text|
    ensures IsSlice(text, Strip(text[a..b]))
  {
    hide Strip;
    var lo, hi := StripIsSlice(text[a..b]);
    SliceOfSlice(text, a, b, lo, hi);
  }

  lemma {:induction false} SliceOfSlice(text: string, a: nat, b: nat, lo: nat, hi: nat)
    requires a <= b <= |text| && lo <= hi <= b - a
    ensures text[a..b][lo..hi] == text[a + lo..a + hi]
  {
    var x, y := text[a..b][lo..hi], text[a + lo..a + hi];
    assert |x| == |y| && forall k :: 0 <= k < |x| ==> x[k] == text[a..b][lo + k] == y[k];
  }

  lemma {:induction false} WindowOfSlice(text: string, s: string, w: string, limit: int)
    requires IsSlice(text, s) && IsWindow(s, w, limit)
    ensures IsWindow(text, w, limit)
  {
    hide Strip;
    var a, b :| 0 <= a <= b <= |text| && s == text[a..b];
    var p, q :| 0 <= p <= q <= |s| && q - p == limit && w == Strip(s[p..q]);
    SliceOfSlice(text, a, b, p, q);
  }

  // ---- sentences ----------------------------------------------------------

  /** Every sentence but the last ends with a delimiter, and each is a stretch of the text. */
  ghost predicate AreSentences(text: string, sentences: seq<string>) {
    && (forall k :: 0 <= k < |sentences| ==> Strip(sentences[k]) != "" && IsSlice(text, sentences[k]) && Bare(sentences[k]))
    && (forall k :: 0 <= k < |sentences| - 1 ==> EndsSentence(sentences[k]))
  }

  /** Finished sentences: single, ended, and cut from the text. */
  ghost predicate Ended(text: string, sentences: seq<string>) {
    forall k :: 0 <= k < |sentences| ==> OneSentence(sentences[k]) && EndsSentence(sentences[k]) && IsSlice(text, sentences[k]) && Bare(sentences[k])
  }

  predicate Open(current: string) {
    forall p :: 0 <= p < |current| ==> !IsDelimiter(current[p])
  }

  /** The text read since the last delimiter, stripped, is one more finished sentence. */
  lemma {:induction false} EndOne(text: string, sentences: seq<string>, current: string, i: nat)
    requires Ended(text, sentences) && current != "" && |current| <= i <= |text| && current == text[i - |current|..i]
    requires Open(current[..|current| - 1]) && IsDelimiter(current[|current| - 1])
    ensures Strip(current) != "" && Ended(text, sentences + [Strip(current)])
  {
    hide Strip, IsSlice;
    StripBare(current);
    assert OneSentence(current) by {
      forall p | 0 <= p < |current| - 1 ensures !IsDelimiter(current[p]) { assert current[..|current| - 1][p] == current[p]; }
    }
    StripOneSentence(current);
    StripEnds(current);
    StripSlice(text, i - |current|, i);
  }

  /** What is left at the end of the text is the last sentence. */
  lemma {:induction false} EndAll(text: string, sentences: seq<string>, current: string)
    requires Ended(text, sentences) && |current| <= |text| && current == text[|text| - |current|..] && Open(current)
    ensures Split(sentences) && AreSentences(text, sentences)
    ensures Strip(current) != "" ==> Split(sentences + [Strip(current)]) && AreSentences(text, sentences + [Strip(current)])
  {
    hide Strip, IsSlice, Erase;
    StripBare(current);
    StripOneSentence(current);
    assert text[|text| - |current|..] == text[|text| - |current|..|text|];
    StripSlice(text, |text| - |current|, |text|);
    forall k | 0 <= k < |sentences| ensures Strip(sentences[k]) != "" { StripEnds(sentences[k]); }
    StripVisible(current);
    StripVisible(Strip(current));
    EraseStrip(current);
  }

  /** Reading one more character. */
  lemma {:induction false} ReadOne(text: string, held: string, current: string, i: nat)
    requires i < |text| && held + Erase(current) == Erase(text[..i])
    ensures held + Erase(current + [text[i]]) == Erase(text[..i + 1])
  {
    hide Erase;
    assert text[..i + 1] == text[..i] + [text[i]];
    EraseJoin(text[..i], [text[i]]);
    EraseJoin(current, [text[i]]);
    Assoc(held, Erase(current), Erase([text[i]]));
  }

  /** Sentences end at a delimiter; what follows the last one is a sentence too. */
  method Sentences(text: string) returns (sentences: seq<string>)
    ensures Erase(Flatten(sentences)) == Erase(text) && Split(sentences)
    ensures AreSentences(text, sentences)
  {
    hide Erase, Strip, Flatten, Ended, Split, AreSentences;
    EraseEmpty();
    NoneEnded(text);
    sentences := [];
    var current := "";
    for i := 0 to |text|
      invariant Erase(Flatten(sentences)) + Erase(current) == Erase(text[..i])
      invariant |current| <= i && current == text[i - |current|..i]
      invariant Ended(text, sentences) && Open(current)
    {
      ReadOne(text, Erase(Flatten(sentences)), current, i);
      ghost var open := current;
      current := current + [text[i]];
      if IsDelimiter(text[i]) {
        assert current[..|current| - 1] == open;
        EndOne(text, sentences, current, i + 1);
        var sent := Strip(current);
        EraseStrip(current);
        ErasePush(sentences, sent);
        if sent != "" { sentences := sentences + [sent]; }
        current := "";
      }
    }
    assert text[..|text|] == text;
    EndAll(text, sentences, current);
    EraseStrip(current);
    ErasePush(sentences, Strip(current));
    if Strip(current) != "" { sentences := sentences + [Strip(current)]; }
  }

  lemma {:induction false} NoneEnded(text: string)
    ensures Ended(text, []) && Flatten<char>([]) == ""
  {
  }

  /** The first `start` characters have been cut into stripped windows; the last one may
      be short if it reaches the end of the sentence. */
  ghost predicate CutUpTo(sent: string, start: nat, pieces: seq<string>, limit: int)
    requires start <= |sent|
  {
    && Holds(pieces, sent[..start], limit)
    && (OneSentence(sent) ==> Split(pieces))
    && (forall k :: 0 <= k < |pieces| && (start < |sent| || k < |pieces| - 1) ==> IsWindow(sent, pieces[k], limit))
    && (start == |sent| && EndsSentence(sent) ==> pieces != [] && EndsSentence(pieces[|pieces| - 1]))
  }

  lemma {:induction false} CutOne(sent: string, start: nat, stop: nat, pieces: seq<string>, limit: int)
    requires start < stop <= |sent| && stop <= start + limit && (stop < |sent| ==> stop == start + limit)
    requires CutUpTo(sent, start, pieces, limit)
    ensures CutUpTo(sent, stop, pieces + [Strip(sent[start..stop])], limit)
  {
    hide Erase, Strip, IsWindow;
    var piece := sent[start..stop];
    EraseStrip(piece);
    if OneSentence(sent) { StripOneSentence(piece); }
    if stop == |sent| && EndsSentence(sent) { StripEnds(piece); }
    if stop == start + limit { WindowAt(sent, start, limit); }
    ErasePush(pieces, Strip(piece));
    EraseJoin(sent[..start], piece);
    assert sent[..stop] == sent[..start] + piece;
  }

  /** Cut a long sentence into stripped pieces of at most `limit` characters. */
  method HardSplit(sent: string, limit: int) returns (pieces: seq<string>)
    requires limit >= 1 && sent != ""
    ensures CutUpTo(sent, |sent|, pieces, limit)
    ensures |pieces| * limit >= |sent| && forall k :: 0 <= k < |pieces| ==> IsPiece(sent, k * limit, limit, pieces[k])
  {
    hide CutUpTo, Strip, IsPiece;
    pieces := [];
    var start := 0;
    NothingCut(sent, limit);
    while start < |sent|
      invariant 0 <= start && CutUpTo(sent, if start <= |sent| then start else |sent|, pieces, limit)
      invariant start == |pieces| * limit && forall k :: 0 <= k < |pieces| ==> IsPiece(sent, k * limit, limit, pieces[k])
    {
      var stop := if start + limit <= |sent| then start + limit else |sent|;
      CutOne(sent, start, stop, pieces, limit);
      PieceAt(sent, start, limit);
      pieces := pieces + [Strip(sent[start..stop])];
      start := start + limit;
    }
  }

  /** The text from `start` on, up to `limit` characters of it, stripped. */
  ghost predicate IsPiece(sent: string, start: int, limit: int, piece: string) {
    0 <= start < |sent| && limit >= 1 && StripsTo(sent[start..if start + limit <= |sent| then start + limit else |sent|], piece)
  }

  lemma {:induction false} PieceAt(sent: string, start: nat, limit: int)
    requires start < |sent| && limit >= 1
    ensures IsPiece(sent, start, limit, Strip(sent[start..if start + limit <= |sent| then start + limit else |sent|]))
  {
    hide Strip, StripsTo;
    var cut := sent[start..if start + limit <= |sent| then start + limit else |sent|];
    StripIff(cut, Strip(cut));
  }

  lemma {:induction false} StripBare(s: string)
    ensures Bare(Strip(s))
  {
    hide Strip;
    StripIff(s, Strip(s));
  }

  lemma {:induction false} NothingCut(sent: string, limit: int)
    requires sent != ""
    ensures CutUpTo(sent, 0, [], limit)
  {
    assert sent[..0] == "";
  }

  lemma {:induction false} WindowAt(s: string, p: nat, limit: int)
    requires 0 <= limit && p + limit <= |s|
    ensures IsWindow(s, Strip(s[p..p + limit]), limit)
  {
    hide Strip;
  }

  /** All chunks before the last are due; the last one too if more is to come. */
  ghost predicate AllDue(text: string, chunks: seq<string>, limit: int, more: bool) {
    forall k :: 0 <= k < |chunks| && (more || k < |chunks| - 1) ==> Due(text, chunks[k], limit)
  }

  /** The chunks made of one sentence. */
  ghost predicate Pieces(text: string, sent: string, pieces: seq<string>, limit: int, more: bool) {
    && Holds(pieces, sent, limit) && Split(pieces) && AllDue(text, pieces, limit, more) && AllBare(pieces)
  }

  ghost predicate AllBare(chunks: seq<string>) {
    forall k :: 0 <= k < |chunks| ==> Bare(chunks[k])
  }

  method SplitOne(ghost text: string, sent: string, limit: int, ghost more: bool) returns (pieces: seq<string>)
    requires limit >= 1 && IsSlice(text, sent) && OneSentence(sent) && Bare(sent) && (more ==> EndsSentence(sent))
    ensures Pieces(text, sent, pieces, limit, more)
    ensures |sent| <= limit ==> pieces == [sent]
  {
    hide Erase, IsWindow, IsSlice, EndsSentence;
    if |sent| <= limit {
      ErasePush([], sent);
      EraseEmpty();
      return [sent];
    }
    pieces := HardSplit(sent, limit);
    assert sent[..|sent|] == sent;
    assert AllBare(pieces) by {
      forall k | 0 <= k < |pieces| ensures Bare(pieces[k]) { assert IsPiece(sent, k * limit, limit, pieces[k]); }
    }
    forall k | 0 <= k < |pieces| - 1 ensures Due(text, pieces[k], limit) {
      WindowOfSlice(text, sent, pieces[k], limit);
    }
  }

  lemma {:induction false} AddPieces(text: string, chunks: seq<string>, sent: string, pieces: seq<string>, held: string, limit: int, more: bool)
    requires Holds(chunks, held, limit) && Split(chunks) && AllDue(text, chunks, limit, true) && Pieces(text, sent, pieces, limit, more) && AllBare(chunks)
    ensures Holds(chunks + pieces, held + sent, limit) && Split(chunks + pieces) && AllDue(text, chunks + pieces, limit, more) && AllBare(chunks + pieces)
  {
    hide Erase, Due;
    HoldsMore(chunks, pieces);
    EraseJoin(held, sent);
  }

  /** Nothing is cut except where a sentence ends or the limit is used up. */
  method SplitBySentences(text: string, limit: int) returns (chunks: seq<string>)
    requires limit >= 1 || Erase(text) == ""
    ensures Holds(chunks, text, limit) && Split(chunks) && AllBare(chunks)
    ensures AllDue(text, chunks, limit, false)
    ensures forall k, p :: 0 <= k < |chunks| && 0 <= p < |chunks[k]| - 1 ==> chunks[k][p] !in {'.', '?', '!'}
  {
    hide Erase, IsSlice, EndsSentence, Due, Pieces, Flatten;
    EraseEmpty();
    NoneEnded(text);
    if text == "" { return []; }
    var sentences := Sentences(text);
    chunks := [];
    for i := 0 to |sentences|
      invariant Holds(chunks, Flatten(sentences[..i]), limit) && Split(chunks) && AllDue(text, chunks, limit, i < |sentences|) && AllBare(chunks)
    {
      assert sentences[..i + 1] == sentences[..i] + [sentences[i]];
      FlattenPush(sentences[..i], sentences[i]);
      LimitGiven(text, sentences, i, limit);
      var pieces := SplitOne(text, sentences[i], limit, i + 1 < |sentences|);
      AddPieces(text, chunks, sentences[i], pieces, Flatten(sentences[..i]), limit, i + 1 < |sentences|);
      chunks := chunks + pieces;
    }
    assert sentences[..|sentences|] == sentences;
  }

  /** A text with a sentence in it is not blank. */
  lemma {:induction false} LimitGiven(text: string, sentences: seq<string>, i: nat, limit: int)
    requires i < |sentences| && Erase(Flatten(sentences)) == Erase(text) && Strip(sentences[i]) != ""
    requires limit >= 1 || Erase(text) == ""
    ensures limit >= 1
  {
    hide Erase, Flatten, Strip;
    if Erase(text) == "" {
      PieceErased(sentences, i);
      StripVisible(sentences[i]);
    }
  }

  lemma {:induction false} HoldsMore(a: seq<string>, b: seq<string>)
    ensures Erase(Flatten(a + b)) == Erase(Flatten(a)) + Erase(Flatten(b))
  {
    FlattenJoin(a, b);
    EraseJoin(Flatten(a), Flatten(b));
  }

  /** `text.split('\n\n')`, scanning from the left. */
  function SplitBlank(text: string, open: string): seq<string>
    decreases |text|
  {
    if text == "" then [open]
    else if "\n\n" <= text then [open] + SplitBlank(text[2..], "")
    else SplitBlank(text[1..], open + [text[0]])
  }

  lemma {:induction false} FlattenFront(first: string, rest: seq<string>)
    ensures Flatten([first] + rest) == first + Flatten(rest)
  {
    FlattenJoin([first], rest);
    assert [first][..0] == [] && Flatten([first]) == "" + first;
  }

  /** Splitting at blank lines takes out nothing but line ends. */
  lemma {:induction false} SplitKeeps(text: string, open: string)
    ensures Erase(Flatten(SplitBlank(text, open))) == Erase(open) + Erase(text)
    decreases |text|
  {
    hide Erase, Flatten;
    EraseEmpty();
    NoneEnded(text);
    if text == "" {
      FlattenFront(open, []);
      assert [open] + [] == [open] && open + "" == open;
    } else if "\n\n" <= text {
      SplitKeeps(text[2..], "");
      FlattenFront(open, SplitBlank(text[2..], ""));
      EraseJoin(open, Flatten(SplitBlank(text[2..], "")));
      BlankErased();
      EraseJoin("\n\n", text[2..]);
      assert text == "\n\n" + text[2..];
    } else {
      SplitKeeps(text[1..], open + [text[0]]);
      EraseJoin(open, [text[0]]);
      EraseJoin([text[0]], text[1..]);
      assert text == [text[0]] + text[1..];
      Assoc(Erase(open), Erase([text[0]]), Erase(text[1..]));
    }
  }

  lemma {:induction false} BlankErased()
    ensures Erase("\n\n") == ""
  {
    assert "\n\n"[..1] == "\n" && "\n"[..0] == "" && Erase("\n") == "";
  }

  /** No blank line inside. */
  predicate OneParagraph(s: string) {
    forall p :: 0 <= p < |s| - 1 ==> !(s[p] == '\n' && s[p + 1] == '\n')
  }

  /** The paragraphs contain no blank line. */
  lemma {:induction false} SplitParagraphs(text: string, open: string)
    requires OneParagraph(open) && (open != "" && open[|open| - 1] == '\n' && text != "" ==> text[0] != '\n')
    ensures forall k :: 0 <= k < |SplitBlank(text, open)| ==> OneParagraph(SplitBlank(text, open)[k])
    decreases |text|
  {
    if text == "" {
    } else if "\n\n" <= text {
      SplitParagraphs(text[2..], "");
    } else {
      var more := open + [text[0]];
      assert OneParagraph(more);
      SplitParagraphs(text[1..], more);
    }
  }

  lemma {:induction false} StripOneParagraph(s: string)
    requires OneParagraph(s)
    ensures OneParagraph(Strip(s))
  {
    hide Strip;
    var lo, hi := StripIsSlice(s);
  }

  /** Splitting cuts at the blank lines as they come from the left: joined by blank lines
      the paragraphs are the text again, none has a blank line inside, and none but the
      last ends in a line end, where the blank line would have begun earlier. */
  lemma {:induction false} SplitExactly(text: string)
    ensures var parts := SplitBlank(text, "");
      && parts != [] && Join("\n\n", parts) == text
      && (forall k :: 0 <= k < |parts| ==> OneParagraph(parts[k]))
      && Leftmost(parts)
  {
    SplitParagraphs(text, "");
    SplitJoins(text, "");
    SplitLeftmost(text, "");
    assert "" + text == text;
  }

  predicate EndsLine(s: string) {
    s != "" && s[|s| - 1] == '\n'
  }

  lemma {:induction false} SplitJoins(text: string, open: string)
    ensures SplitBlank(text, open) != [] && Join("\n\n", SplitBlank(text, open)) == open + text
    decreases |text|
  {
    if text == "" {
    } else if "\n\n" <= text {
      var rest := SplitBlank(text[2..], "");
      SplitJoins(text[2..], "");
      JoinConcat("\n\n", [open], rest);
      assert open + "\n\n" + ("" + text[2..]) == open + text;
    } else {
      SplitJoins(text[1..], open + [text[0]]);
      assert open + [text[0]] + text[1..] == open + text;
    }
  }

  ghost predicate Leftmost(parts: seq<string>) {
    forall k :: 0 <= k < |parts| - 1 ==> !EndsLine(parts[k])
  }

  lemma {:induction false} LeftmostFront(first: string, rest: seq<string>)
    requires !EndsLine(first) && Leftmost(rest)
    ensures Leftmost([first] + rest)
  {
    var parts := [first] + rest;
    forall k | 0 <= k < |parts| - 1 ensures !EndsLine(parts[k]) { if k > 0 { assert parts[k] == rest[k - 1]; } }
  }

  lemma {:induction false} SplitLeftmost(text: string, open: string)
    requires EndsLine(open) && text != "" ==> text[0] != '\n'
    ensures Leftmost(SplitBlank(text, open))
    decreases |text|
  {
    if text == "" {
    } else if "\n\n" <= text {
      assert text[0] == "\n\n"[0] == '\n';
      SplitLeftmost(text[2..], "");
      LeftmostFront(open, SplitBlank(text[2..], ""));
    } else {
      assert text[0] == '\n' && |text| > 1 ==> text[1] != '\n';
      SplitLeftmost(text[1..], open + [text[0]]);
    }
  }

  /** The paragraphs that are not blank, stripped. */
  function Kept(paragraphs: seq<string>): seq<string> {
    if paragraphs == [] then []
    else
      var n := |paragraphs| - 1;
      var last := Strip(paragraphs[n]);
      Kept(paragraphs[..n]) + if last != "" then [last] else []
  }

  ghost predicate AllFit(paragraphs: seq<string>, limit: int) {
    forall k :: 0 <= k < |paragraphs| ==> |Strip(paragraphs[k])| <= limit
  }

  /** The chunks of one paragraph: itself if it fits, otherwise its sentences. */
  ghost predicate ChunksOf(paragraph: string, subs: seq<string>, limit: int) {
    && Holds(subs, paragraph, limit)
    && (forall k :: 0 <= k < |subs| ==> OneParagraph(subs[k]) || OneSentence(subs[k]))
    && (|Strip(paragraph)| <= limit ==> subs == if Strip(paragraph) == "" then [] else [Strip(paragraph)])
  }

  method ChunkOne(paragraph: string, limit: int) returns (subs: seq<string>)
    requires OneParagraph(paragraph) && (limit >= 1 || Erase(paragraph) == "")
    ensures ChunksOf(paragraph, subs, limit)
  {
    hide Erase, Strip;
    var para := Strip(paragraph);
    EraseStrip(paragraph);
    StripVisible(paragraph);
    StripOneParagraph(paragraph);
    EraseEmpty();
    NoneEnded(paragraph);
    if para == "" { return []; }
    if |para| <= limit {
      ErasePush([], para);
      return [para];
    }
    subs := SplitBySentences(para, limit);
  }

  /** The chunks of the first `i` paragraphs. */
  ghost predicate ChunksUpTo(paragraphs: seq<string>, i: nat, chunks: seq<string>, limit: int)
    requires i <= |paragraphs|
  {
    && Holds(chunks, Flatten(paragraphs[..i]), limit)
    && (forall k :: 0 <= k < |chunks| ==> OneParagraph(chunks[k]) || OneSentence(chunks[k]))
    && (AllFit(paragraphs, limit) ==> chunks == Kept(paragraphs[..i]))
  }

  lemma {:induction false} AddParagraph(paragraphs: seq<string>, i: nat, chunks: seq<string>, subs: seq<string>, limit: int)
    requires i < |paragraphs| && ChunksUpTo(paragraphs, i, chunks, limit) && ChunksOf(paragraphs[i], subs, limit)
    ensures ChunksUpTo(paragraphs, i + 1, chunks + subs, limit)
  {
    hide Erase, Strip, OneParagraph, OneSentence, Flatten;
    HoldsMore(chunks, subs);
    assert paragraphs[..i + 1][..i] == paragraphs[..i] && paragraphs[..i + 1] == paragraphs[..i] + [paragraphs[i]];
    ErasePush(paragraphs[..i], paragraphs[i]);
  }

  method ParagraphChunker(text: string, limit: int) returns (chunks: seq<string>)
    requires limit >= 1 || Erase(text) == ""
    ensures Holds(chunks, text, limit)
    ensures AllFit(SplitBlank(text, ""), limit) ==> chunks == Kept(SplitBlank(text, ""))
    ensures forall k :: 0 <= k < |chunks| ==> OneParagraph(chunks[k]) || OneSentence(chunks[k])
  {
    var paragraphs := SplitBlank(text, "");
    SplitKeeps(text, "");
    SplitParagraphs(text, "");
    EraseEmpty();
    NoneEnded(text);
    assert paragraphs[..0] == [] && ChunksUpTo(paragraphs, 0, [], limit);
    assert "" + Erase(text) == Erase(text);
    hide Erase, Strip, SplitBlank, ChunksUpTo, ChunksOf, Flatten, OneParagraph, OneSentence;
    chunks := [];
    for i := 0 to |paragraphs|
      invariant ChunksUpTo(paragraphs, i, chunks, limit)
    {
      if limit < 1 { PieceErased(paragraphs, i); }
      var subs := ChunkOne(paragraphs[i], limit);
      AddParagraph(paragraphs, i, chunks, subs, limit);
      chunks := chunks + subs;
    }
    AllChunked(text, paragraphs, chunks, limit);
  }

  lemma {:induction false} AllChunked(text: string, paragraphs: seq<string>, chunks: seq<string>, limit: int)
    requires ChunksUpTo(paragraphs, |paragraphs|, chunks, limit) && Erase(Flatten(paragraphs)) == Erase(text)
    ensures Holds(chunks, text, limit) && (AllFit(paragraphs, limit) ==> chunks == Kept(paragraphs))
    ensures forall k :: 0 <= k < |chunks| ==> OneParagraph(chunks[k]) || OneSentence(chunks[k])
  {
    hide Erase, Flatten, OneParagraph, OneSentence, AllFit, Kept;
    assert paragraphs[..|paragraphs|] == paragraphs;
  }
}
