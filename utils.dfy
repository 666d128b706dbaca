/** The parsing and chunking helpers of the app: the three file parsers, which turn
    a stored upload into its text and a page map, and the sentence chunker
    `chunk_text`. Reading files, PyPDF2 and the Markdown renderer are outside the
    model: a stored file carries what they would have produced. */
module Utils {
  import opened Wrappers
  import opened PyText

  // ================================================================ file parsing

  /** A stored upload as the parsers see it: its path on disk, the text PyPDF2
      extracts from each of its pages, and its content read as UTF-8 text. */
  datatype StoredFile = StoredFile(path: string, pdfPages: seq<string>, content: string)

  /** One `(page_number, page_text)` pair of a page map. */
  datatype PageEntry = PageEntry(number: nat, text: string)

  /** What every parser returns: the full text and the page map. */
  datatype Parsed = Parsed(text: string, pageMap: seq<PageEntry>)

  /** The three parsers the dispatch tables choose between. */
  datatype Parser = Pdf | Markdown | PlainText

  /** The page map `parse_pdf` builds: one entry per page whose extracted text is
      non-empty, numbered from 1 by page position. */
  function PdfPageMap(pages: seq<string>): seq<PageEntry>
    decreases |pages|
  {
    if |pages| == 0 then []
    else
      var last := pages[|pages| - 1];
      PdfPageMap(pages[..|pages| - 1]) + (if last != "" then [PageEntry(|pages|, last)] else [])
  }

  /** The full text `parse_pdf` builds from its page map: each page text followed by a newline. */
  function PageText(pageMap: seq<PageEntry>): string
    decreases |pageMap|
  {
    if |pageMap| == 0 then ""
    else PageText(pageMap[..|pageMap| - 1]) + pageMap[|pageMap| - 1].text + "\n"
  }

  /** `parse_pdf` over the page texts PyPDF2 extracted. */
  method ParsePdf(pages: seq<string>) returns (text: string, pageMap: seq<PageEntry>)
    ensures pageMap == PdfPageMap(pages)
    ensures text == PageText(pageMap)
  {
    text := "";
    pageMap := [];
    for i := 0 to |pages|
      invariant pageMap == PdfPageMap(pages[..i])
      invariant text == PageText(pageMap)
    {
      var pageText := pages[i];
      assert pages[..i + 1][..i] == pages[..i];
      if pageText != "" {
        text := text + pageText + "\n";
        pageMap := pageMap + [PageEntry(i + 1, pageText)];
        assert pageMap[..|pageMap| - 1] == PdfPageMap(pages[..i]);
      }
    }
    assert pages[..|pages|] == pages;
  }

  /** Every entry of `parse_pdf`'s page map names a page by its 1-based position and
      holds that page's text, which is non-empty. */
  lemma {:induction false} PdfPageMapEntries(pages: seq<string>)
    ensures forall e :: e in PdfPageMap(pages) ==>
      1 <= e.number <= |pages| && e.text == pages[e.number - 1] && e.text != ""
    decreases |pages|
  {
    if |pages| > 0 {
      var init := pages[..|pages| - 1];
      PdfPageMapEntries(init);
      assert forall i :: 0 <= i < |init| ==> init[i] == pages[i];
    }
  }

  /** The page numbers of `parse_pdf`'s page map are strictly increasing. */
  lemma {:induction false} PdfPageMapIncreasing(pages: seq<string>)
    ensures forall k, l :: 0 <= k < l < |PdfPageMap(pages)| ==>
      PdfPageMap(pages)[k].number < PdfPageMap(pages)[l].number
    decreases |pages|
  {
    if |pages| > 0 {
      var init := pages[..|pages| - 1];
      PdfPageMapIncreasing(init);
      PdfPageMapEntries(init);
      var m := PdfPageMap(init);
      var r := PdfPageMap(pages);
      assert forall k :: 0 <= k < |m| ==> r[k] == m[k] && m[k] in m;
    }
  }

  /** Every page whose extracted text is non-empty has its entry, numbered by its
      1-based position, in `parse_pdf`'s page map. */
  lemma {:induction false} PdfPageMapComplete(pages: seq<string>)
    ensures forall i :: 0 <= i < |pages| && pages[i] != "" ==> PageEntry(i + 1, pages[i]) in PdfPageMap(pages)
    decreases |pages|
  {
    if |pages| > 0 {
      var n := |pages| - 1;
      var init := pages[..n];
      PdfPageMapComplete(init);
      assert forall i :: 0 <= i < n ==> init[i] == pages[i];
    }
  }

  /** `parse_markdown`: the text unchanged, as a single page 1 (the HTML rendering
      it computes is discarded). */
  function ParseMarkdown(content: string): (r: Parsed)
    ensures r.text == content
    ensures r.pageMap == [PageEntry(1, content)]
  {
    Parsed(content, [PageEntry(1, content)])
  }

  /** `parse_text`: the text unchanged, as a single page 1. */
  function ParseText(content: string): (r: Parsed)
    ensures r.text == content
    ensures r.pageMap == [PageEntry(1, r.text)]
  {
    Parsed(content, [PageEntry(1, content)])
  }

  /** What the chosen parser returns for a stored file. */
  function ParseFile(parser: Parser, file: StoredFile): Parsed {
    match parser
    case Pdf => Parsed(PageText(PdfPageMap(file.pdfPages)), PdfPageMap(file.pdfPages))
    case Markdown => ParseMarkdown(file.content)
    case PlainText => ParseText(file.content)
  }

  /** Runs the chosen parser on a stored file. */
  method Parse(parser: Parser, file: StoredFile) returns (parsed: Parsed)
    ensures parsed == ParseFile(parser, file)
    ensures parser != Pdf ==> parsed.text == file.content
  {
    match parser {
      case Pdf =>
        var text, pageMap := ParsePdf(file.pdfPages);
        parsed := Parsed(text, pageMap);
      case Markdown =>
        parsed := ParseMarkdown(file.content);
      case PlainText =>
        parsed := ParseText(file.content);
    }
  }

  // ================================================================ chunking

  /** The characters of the class `[.!?]`. */
  predicate IsSentenceEnd(c: char) {
    c == '.' || c == '!' || c == '?'
  }

  /** The pattern `(?<=[.!?]) +` can start a match at position `p` of `s`:
      the character before `p` ends a sentence and the one at `p` is a space. */
  predicate BreaksAt(s: string, p: int) {
    0 < p < |s| && IsSentenceEnd(s[p - 1]) && s[p] == ' '
  }

  /** No sentence end in `s` is immediately followed by a space. */
  ghost predicate NoBreak(s: string) {
    forall p :: !BreaksAt(s, p)
  }

  /** Every character of `s` is a space (U+0020). */
  ghost predicate AllSpaces(s: string) {
    forall k :: 0 <= k < |s| ==> s[k] == ' '
  }

  /** Where the next match of the pattern at or after `from` starts, or `|s|`. */
  function FindBreak(s: string, from: nat): (p: nat)
    requires from <= |s|
    ensures from <= p <= |s|
    ensures p < |s| ==> BreaksAt(s, p)
    ensures forall q :: from <= q < p ==> !BreaksAt(s, q)
    decreases |s| - from
  {
    if from == |s| then |s|
    else if BreaksAt(s, from) then from
    else FindBreak(s, from + 1)
  }

  /** Where the run of spaces starting at `from` ends: the greedy ` +` of the pattern. */
  function SpaceRunEnd(s: string, from: nat): (e: nat)
    requires from <= |s|
    ensures from <= e <= |s|
    ensures forall k :: from <= k < e ==> s[k] == ' '
    ensures e == |s| || s[e] != ' '
    decreases |s| - from
  {
    if from == |s| || s[from] != ' ' then from else SpaceRunEnd(s, from + 1)
  }

  /** `re.split(r'(?<=[.!?]) +', s)`: the pieces between the matches of the pattern,
      found left to right. */
  function SplitSentences(s: string): (pieces: seq<string>)
    ensures |pieces| >= 1
    decreases |s|
  {
    var p := FindBreak(s, 0);
    if p == |s| then [s]
    else [s[..p]] + SplitSentences(s[SpaceRunEnd(s, p)..])
  }

  /** A break of a prefix of `s` is a break of `s` before the prefix's end. */
  lemma BreaksAtPrefix(s: string, k: nat, q: int)
    requires k <= |s|
    ensures BreaksAt(s[..k], q) <==> q < k && BreaksAt(s, q)
  {
    if 0 < q < k {
      assert s[..k][q - 1] == s[q - 1] && s[..k][q] == s[q];
    }
  }

  /** `s` is cut after its prefix `head`, where a match of the pattern starts, and the
      match (a maximal run of spaces) ends at `e`. */
  ghost predicate CutAt(s: string, head: string, e: int) {
    && |head| < e <= |s| && s[..|head|] == head && NoBreak(head) && BreaksAt(s, |head|)
    && AllSpaces(s[|head|..e]) && (e == |s| || s[e] != ' ')
  }

  /** The reference description of the split: `pieces` is `s` cut at every maximal
      run of spaces that follows a sentence end. The first piece runs up to the first
      such run (it ends with `.`, `!` or `?` and contains no such run), the run is
      dropped, and the rest of `s` is cut the same way; the last piece is what is left
      when no such run remains. */
  ghost predicate SplitsAs(s: string, pieces: seq<string>)
    decreases |pieces|
  {
    if |pieces| <= 1 then pieces == [s] && NoBreak(s)
    else exists e :: CutAt(s, pieces[0], e) && SplitsAs(s[e..], pieces[1..])
  }

  /** The split function meets the reference description. */
  lemma {:induction false} SplitSentencesSplitsAs(s: string)
    ensures SplitsAs(s, SplitSentences(s))
    decreases |s|
  {
    var p := FindBreak(s, 0);
    if p < |s| {
      var e := SpaceRunEnd(s, p);
      var pieces := SplitSentences(s);
      SplitSentencesSplitsAs(s[e..]);
      assert pieces[0] == s[..p] && pieces[1..] == SplitSentences(s[e..]);
      forall q ensures !BreaksAt(s[..p], q) {
        BreaksAtPrefix(s, p, q);
      }
      assert AllSpaces(s[p..e]);
      assert CutAt(s, pieces[0], e);
    }
  }

  /** The reference description determines the pieces: any split that meets it is
      the one the function computes. */
  lemma {:induction false} SplitsAsUnique(s: string, pieces: seq<string>)
    requires SplitsAs(s, pieces)
    ensures pieces == SplitSentences(s)
    decreases |pieces|
  {
    if |pieces| > 1 {
      var k := |pieces[0]|;
      var e :| CutAt(s, pieces[0], e) && SplitsAs(s[e..], pieces[1..]);
      var p := FindBreak(s, 0);
      assert !BreaksAt(pieces[0], p);
      BreaksAtPrefix(s, k, p);
      assert p == k;
      var e' := SpaceRunEnd(s, p);
      assert forall i :: k <= i < e ==> s[i] == s[k..e][i - k];
      assert e' == e;
      SplitsAsUnique(s[e..], pieces[1..]);
    }
  }

  /** A split of `s` respects blankness: `s` is all whitespace exactly when every
      piece is. (The dropped runs are spaces, which are whitespace.) */
  lemma {:induction false} SplitsAsBlank(s: string, pieces: seq<string>)
    requires SplitsAs(s, pieces)
    ensures Blank(s) <==> forall j :: 0 <= j < |pieces| ==> Blank(pieces[j])
    decreases |pieces|
  {
    if |pieces| > 1 {
      var k := |pieces[0]|;
      var e :| CutAt(s, pieces[0], e) && SplitsAs(s[e..], pieces[1..]);
      SplitsAsBlank(s[e..], pieces[1..]);
      assert s == pieces[0] + s[k..e] + s[e..];
      assert Blank(s[k..e]);
      BlankConcat(pieces[0], s[k..e], s[e..]);
      assert forall j :: 1 <= j < |pieces| ==> pieces[j] == pieces[1..][j - 1];
    }
  }

  /** A concatenation is blank exactly when its parts are. */
  lemma BlankConcat(a: string, b: string, c: string)
    ensures Blank(a + b + c) <==> Blank(a) && Blank(b) && Blank(c)
  {
    var s := a + b + c;
    if Blank(a) && Blank(b) && Blank(c) {
      forall i | 0 <= i < |s| ensures IsSpace(s[i]) {
        if i < |a| { assert s[i] == a[i]; }
        else if i < |a| + |b| { assert s[i] == b[i - |a|]; }
        else { assert s[i] == c[i - |a| - |b|]; }
      }
    }
    if Blank(s) {
      assert forall i :: 0 <= i < |a| ==> a[i] == s[i];
      assert forall i :: 0 <= i < |b| ==> b[i] == s[|a| + i];
      assert forall i :: 0 <= i < |c| ==> c[i] == s[|a| + |b| + i];
    }
  }

  /** Every piece of a split contains no sentence end followed by a space, and every
      piece but the last ends with `.`, `!` or `?`. */
  lemma {:induction false} SplitsAsPieces(s: string, pieces: seq<string>)
    requires SplitsAs(s, pieces)
    ensures forall j :: 0 <= j < |pieces| ==> NoBreak(pieces[j])
    ensures forall j :: 0 <= j < |pieces| - 1 ==> EndsSentence(pieces[j])
    decreases |pieces|
  {
    if |pieces| > 1 {
      var e :| CutAt(s, pieces[0], e) && SplitsAs(s[e..], pieces[1..]);
      SplitsAsPieces(s[e..], pieces[1..]);
      var k := |pieces[0]|;
      assert pieces[0][k - 1] == s[k - 1];
      assert forall j :: 1 <= j < |pieces| ==> pieces[j] == pieces[1..][j - 1];
    }
  }

  /** `t` is non-empty and its last character is `.`, `!` or `?`. */
  predicate EndsSentence(t: string) {
    t != [] && IsSentenceEnd(t[|t| - 1])
  }

  /** `pieces` occur in `s` as contiguous substrings, in order and without overlap. */
  ghost predicate OrderedInfixes(pieces: seq<string>, s: string)
    decreases |pieces|
  {
    |pieces| == 0 ||
    exists i, j :: 0 <= i <= j <= |s| && s[i..j] == pieces[0] && OrderedInfixes(pieces[1..], s[j..])
  }

  /** Introduces `OrderedInfixes` for a list with a head found at `s[i..j]`. */
  lemma OrderedInfixesCons(head: string, rest: seq<string>, s: string, i: nat, j: nat)
    requires i <= j <= |s| && s[i..j] == head && OrderedInfixes(rest, s[j..])
    ensures OrderedInfixes([head] + rest, s)
  {
    assert ([head] + rest)[1..] == rest;
  }

  /** Introduces `OrderedInfixes` for a non-empty list whose head is found at `s[i..j]`. */
  lemma OrderedInfixesIntro(pieces: seq<string>, s: string, i: nat, j: nat)
    requires |pieces| > 0 && i <= j <= |s| && s[i..j] == pieces[0] && OrderedInfixes(pieces[1..], s[j..])
    ensures OrderedInfixes(pieces, s)
  {
  }

  lemma SliceOfSuffix(s: string, m: nat, i: nat, j: nat)
    requires m + j <= |s| && i <= j
    ensures s[m..][i..j] == s[m + i..m + j]
  {
  }

  lemma SuffixOfSuffix(s: string, m: nat, j: nat)
    requires m + j <= |s|
    ensures s[m..][j..] == s[m + j..]
  {
  }

  /** What occurs in order in `s[n..]` occurs in order in every longer suffix `s[m..]`. */
  lemma OrderedInfixesWiden(pieces: seq<string>, s: string, m: nat, n: nat)
    requires m <= n <= |s| && OrderedInfixes(pieces, s[n..])
    ensures OrderedInfixes(pieces, s[m..])
  {
    if |pieces| > 0 {
      var i, j :| 0 <= i <= j <= |s[n..]| && s[n..][i..j] == pieces[0]
                  && OrderedInfixes(pieces[1..], s[n..][j..]);
      var d := n - m;
      SliceOfSuffix(s, m, i + d, j + d);
      SliceOfSuffix(s, n, i, j);
      SuffixOfSuffix(s, m, j + d);
      SuffixOfSuffix(s, n, j);
      OrderedInfixesIntro(pieces, s[m..], i + d, j + d);
    }
  }

  /** What occurs in order in a suffix of `s` occurs in order in `s`. */
  lemma OrderedInfixesInSuffix(pieces: seq<string>, s: string, m: nat)
    requires m <= |s| && OrderedInfixes(pieces, s[m..])
    ensures OrderedInfixes(pieces, s)
  {
    OrderedInfixesWiden(pieces, s, 0, m);
    assert s[0..] == s;
  }

  /** The pieces of a split occur in `s` in order. */
  lemma {:induction false} SplitsAsInOrder(s: string, pieces: seq<string>)
    requires SplitsAs(s, pieces)
    ensures OrderedInfixes(pieces, s)
    decreases |pieces|
  {
    if |pieces| == 1 {
      assert s[0..|s|] == s == pieces[0];
      OrderedInfixesIntro(pieces, s, 0, |s|);
    } else {
      var k := |pieces[0]|;
      var e :| CutAt(s, pieces[0], e) && SplitsAs(s[e..], pieces[1..]);
      assert s[0..k] == s[..k] == pieces[0];
      SplitsAsInOrder(s[e..], pieces[1..]);
      OrderedInfixesWiden(pieces[1..], s, k, e);
      OrderedInfixesIntro(pieces, s, 0, k);
    }
  }

  /** `[p.strip() for p in pieces if p.strip()]`. */
  function StripAndDropEmpty(pieces: seq<string>): (r: seq<string>)
    ensures |r| <= |pieces|
    decreases |pieces|
  {
    if |pieces| == 0 then []
    else
      var head := Strip(pieces[0]);
      (if head != [] then [head] else []) + StripAndDropEmpty(pieces[1..])
  }

  /** Every stripped piece that is kept is non-empty and has no whitespace at its ends. */
  lemma {:induction false} StripAndDropEmptyTrimmed(pieces: seq<string>)
    ensures forall c :: c in StripAndDropEmpty(pieces) ==> c != [] && !IsSpace(c[0]) && !IsSpace(c[|c| - 1])
    decreases |pieces|
  {
    if |pieces| > 0 {
      StripSpec(pieces[0]);
      StripAndDropEmptyTrimmed(pieces[1..]);
    }
  }

  /** Stripping and dropping gives nothing exactly when every piece is blank. */
  lemma {:induction false} StripAndDropEmptyNone(pieces: seq<string>)
    ensures StripAndDropEmpty(pieces) == [] <==> forall j :: 0 <= j < |pieces| ==> Blank(pieces[j])
    decreases |pieces|
  {
    if |pieces| > 0 {
      StripSpec(pieces[0]);
      StripAndDropEmptyNone(pieces[1..]);
      assert forall j :: 1 <= j < |pieces| ==> pieces[j] == pieces[1..][j - 1];
    }
  }

  /** An infix of a string without breaks has none either. */
  lemma NoBreakInfix(s: string, a: nat, b: nat)
    requires a <= b <= |s| && NoBreak(s)
    ensures NoBreak(s[a..b])
  {
    forall q ensures !BreaksAt(s[a..b], q) {
      if 0 < q < b - a {
        assert s[a..b][q - 1] == s[a + q - 1] && s[a..b][q] == s[a + q];
        assert !BreaksAt(s, a + q);
      }
    }
  }

  /** Stripping a piece keeps the absence of breaks. */
  lemma StripNoBreak(p: string)
    requires NoBreak(p)
    ensures NoBreak(Strip(p))
  {
    var o := StripOffset(p);
    StripSpec(p);
    NoBreakInfix(p, o, o + |Strip(p)|);
  }

  /** Stripped pieces keep the absence of breaks. */
  lemma {:induction false} StripAndDropEmptyNoBreak(pieces: seq<string>)
    requires forall j :: 0 <= j < |pieces| ==> NoBreak(pieces[j])
    ensures forall c :: c in StripAndDropEmpty(pieces) ==> NoBreak(c)
    decreases |pieces|
  {
    if |pieces| > 0 {
      var rest := StripAndDropEmpty(pieces[1..]);
      assert forall c :: c in rest ==> NoBreak(c) by {
        assert forall j :: 0 <= j < |pieces[1..]| ==> pieces[1..][j] == pieces[j + 1];
        StripAndDropEmptyNoBreak(pieces[1..]);
      }
      var head := Strip(pieces[0]);
      StripNoBreak(pieces[0]);
      var first := if head != [] then [head] else [];
      assert StripAndDropEmpty(pieces) == first + rest;
      forall c | c in first + rest ensures NoBreak(c) {
        if c !in rest { assert c == head; }
      }
    }
  }

  /** If every piece but the last ends with a sentence end, so does every stripped
      piece but the last. */
  lemma {:induction false} StripAndDropEmptyEnds(pieces: seq<string>)
    requires forall j :: 0 <= j < |pieces| - 1 ==> EndsSentence(pieces[j])
    ensures forall j :: 0 <= j < |StripAndDropEmpty(pieces)| - 1 ==> EndsSentence(StripAndDropEmpty(pieces)[j])
    decreases |pieces|
  {
    if |pieces| > 1 {
      var p := pieces[0];
      var head := Strip(p);
      StripSpec(p);
      assert !IsSpace(p[|p| - 1]);
      assert StripOffset(p) + |head| == |p|;
      assert head[|head| - 1] == p[|p| - 1];
      assert forall j :: 0 <= j < |pieces[1..]| - 1 ==> pieces[1..][j] == pieces[j + 1];
      StripAndDropEmptyEnds(pieces[1..]);
      var r := StripAndDropEmpty(pieces);
      assert r == [head] + StripAndDropEmpty(pieces[1..]);
    }
  }

  /** Stripped, non-empty pieces still occur in order in `s`. */
  lemma {:induction false} StripAndDropEmptyInOrder(pieces: seq<string>, s: string)
    requires OrderedInfixes(pieces, s)
    ensures OrderedInfixes(StripAndDropEmpty(pieces), s)
    decreases |pieces|
  {
    if |pieces| > 0 {
      var i, j :| 0 <= i <= j <= |s| && s[i..j] == pieces[0] && OrderedInfixes(pieces[1..], s[j..]);
      StripAndDropEmptyInOrder(pieces[1..], s[j..]);
      var rest := StripAndDropEmpty(pieces[1..]);
      var head := Strip(pieces[0]);
      if head == [] {
        assert StripAndDropEmpty(pieces) == rest;
        OrderedInfixesInSuffix(rest, s, j);
      } else {
        assert StripAndDropEmpty(pieces) == [head] + rest;
        StrippedHeadInOrder(pieces[0], rest, s, i, j);
      }
    }
  }

  lemma SliceOfSlice(s: string, i: nat, j: nat, a: nat, b: nat)
    requires i <= j <= |s| && a <= b <= j - i
    ensures s[i..j][a..b] == s[i + a..i + b]
  {
    assert forall t :: 0 <= t < b - a ==> s[i..j][a..b][t] == s[i + a + t];
  }

  /** A non-empty stripped head found in `s[i..j]`, followed by what occurs in order
      after `j`, occurs in order in `s`. */
  lemma StrippedHeadInOrder(piece: string, rest: seq<string>, s: string, i: nat, j: nat)
    requires i <= j <= |s| && s[i..j] == piece && OrderedInfixes(rest, s[j..])
    ensures OrderedInfixes([Strip(piece)] + rest, s)
  {
    var head := Strip(piece);
    var o := StripOffset(piece);
    assert head == piece[o..o + |head|] by { StripSpec(piece); }
    var a := i + o;
    var b := a + |head|;
    SliceOfSlice(s, i, j, o, o + |head|);
    OrderedInfixesWiden(rest, s, b, j);
    OrderedInfixesCons(head, rest, s, a, b);
  }

  /** `chunk_text(text, chunk_size, overlap)`: split into sentences, strip each,
      drop the empty ones. The size and overlap arguments are accepted and ignored. */
  function ChunkText(text: string, chunkSize: Option<int> := None, overlap: Option<int> := None): seq<string> {
    StripAndDropEmpty(SplitSentences(text))
  }

  /** Every chunk is non-empty, starts and ends with a non-whitespace character, and
      so is its own `strip()`. */
  lemma ChunksAreTrimmed(text: string)
    ensures forall c :: c in ChunkText(text) ==>
      c != [] && !IsSpace(c[0]) && !IsSpace(c[|c| - 1]) && Strip(c) == c
  {
    StripAndDropEmptyTrimmed(SplitSentences(text));
    forall c | c in ChunkText(text) ensures Strip(c) == c { StripTrimmed(c); }
  }

  /** `chunk_text` returns nothing exactly when the text is empty or all whitespace. */
  lemma ChunkTextEmptyIffBlank(text: string)
    ensures ChunkText(text) == [] <==> Blank(text)
  {
    var pieces := SplitSentences(text);
    SplitSentencesSplitsAs(text);
    SplitsAsBlank(text, pieces);
    StripAndDropEmptyNone(pieces);
  }

  /** No chunk contains `.`, `!` or `?` immediately followed by a space: the text is
      split at every such place. */
  lemma ChunksHaveNoBreak(text: string)
    ensures forall c :: c in ChunkText(text) ==> NoBreak(c)
  {
    var pieces := SplitSentences(text);
    SplitSentencesSplitsAs(text);
    SplitsAsPieces(text, pieces);
    StripAndDropEmptyNoBreak(pieces);
  }

  /** Splits happen only after a sentence end: every chunk but the last ends with
      `.`, `!` or `?`. */
  lemma ChunksEndSentences(text: string)
    ensures var r := ChunkText(text);
      forall j :: 0 <= j < |r| - 1 ==> EndsSentence(r[j])
  {
    var pieces := SplitSentences(text);
    SplitSentencesSplitsAs(text);
    SplitsAsPieces(text, pieces);
    StripAndDropEmptyEnds(pieces);
    assert ChunkText(text) == StripAndDropEmpty(pieces);
  }

  /** The chunks are contiguous substrings of the text, in the text's order. */
  lemma ChunksInOrder(text: string)
    ensures OrderedInfixes(ChunkText(text), text)
  {
    var pieces := SplitSentences(text);
    SplitSentencesSplitsAs(text);
    SplitsAsInOrder(text, pieces);
    StripAndDropEmptyInOrder(pieces, text);
  }

  /** The size and overlap arguments have no effect. */
  lemma ChunkParametersIgnored(text: string, size1: Option<int>, overlap1: Option<int>,
                               size2: Option<int>, overlap2: Option<int>)
    ensures ChunkText(text, size1, overlap1) == ChunkText(text, size2, overlap2)
  {
  }

  /** A string in which the pattern finds no match has no break. */
  lemma NoBreakWhenNoneFound(s: string)
    requires FindBreak(s, 0) == |s|
    ensures NoBreak(s)
  {
  }

  /** Only spaces split: a newline after a full stop keeps the sentences together. */
  lemma NewlineDoesNotSplit()
    ensures ChunkText("A.\nB.") == ["A.\nB."]
  {
    var s := "A.\nB.";
    assert SplitSentences(s) == [s];
    StripTrimmed(s);
  }

  lemma FirstSentenceHasNoBreak()
    ensures NoBreak("The sky is blue.")
  {
    var a := "The sky is blue.";
    assert FindBreak(a, 12) == 16;
    assert FindBreak(a, 8) == 16;
    assert FindBreak(a, 4) == 16;
    NoBreakWhenNoneFound(a);
  }

  lemma SecondSentenceHasNoBreak()
    ensures NoBreak("The grass is green.")
  {
    var b := "The grass is green.";
    assert FindBreak(b, 15) == 19;
    assert FindBreak(b, 10) == 19;
    assert FindBreak(b, 5) == 19;
    NoBreakWhenNoneFound(b);
  }

  /** The two-sentence text is cut after its first sentence and the single space. */
  lemma TwoSentenceCut()
    ensures var s := "The sky is blue. The grass is green.";
      CutAt(s, "The sky is blue.", 17) && s[17..] == "The grass is green."
  {
    var s := "The sky is blue. The grass is green.";
    FirstSentenceHasNoBreak();
    assert s[..16] == "The sky is blue." && s[17..] == "The grass is green.";
    assert BreaksAt(s, 16) && s[16..17] == " ";
  }

  /** The two-sentence text splits into its two sentences. */
  lemma TwoSentenceSplit()
    ensures SplitSentences("The sky is blue. The grass is green.") == ["The sky is blue.", "The grass is green."]
  {
    var s := "The sky is blue. The grass is green.";
    var pieces := ["The sky is blue.", "The grass is green."];
    TwoSentenceCut();
    SecondSentenceHasNoBreak();
    assert SplitsAs(s[17..], pieces[1..]);
    assert SplitsAs(s, pieces);
    SplitsAsUnique(s, pieces);
  }

  /** Pieces that are already non-empty and trimmed all survive, unchanged. */
  lemma {:induction false} StripAndDropEmptyKeepsTrimmed(pieces: seq<string>)
    requires forall t :: t in pieces ==> t != [] && Strip(t) == t
    ensures StripAndDropEmpty(pieces) == pieces
    decreases |pieces|
  {
    if |pieces| > 0 {
      assert pieces[0] in pieces;
      assert forall t :: t in pieces[1..] ==> t in pieces;
      StripAndDropEmptyKeepsTrimmed(pieces[1..]);
    }
  }

  /** The two-sentence ingestion scenario: the text becomes two chunks, one per sentence. */
  lemma TwoSentenceScenario()
    ensures ChunkText("The sky is blue. The grass is green.") == ["The sky is blue.", "The grass is green."]
  {
    var pieces := ["The sky is blue.", "The grass is green."];
    TwoSentenceSplit();
    StripTrimmed(pieces[0]);
    StripTrimmed(pieces[1]);
    StripAndDropEmptyKeepsTrimmed(pieces);
  }
}
