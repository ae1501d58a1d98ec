/** Page text with its word index (`ingest/pdf.py`) and the mapping of ranges to word boxes (`detection/base.py`). */
module TextLayer {

  datatype BBox = BBox(x0: real, y0: real, x1: real, y1: real)

  datatype RawWord = RawWord(bbox: BBox, text: string, block: int, line: int)

  datatype WordBBox = WordBBox(start: int, end: int, bbox: BBox)

  datatype PageModel = PageModel(pageNumber: int, text: string, words: seq<WordBBox>)

  const WORD_JOIN := ' '
  const LINE_JOIN := '\n'

  /** The separator that follows raw word k, which must not be the last one. */
  function Separator(raw: seq<RawWord>, k: nat): char
    requires k + 1 < |raw|
  {
    if raw[k].block == raw[k + 1].block && raw[k].line == raw[k + 1].line then WORD_JOIN else LINE_JOIN
  }

  /** Word k of the index spells raw word k, and one separator stands between it and the next word. */
  ghost predicate Placed(raw: seq<RawWord>, text: string, words: seq<WordBBox>, k: nat)
    requires k < |words| <= |raw|
  {
    && 0 <= words[k].start <= words[k].end <= |text|
    && text[words[k].start..words[k].end] == raw[k].text
    && words[k].bbox == raw[k].bbox
    && (k + 1 < |raw| ==> words[k].end < |text| && text[words[k].end] == Separator(raw, k))
    && (k + 1 < |words| ==> words[k + 1].start == words[k].end + 1)
  }

  /** The first |words| raw words are laid out, each followed by its separator unless it is the last raw word. */
  ghost predicate Prefix(raw: seq<RawWord>, text: string, words: seq<WordBBox>) {
    && |words| <= |raw|
    && (forall k :: 0 <= k < |words| ==> Placed(raw, text, words, k))
    && (if words == [] then text == []
        else words[0].start == 0 && words[|words| - 1].end + (if |words| < |raw| then 1 else 0) == |text|)
  }

  /**
   * text and words are the text layer of raw: the words in order, nothing before, between or after
   * them but separators.
   */
  ghost predicate Layer(raw: seq<RawWord>, text: string, words: seq<WordBBox>) {
    |words| == |raw| && Prefix(raw, text, words)
  }

  method BuildTextAndWords(raw: seq<RawWord>) returns (text: string, words: seq<WordBBox>)
    ensures Layer(raw, text, words)
  {
    text, words := [], [];
    var offset := 0;
    for index := 0 to |raw|
      invariant |words| == index && offset == |text|
      invariant Prefix(raw, text, words)
    {
      ghost var textBefore, wordsBefore := text, words;
      var start := offset;
      var end := start + |raw[index].text|;
      words := words + [WordBBox(start, end, raw[index].bbox)];
      text := text + raw[index].text;
      offset := end;
      if index < |raw| - 1 {
        var separator := Separator(raw, index);
        text := text + [separator];
        offset := offset + 1;
      }
      LayOneWord(raw, textBefore, wordsBefore, text, words);
    }
  }

  lemma LayOneWord(raw: seq<RawWord>, text: string, words: seq<WordBBox>, text': string, words': seq<WordBBox>)
    requires Prefix(raw, text, words) && |words| < |raw|
    requires words' == words + [WordBBox(|text|, |text| + |raw[|words|].text|, raw[|words|].bbox)]
    requires text' == text + raw[|words|].text + if |words| + 1 < |raw| then [Separator(raw, |words|)] else []
    ensures Prefix(raw, text', words')
  {
    forall k | 0 <= k < |words'| ensures Placed(raw, text', words', k) {
      if k < |words| {
        assert Placed(raw, text, words, k);
        assert text'[words[k].start..words[k].end] == text[words[k].start..words[k].end];
      }
    }
  }

  /**
   * How a text layer reads: every raw word is spelled at its offsets with its own box, from the
   * first character to the last; before a word of the same block and line stands one blank, and
   * before any other word one newline.
   */
  lemma LayerReads(raw: seq<RawWord>, text: string, words: seq<WordBBox>, k: nat)
    requires Layer(raw, text, words) && k < |raw|
    ensures 0 <= words[k].start <= words[k].end <= |text|
    ensures text[words[k].start..words[k].end] == raw[k].text && words[k].bbox == raw[k].bbox
    ensures k == 0 ==> words[k].start == 0
    ensures k + 1 == |raw| ==> words[k].end == |text|
    ensures k + 1 < |raw| ==>
              && words[k + 1].start == words[k].end + 1 <= |text|
              && text[words[k].end] == if raw[k].block == raw[k + 1].block && raw[k].line == raw[k + 1].line then ' '
                                       else '\n'
  {
    assert Placed(raw, text, words, k);
  }

  /** The text layer is a function of the raw words: two layers of the same words agree. */
  lemma LayerIsDetermined(raw: seq<RawWord>, text: string, words: seq<WordBBox>, text': string, words': seq<WordBBox>)
    requires Layer(raw, text, words) && Layer(raw, text', words')
    ensures text == text' && words == words'
  {
    forall k | 0 <= k < |raw| ensures words[k] == words'[k] { SameWord(raw, text, words, text', words', k); }
    if raw != [] {
      forall c | 0 <= c < |text|
        ensures text[c] == text'[c]
      {
        SameChar(raw, text, words, text', words', c, |raw| - 1);
      }
    }
  }

  lemma {:induction false} SameWord(raw: seq<RawWord>, text: string, words: seq<WordBBox>, text': string,
                                    words': seq<WordBBox>, k: nat)
    requires Layer(raw, text, words) && Layer(raw, text', words') && k < |raw|
    ensures words[k] == words'[k]
  {
    assert Placed(raw, text, words, k) && Placed(raw, text', words', k);
    if k > 0 {
      SameWord(raw, text, words, text', words', k - 1);
      assert Placed(raw, text, words, k - 1) && Placed(raw, text', words', k - 1);
    }
    assert |raw[k].text| == words[k].end - words[k].start == words'[k].end - words'[k].start;
  }

  /** Every character up to the end of word k is a character of a word or a separator, so the texts agree on it. */
  lemma {:induction false} SameChar(raw: seq<RawWord>, text: string, words: seq<WordBBox>, text': string,
                                    words': seq<WordBBox>, c: nat, k: nat)
    requires Layer(raw, text, words) && Layer(raw, text', words') && words == words'
    requires k < |raw| && c < words[k].end
    ensures c < |text| && c < |text'| && text[c] == text'[c]
  {
    assert Placed(raw, text, words, k) && Placed(raw, text', words, k);
    if c >= words[k].start {
      assert text[c] == raw[k].text[c - words[k].start] == text'[c];
    } else {
      assert Placed(raw, text, words, k - 1) && Placed(raw, text', words, k - 1);
      if c < words[k - 1].end { SameChar(raw, text, words, text', words', c, k - 1); }
    }
  }

  // ---------- ranges to boxes ----------

  predicate Touches(word: WordBBox, start: int, end: int) {
    word.start < end && start < word.end
  }

  function ResolveSpanBBoxes(words: seq<WordBBox>, start: int, end: int): seq<BBox> {
    if words == [] then []
    else (if Touches(words[0], start, end) then [words[0].bbox] else []) + ResolveSpanBBoxes(words[1..], start, end)
  }

  lemma {:induction false} ResolvedBoxes(words: seq<WordBBox>, start: int, end: int, b: BBox)
    ensures b in ResolveSpanBBoxes(words, start, end)
            <==> exists w :: w in words && w.bbox == b && Touches(w, start, end)
  {
    if words != [] {
      ResolvedBoxes(words[1..], start, end, b);
      assert words == [words[0]] + words[1..];
    }
  }

  predicate Within(c: int, lo: int, hi: int) { lo <= c < hi }

  /** Some character belongs to both ranges. */
  ghost predicate ShareCharacter(lo: int, hi: int, start: int, end: int) {
    exists c :: Within(c, lo, hi) && Within(c, start, end)
  }

  lemma RangesMeet(lo: int, hi: int, start: int, end: int)
    requires lo < hi && start < end
    ensures ShareCharacter(lo, hi, start, end) <==> lo < end && start < hi
  {
    if lo < end && start < hi {
      var c := if lo < start then start else lo;
      assert Within(c, lo, hi) && Within(c, start, end);
    }
  }

  /** The boxes of a range are exactly those of the words that have a character in it. */
  lemma ResolvesSharedWords(words: seq<WordBBox>, start: int, end: int, b: BBox)
    requires start < end && forall w :: w in words ==> w.start < w.end
    ensures b in ResolveSpanBBoxes(words, start, end)
            <==> exists w :: w in words && w.bbox == b && ShareCharacter(w.start, w.end, start, end)
  {
    ResolvedBoxes(words, start, end, b);
    forall w | w in words ensures Touches(w, start, end) <==> ShareCharacter(w.start, w.end, start, end) {
      RangesMeet(w.start, w.end, start, end);
    }
  }

  function Boxes(words: seq<WordBBox>): (r: seq<BBox>)
    ensures |r| == |words| && forall k :: 0 <= k < |r| ==> r[k] == words[k].bbox
  {
    seq(|words|, k requires 0 <= k < |words| => words[k].bbox)
  }

  ghost predicate InOrder(words: seq<WordBBox>) {
    && (forall k :: 0 <= k < |words| ==> words[k].start <= words[k].end)
    && (forall a, b :: 0 <= a < b < |words| ==> words[a].end < words[b].start)
  }

  lemma {:induction false} LayerIsInOrder(raw: seq<RawWord>, text: string, words: seq<WordBBox>, a: nat, b: nat)
    requires Layer(raw, text, words) && a < b < |words|
    ensures words[a].start <= words[a].end < words[b].start <= words[b].end
  {
    assert Placed(raw, text, words, a) && Placed(raw, text, words, b) && Placed(raw, text, words, b - 1);
    if a < b - 1 { LayerIsInOrder(raw, text, words, a, b - 1); }
  }

  /** In an ordered index the words a range touches form one run. */
  lemma TouchedRun(words: seq<WordBBox>, start: int, end: int) returns (lo: nat, hi: nat)
    requires InOrder(words)
    ensures lo <= hi <= |words|
    ensures forall k :: 0 <= k < |words| ==> (Touches(words[k], start, end) <==> lo <= k < hi)
  {
    lo := 0;
    while lo < |words| && !Touches(words[lo], start, end)
      invariant lo <= |words|
      invariant forall k :: 0 <= k < lo ==> !Touches(words[k], start, end)
    {
      lo := lo + 1;
    }
    hi := lo;
    while hi < |words| && Touches(words[hi], start, end)
      invariant lo <= hi <= |words|
      invariant forall k :: lo <= k < hi ==> Touches(words[k], start, end)
    {
      hi := hi + 1;
    }
    if lo < hi < |words| {
      // The word after the run starts at or past the end of the range, and so do all later ones.
      assert words[hi - 1].end < words[hi].start <= words[hi].end;
    }
  }

  lemma {:induction false} ResolveOfRun(words: seq<WordBBox>, start: int, end: int, lo: nat, hi: nat)
    requires lo <= hi <= |words|
    requires forall k :: 0 <= k < |words| ==> (Touches(words[k], start, end) <==> lo <= k < hi)
    ensures ResolveSpanBBoxes(words, start, end) == Boxes(words[lo..hi])
  {
    if words != [] {
      var rest := words[1..];
      assert forall k :: 0 <= k < |rest| ==> rest[k] == words[k + 1];
      var l, h := if lo == 0 then 0 else lo - 1, if hi == 0 then 0 else hi - 1;
      ResolveOfRun(rest, start, end, l, h);
      assert words[lo..hi] == (if lo == 0 < hi then [words[0]] else []) + rest[l..h];
    }
  }

  ghost predicate InsideAWord(words: seq<WordBBox>, c: nat, lo: nat, hi: nat)
    requires lo <= hi <= |words|
  {
    exists k :: lo <= k < hi && words[k].start <= c < words[k].end
  }

  ghost predicate IsSeparator(raw: seq<RawWord>, text: string, words: seq<WordBBox>, c: nat)
    requires |words| == |raw| && c < |text|
  {
    exists k :: 0 <= k < |words| - 1 && words[k].end == c && text[c] == Separator(raw, k)
  }

  /**
   * Resolving a range over a built text layer: the boxes are those of one contiguous run of
   * words, and a character of the range lies in that run unless it is a separator.
   */
  lemma ResolveCoversRange(raw: seq<RawWord>, text: string, words: seq<WordBBox>, start: int, end: int)
    returns (lo: nat, hi: nat)
    requires Layer(raw, text, words)
    ensures lo <= hi <= |words|
    ensures forall k :: 0 <= k < |words| ==> (Touches(words[k], start, end) <==> lo <= k < hi)
    ensures ResolveSpanBBoxes(words, start, end) == Boxes(words[lo..hi])
    ensures forall c: nat :: start <= c < end && c < |text| ==>
              InsideAWord(words, c, lo, hi) || IsSeparator(raw, text, words, c)
  {
    forall a, b | 0 <= a < b < |words| ensures words[a].end < words[b].start { LayerIsInOrder(raw, text, words, a, b); }
    forall k | 0 <= k < |words| ensures words[k].start <= words[k].end { assert Placed(raw, text, words, k); }
    lo, hi := TouchedRun(words, start, end);
    ResolveOfRun(words, start, end, lo, hi);
    forall c: nat | start <= c < end && c < |text|
      ensures InsideAWord(words, c, lo, hi) || IsSeparator(raw, text, words, c)
    {
      var k := Locate(raw, text, words, c, |raw| - 1);
      assert Placed(raw, text, words, k);
      if words[k].start <= c < words[k].end {
        assert Touches(words[k], start, end);
      } else {
        assert words[k].end == c && text[c] == Separator(raw, k);
      }
    }
  }

  /** Every character before the end of word n is inside a word or is the separator after one. */
  lemma {:induction false} Locate(raw: seq<RawWord>, text: string, words: seq<WordBBox>, c: nat, n: nat)
    returns (k: nat)
    requires Layer(raw, text, words) && n < |words| && c < words[n].end
    ensures k <= n
    ensures words[k].start <= c < words[k].end || (k < n && words[k].end == c)
  {
    assert Placed(raw, text, words, n);
    if c >= words[n].start {
      k := n;
    } else {
      assert Placed(raw, text, words, n - 1);
      if c == words[n - 1].end { k := n - 1; } else { k := Locate(raw, text, words, c, n - 1); }
    }
  }
}
