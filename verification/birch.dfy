/**
 * The Birch document container: the annotated tokens of a text, their
 * character offsets, its sentences, and pattern extraction sentence by
 * sentence.
 *
 * A Birch object is never modified after it is made, so it is a value here.
 * The tagger is a parameter: it maps the token texts to tags.
 */
module Document {
  import opened Wrappers
  import opened Schemes
  import opened Tokenizer
  import opened NfaBuilder
  import opened PatternMatcher

  /**
   * A document: its tokens and, for one made by __init__, the sentence
   * offsets (one made by build_from_tokens has none).
   */
  datatype Birch = Birch(tokens: seq<Token>, sentencesOffsets: Option<seq<nat>>)

  /** build_from_tokens: a Birch over the given tokens, without sentence offsets. */
  function BuildFromTokens(tokens: seq<Token>): Birch
  {
    Birch(tokens, None)
  }

  datatype BirchError = IndexError | ValueError | AttributeError | Tokenizing(tokenize: TokenizeError) | Pattern(compile: CompileError)

  /** `int(space)`. */
  function SpaceLen(space: bool): nat { if space then 1 else 0 }

  // ---------------------------------------------------------------------------
  // Offsets and text.
  // ---------------------------------------------------------------------------

  /** The offset of token `i`: the lengths of the tokens before it, plus one for each trailing space. */
  function Offset(tokens: seq<Token>, i: nat): nat
    requires i <= |tokens|
  {
    if i == 0 then 0 else Offset(tokens, i - 1) + |tokens[i - 1].token| + SpaceLen(tokens[i - 1].space)
  }

  /** Every token starts at its offset, as __init__ lays them out. */
  ghost predicate Laid(tokens: seq<Token>)
  {
    forall i {:trigger tokens[i].start} :: 0 <= i < |tokens| ==> tokens[i].start == Offset(tokens, i)
  }

  lemma {:induction false} OffsetPrefix(tokens: seq<Token>, more: seq<Token>, i: nat)
    requires i <= |tokens|
    ensures Offset(tokens + more, i) == Offset(tokens, i)
    decreases i
  {
    if i > 0 {
      OffsetPrefix(tokens, more, i - 1);
      assert (tokens + more)[i - 1] == tokens[i - 1];
    }
  }

  /** `__str__`: every token's text followed by one space if its flag is set. */
  function Str(tokens: seq<Token>): (s: string)
    ensures |s| == Offset(tokens, |tokens|)
  {
    if tokens == [] then ""
    else
      var t := tokens[|tokens| - 1];
      OffsetPrefix(tokens[..|tokens| - 1], [t], |tokens| - 1);
      assert tokens[..|tokens| - 1] + [t] == tokens;
      Str(tokens[..|tokens| - 1]) + t.token + (if t.space then " " else "")
  }

  /** The text before token `i` is exactly `Offset(tokens, i)` characters long. */
  lemma {:induction false} StrPrefix(tokens: seq<Token>, i: nat)
    requires i <= |tokens|
    ensures |Str(tokens[..i])| == Offset(tokens, i)
    ensures i < |tokens| ==> Str(tokens[..i + 1]) == Str(tokens[..i]) + tokens[i].token + (if tokens[i].space then " " else "")
    decreases i
  {
    if i > 0 {
      StrPrefix(tokens, i - 1);
      assert tokens[..i][..i - 1] == tokens[..i - 1];
    }
    if i < |tokens| {
      assert tokens[..i + 1][..i] == tokens[..i];
    }
  }

  /** The text of a shorter prefix of the tokens is a prefix of the text. */
  lemma {:induction false} StrMonotone(tokens: seq<Token>, i: nat, j: nat)
    requires i <= j <= |tokens|
    ensures Str(tokens[..i]) <= Str(tokens[..j])
    decreases j - i
  {
    if i < j {
      StrMonotone(tokens, i, j - 1);
      StrPrefix(tokens, j - 1);
    }
  }

  /**
   * For tokens laid out by __init__, every token's span of the rebuilt text
   * is the token's own text.
   */
  lemma {:induction false} StrSpansTokens(tokens: seq<Token>)
    requires Laid(tokens)
    ensures forall i :: 0 <= i < |tokens| ==>
      0 <= tokens[i].start <= tokens[i].End() <= |Str(tokens)| && Str(tokens)[tokens[i].start..tokens[i].End()] == tokens[i].token
  {
    forall i | 0 <= i < |tokens|
      ensures 0 <= tokens[i].start <= tokens[i].End() <= |Str(tokens)|
      ensures Str(tokens)[tokens[i].start..tokens[i].End()] == tokens[i].token
    {
      StrPrefix(tokens, i);
      StrMonotone(tokens, i + 1, |tokens|);
      assert tokens[..|tokens|] == tokens;
      var before := Str(tokens[..i]);
      var upto := Str(tokens[..i + 1]);
      assert upto[|before|..|before| + |tokens[i].token|] == tokens[i].token;
    }
  }

  /** `bounds`: the first token's start and the last token's end; an empty document raises IndexError. */
  function Bounds(b: Birch): (r: Result<(int, int), BirchError>)
    ensures r.Failure? <==> b.tokens == []
  {
    if b.tokens == [] then Failure(BirchError.IndexError)
    else Success((b.tokens[0].start, b.tokens[|b.tokens| - 1].End()))
  }

  /**
   * For a laid-out document, the bounds span the whole rebuilt text except
   * a trailing space.
   */
  lemma {:induction false} BoundsCoverText(b: Birch)
    requires Laid(b.tokens) && b.tokens != []
    ensures var last := b.tokens[|b.tokens| - 1];
      Bounds(b) == Success((0, |Str(b.tokens)| - SpaceLen(last.space)))
  {
    var n := |b.tokens|;
    var last := b.tokens[n - 1];
    StrPrefix(b.tokens, n - 1);
    StrPrefix(b.tokens, n);
    assert b.tokens[..n] == b.tokens;
    assert b.tokens[0].start == Offset(b.tokens, 0) == 0;
    assert last.start == Offset(b.tokens, n - 1);
    assert |Str(b.tokens)| == last.End() + SpaceLen(last.space);
  }

  // ---------------------------------------------------------------------------
  // Sentence offsets.
  // ---------------------------------------------------------------------------

  /** `a in b` on strings: `a` occurs somewhere in `b`. */
  predicate IsSubstring(a: string, b: string)
  {
    |a| <= |b| && exists i | 0 <= i <= |b| - |a| :: OccursAt(a, b, i)
  }

  predicate OccursAt(a: string, b: string, i: nat)
  {
    i + |a| <= |b| && b[i..i + |a|] == a
  }

  /** A token ends a sentence: its text occurs in ".!?" and a space follows it. */
  predicate EndsSentence(t: Token)
  {
    IsSubstring(t.token, ".!?") && t.space
  }

  /** The token texts that end a sentence (with a space after) are exactly the substrings of ".!?", the empty text among them. */
  lemma {:induction false} SentenceEndTexts(s: string)
    ensures IsSubstring(s, ".!?") <==> s in {"", ".", "!", "?", ".!", "!?", ".!?"}
  {
    var b := ".!?";
    if IsSubstring(s, b) {
      var i :| 0 <= i <= |b| - |s| && OccursAt(s, b, i);
      assert s == b[i..i + |s|];
      assert b[0] == '.' && b[1] == '!' && b[2] == '?';
      if |s| == 0 {
        assert s == "";
      } else if |s| == 1 {
        assert s[0] == b[i];
        assert s == [s[0]];
      } else if |s| == 2 {
        assert s[0] == b[i] && s[1] == b[i + 1];
        assert s == [s[0], s[1]];
      } else {
        assert s == b;
      }
    }
    if s in {"", ".", "!", "?", ".!", "!?", ".!?"} {
      var i := if s == "!" || s == "!?" then 1 else if s == "?" then 2 else 0;
      assert b[i..i + |s|] == s;
      assert OccursAt(s, b, i);
    }
  }

  /**
   * Offsets are strictly increasing positions 1..n, and `i + 1` is one of
   * them exactly when token `i` ends a sentence.
   */
  ghost predicate SentenceEnds(tokens: seq<Token>, offsets: seq<nat>)
  {
    (forall k :: 0 <= k < |offsets| ==> 1 <= offsets[k] <= |tokens|) &&
    (forall k, l :: 0 <= k < l < |offsets| ==> offsets[k] < offsets[l]) &&
    (forall i :: 0 <= i < |tokens| ==> (i + 1 in offsets <==> EndsSentence(tokens[i])))
  }

  /** get_sentences_offsets: `i + 1` for every token `i` that ends a sentence, in order. */
  method GetSentencesOffsets(tokens: seq<Token>) returns (offsets: seq<nat>)
    ensures SentenceEnds(tokens, offsets)
  {
    offsets := [];
    for i := 0 to |tokens|
      invariant forall k :: 0 <= k < |offsets| ==> 1 <= offsets[k] <= i
      invariant forall k, l :: 0 <= k < l < |offsets| ==> offsets[k] < offsets[l]
      invariant forall j :: 0 <= j < i ==> (j + 1 in offsets <==> EndsSentence(tokens[j]))
    {
      if EndsSentence(tokens[i]) {
        offsets := offsets + [i + 1];
      }
    }
  }

  // ---------------------------------------------------------------------------
  // Construction.
  // ---------------------------------------------------------------------------

  /**
   * The loop of __init__: zip texts, tags and flags (the shortest list
   * decides the length) into tokens at increasing offsets.
   */
  method LayOut(words: seq<string>, tags: seq<POSTag>, spaces: seq<bool>) returns (toks: seq<Token>)
    ensures |toks| == Min(|words|, Min(|tags|, |spaces|))
    ensures forall i :: 0 <= i < |toks| ==> toks[i].token == words[i] && toks[i].pos == tags[i] && toks[i].space == spaces[i]
    ensures Laid(toks)
  {
    var n := Min(|words|, Min(|tags|, |spaces|));
    toks := [];
    var offset := 0;
    for i := 0 to n
      invariant |toks| == i && Laid(toks) && offset == Offset(toks, i)
      invariant Zipped(toks, words, tags, spaces)
    {
      var token := Token(words[i], tags[i], spaces[i], offset);
      LaidSnoc(toks, token);
      ZippedSnoc(toks, words, tags, spaces, token);
      toks := toks + [token];
      offset := offset + |words[i]| + SpaceLen(spaces[i]);
    }
  }

  /** Token `i` has the `i`-th text, tag and flag. */
  ghost predicate Zipped(toks: seq<Token>, words: seq<string>, tags: seq<POSTag>, spaces: seq<bool>)
  {
    forall i :: 0 <= i < |toks| ==>
      i < |words| && i < |tags| && i < |spaces| &&
      toks[i].token == words[i] && toks[i].pos == tags[i] && toks[i].space == spaces[i]
  }

  lemma {:induction false} ZippedSnoc(toks: seq<Token>, words: seq<string>, tags: seq<POSTag>, spaces: seq<bool>, token: Token)
    requires Zipped(toks, words, tags, spaces)
    requires |toks| < |words| && |toks| < |tags| && |toks| < |spaces|
    requires token.token == words[|toks|] && token.pos == tags[|toks|] && token.space == spaces[|toks|]
    ensures Zipped(toks + [token], words, tags, spaces)
  {
    var all := toks + [token];
    forall i | 0 <= i < |all|
      ensures all[i].token == words[i] && all[i].pos == tags[i] && all[i].space == spaces[i]
    {
      if i < |toks| {
        assert all[i] == toks[i];
      }
    }
  }

  /** Appending a token placed at the end offset keeps the layout. */
  lemma {:induction false} LaidSnoc(toks: seq<Token>, token: Token)
    requires Laid(toks) && token.start == Offset(toks, |toks|)
    ensures Laid(toks + [token])
    ensures Offset(toks + [token], |toks| + 1) == token.start + |token.token| + SpaceLen(token.space)
  {
    var all := toks + [token];
    forall j | 0 <= j < |all|
      ensures all[j].start == Offset(all, j)
    {
      OffsetPrefix(toks, [token], j);
      if j < |toks| {
        assert all[j] == toks[j];
      }
    }
    OffsetPrefix(toks, [token], |toks|);
    assert all[|toks|] == token;
  }

  function Min(a: nat, b: nat): nat { if a < b then a else b }

  /**
   * __init__: tokenize the text, tag the tokens, lay them out and find the
   * sentence ends. The ghost results are the tokenizer's texts and flags,
   * what tokenize returned before the skip filter, and where its chunks end.
   */
  method NewBirch(c: Config, text: string, tagger: seq<string> -> seq<POSTag>)
    returns (r: Result<Birch, BirchError>, ghost words: seq<string>, ghost spaces: seq<bool>,
             ghost raw: (seq<string>, seq<bool>), ghost cuts: seq<nat>)
    ensures r.Failure? <==> !Blank(text) && IsSep(text[0])
    ensures r.Success? ==> |words| == |spaces| && (Blank(text) ==> words == [])
    ensures r.Success? && !Blank(text) ==>
      TokenizedText(c, text, raw, cuts) &&
      (words, spaces) == (if c.skip.None? then raw else KeepPairs(raw.0, raw.1, c.skip.value))
    ensures r.Success? ==>
      var toks := r.value.tokens;
      |toks| == Min(|words|, |tagger(words)|) &&
      (forall i :: 0 <= i < |toks| ==>
        toks[i].token == words[i] && toks[i].pos == tagger(words)[i] && toks[i].space == spaces[i]) &&
      Laid(toks) && r.value.sentencesOffsets.Some? && SentenceEnds(toks, r.value.sentencesOffsets.value)
  {
    var tokenized;
    tokenized, raw, cuts := TokenizeText(c, text);
    if tokenized.Failure? {
      return Failure(Tokenizing(tokenized.error)), [], [], raw, cuts;
    }
    var ws, sp := tokenized.value.0, tokenized.value.1;
    words, spaces := ws, sp;
    var toks := LayOut(ws, tagger(ws), sp);
    var offsets := GetSentencesOffsets(toks);
    r := Success(Birch(toks, Some(offsets)));
  }

  // ---------------------------------------------------------------------------
  // Indexing.
  // ---------------------------------------------------------------------------

  /** What __getitem__ may be given: an int, a slice, or anything else. */
  datatype Index = IntIndex(i: int) | SliceIndex(start: Option<int>, stop: Option<int>, step: Option<int>) | OtherIndex

  datatype Item = One(token: Token) | Many(birch: Birch)

  /** One bound of slice.indices(n): a missing bound takes its default, a negative one counts from the end, and both are clamped. */
  function AdjustBound(x: Option<int>, n: nat, backwards: bool, default: int): int
  {
    match x
    case None => default
    case Some(v) =>
      var w := if v < 0 then v + n else v;
      if w < 0 then (if backwards then -1 else 0)
      else if w >= n then (if backwards then n - 1 else n)
      else w
  }

  /** The elements at i, i + k, i + 2k, ... strictly before `stop` in the direction of k. */
  function Stride<T>(s: seq<T>, i: int, stop: int, k: int): seq<T>
    requires k != 0
    requires k > 0 ==> 0 <= i && stop <= |s|
    requires k < 0 ==> i < |s| && -1 <= stop
    decreases if k > 0 then stop - i else i - stop
  {
    if k > 0 && i < stop then [s[i]] + Stride(s, i + k, stop, k)
    else if k < 0 && i > stop then [s[i]] + Stride(s, i + k, stop, k)
    else []
  }

  /** `s[start:stop:step]` for a step that is not zero. */
  function PySlice<T>(s: seq<T>, start: Option<int>, stop: Option<int>, step: Option<int>): seq<T>
    requires step != Some(0)
  {
    var k := if step.None? then 1 else step.value;
    var n := |s|;
    var backwards := k < 0;
    var lo := AdjustBound(start, n, backwards, if backwards then n - 1 else 0);
    var hi := AdjustBound(stop, n, backwards, if backwards then -1 else n);
    Stride(s, lo, hi, k)
  }

  lemma {:induction false} StrideForward<T>(s: seq<T>, i: nat, stop: nat)
    requires i <= stop <= |s|
    ensures Stride(s, i, stop, 1) == s[i..stop]
    decreases stop - i
  {
    if i < stop {
      StrideForward(s, i + 1, stop);
    }
  }

  /** `s[lo:]` with `lo` in range is the rest of the sequence from `lo`. */
  lemma {:induction false} PySliceFrom<T>(s: seq<T>, lo: nat)
    requires lo <= |s|
    ensures PySlice(s, Some(lo), None, None) == s[lo..]
  {
    StrideForward(s, lo, |s|);
  }

  /** A plain `s[lo:hi]` with bounds in range is the subsequence between them. */
  lemma {:induction false} PySlicePlain<T>(s: seq<T>, lo: nat, hi: nat)
    requires lo <= hi <= |s|
    ensures PySlice(s, Some(lo), Some(hi), None) == s[lo..hi]
  {
    StrideForward(s, lo, hi);
  }

  /** `__len__`. */
  function Len(b: Birch): nat
  {
    |b.tokens|
  }

  /**
   * A Birch from build_from_tokens behaves as its token list: its length,
   * its items and its bounds are the list's.
   */
  lemma {:induction false} BuildFromTokensBehaves(tokens: seq<Token>)
    ensures Len(BuildFromTokens(tokens)) == |tokens|
    ensures forall i :: 0 <= i < |tokens| ==> GetItem(BuildFromTokens(tokens), IntIndex(i)) == Success(One(tokens[i]))
    ensures tokens != [] ==> Bounds(BuildFromTokens(tokens)) == Success((tokens[0].start, tokens[|tokens| - 1].End()))
  {
  }

  /**
   * __getitem__: an int selects a token (negative counts from the end; out
   * of range raises IndexError), a slice gives a Birch over the sliced
   * tokens (a zero step raises ValueError), anything else raises ValueError.
   */
  function GetItem(b: Birch, index: Index): (r: Result<Item, BirchError>)
    ensures index.IntIndex? ==> (r.Success? <==> -(Len(b) as int) <= index.i < Len(b))
    ensures index.OtherIndex? ==> r == Failure(ValueError)
  {
    match index
    case IntIndex(i) =>
      var n := |b.tokens|;
      if -n <= i < n then Success(One(b.tokens[if i < 0 then i + n else i])) else Failure(BirchError.IndexError)
    case SliceIndex(start, stop, step) =>
      if step == Some(0) then Failure(ValueError)
      else Success(Many(BuildFromTokens(PySlice(b.tokens, start, stop, step))))
    case OtherIndex => Failure(ValueError)
  }

  /**
   * Indexing in range gives the token counted from the front or the back,
   * and a plain slice gives a Birch over exactly those tokens.
   */
  lemma {:induction false} GetItemSelects(b: Birch)
    ensures forall i :: 0 <= i < Len(b) ==>
      GetItem(b, IntIndex(i)) == Success(One(b.tokens[i])) &&
      GetItem(b, IntIndex(i - Len(b))) == Success(One(b.tokens[i]))
    ensures forall lo: nat, hi: nat :: lo <= hi <= Len(b) ==>
      GetItem(b, SliceIndex(Some(lo), Some(hi), None)) == Success(Many(Birch(b.tokens[lo..hi], None)))
  {
    forall lo: nat, hi: nat | lo <= hi <= Len(b)
      ensures GetItem(b, SliceIndex(Some(lo), Some(hi), None)) == Success(Many(Birch(b.tokens[lo..hi], None)))
    {
      PySlicePlain(b.tokens, lo, hi);
    }
  }

  // ---------------------------------------------------------------------------
  // Sentences.
  // ---------------------------------------------------------------------------

  /** The token slices `sentences` yields: up to each offset in turn, then the rest. */
  function SentenceSlices(tokens: seq<Token>, offsets: seq<nat>, last: nat): seq<seq<Token>>
    decreases |offsets|
  {
    if offsets == [] then [PySlice(tokens, Some(last), None, None)]
    else [PySlice(tokens, Some(last), Some(offsets[0]), None)] + SentenceSlices(tokens, offsets[1..], offsets[0])
  }

  function Flatten(parts: seq<seq<Token>>): seq<Token>
  {
    if parts == [] then [] else parts[0] + Flatten(parts[1..])
  }

  /**
   * With increasing offsets in range, the sentences are one more than the
   * offsets and together are exactly the tokens from `last` on.
   */
  lemma {:induction false} SentencesTile(tokens: seq<Token>, offsets: seq<nat>, last: nat)
    requires last <= |tokens|
    requires forall k :: 0 <= k < |offsets| ==> last <= offsets[k] <= |tokens|
    requires forall k, l :: 0 <= k < l < |offsets| ==> offsets[k] < offsets[l]
    ensures |SentenceSlices(tokens, offsets, last)| == |offsets| + 1
    ensures Flatten(SentenceSlices(tokens, offsets, last)) == tokens[last..]
    decreases |offsets|
  {
    if offsets == [] {
      PySliceFrom(tokens, last);
      assert SentenceSlices(tokens, offsets, last) == [tokens[last..]];
      assert Flatten([tokens[last..]]) == tokens[last..] + Flatten([]);
    } else {
      PySlicePlain(tokens, last, offsets[0]);
      SentencesTile(tokens, offsets[1..], offsets[0]);
      var rest := SentenceSlices(tokens, offsets[1..], offsets[0]);
      assert SentenceSlices(tokens, offsets, last) == [tokens[last..offsets[0]]] + rest;
      assert ([tokens[last..offsets[0]]] + rest)[1..] == rest;
      assert tokens[last..] == tokens[last..offsets[0]] + tokens[offsets[0]..];
    }
  }

  /** `sentences`: one Birch per sentence; a Birch without sentence offsets raises AttributeError. */
  method Sentences(b: Birch) returns (r: Result<seq<Birch>, BirchError>)
    ensures r.Failure? <==> b.sentencesOffsets.None?
    ensures r.Success? ==>
      var slices := SentenceSlices(b.tokens, b.sentencesOffsets.value, 0);
      |r.value| == |slices| && forall k :: 0 <= k < |slices| ==> r.value[k] == BuildFromTokens(slices[k])
  {
    if b.sentencesOffsets.None? {
      return Failure(AttributeError);
    }
    var offsets := b.sentencesOffsets.value;
    ghost var slices := SentenceSlices(b.tokens, offsets, 0);
    var out: seq<Birch> := [];
    var lastOffset: nat := 0;
    SentenceSlicesAt(b.tokens, offsets, 0, 0);
    for k := 0 to |offsets|
      invariant |slices| == |offsets| + 1
      invariant lastOffset == if k == 0 then 0 else offsets[k - 1]
      invariant |out| == k && forall j :: 0 <= j < k ==> out[j] == BuildFromTokens(slices[j])
    {
      SentenceSlicesAt(b.tokens, offsets, 0, k);
      out := out + [BuildFromTokens(PySlice(b.tokens, Some(lastOffset), Some(offsets[k]), None))];
      lastOffset := offsets[k];
    }
    SentenceSlicesAt(b.tokens, offsets, 0, |offsets|);
    out := out + [BuildFromTokens(PySlice(b.tokens, Some(lastOffset), None, None))];
    r := Success(out);
  }

  /** Sentence `k` runs from the offset before it (or `last`) up to offset `k` (or to the end, for the last one). */
  lemma {:induction false} SentenceSlicesAt(tokens: seq<Token>, offsets: seq<nat>, last: nat, k: nat)
    requires k <= |offsets|
    ensures |SentenceSlices(tokens, offsets, last)| == |offsets| + 1
    ensures SentenceSlices(tokens, offsets, last)[k] ==
      PySlice(tokens, Some(if k == 0 then last else offsets[k - 1]), if k < |offsets| then Some(offsets[k]) else None, None)
    decreases |offsets|
  {
    if offsets != [] {
      var rest := offsets[1..];
      SentenceSlicesAt(tokens, rest, offsets[0], if k == 0 then 0 else k - 1);
      if k > 0 {
        if k < |offsets| {
          assert rest[k - 1] == offsets[k];
        }
        assert k > 1 ==> rest[k - 2] == offsets[k - 1];
      }
    }
  }

  /**
   * For a document made by __init__, the sentences partition its tokens:
   * one more sentence than offsets, and joined together they are the tokens.
   */
  lemma {:induction false} SentencesPartition(tokens: seq<Token>, offsets: seq<nat>)
    requires SentenceEnds(tokens, offsets)
    ensures |SentenceSlices(tokens, offsets, 0)| == |offsets| + 1
    ensures Flatten(SentenceSlices(tokens, offsets, 0)) == tokens
  {
    SentencesTile(tokens, offsets, 0);
  }

  /** The `__len__` of each sentence, added up. */
  function SentencesLen(parts: seq<seq<Token>>): nat
  {
    if parts == [] then 0 else Len(BuildFromTokens(parts[0])) + SentencesLen(parts[1..])
  }

  lemma {:induction false} FlattenLen(parts: seq<seq<Token>>)
    ensures |Flatten(parts)| == SentencesLen(parts)
  {
    if parts != [] {
      FlattenLen(parts[1..]);
    }
  }

  /** The lengths of a document's sentences add up to the document's length. */
  lemma {:induction false} SentenceLengths(b: Birch)
    requires b.sentencesOffsets.Some? && SentenceEnds(b.tokens, b.sentencesOffsets.value)
    ensures SentencesLen(SentenceSlices(b.tokens, b.sentencesOffsets.value, 0)) == Len(b)
  {
    SentencesPartition(b.tokens, b.sentencesOffsets.value);
    FlattenLen(SentenceSlices(b.tokens, b.sentencesOffsets.value, 0));
  }

  // ---------------------------------------------------------------------------
  // Pattern extraction.
  // ---------------------------------------------------------------------------

  /** The matched token slices of one sentence, in the order findall reports them. */
  function SliceSpans(words: seq<Token>, spans: seq<(nat, nat)>): seq<Birch>
  {
    if spans == [] then []
    else
      var (s, f) := spans[0];
      [BuildFromTokens(if s <= f <= |words| then words[s..f] else [])] + SliceSpans(words, spans[1..])
  }

  /** All matches, sentence by sentence. */
  ghost function Matches(nfa: Nfa, sentences: seq<seq<Token>>): seq<Birch>
  {
    if sentences == [] then []
    else
      var last := sentences[|sentences| - 1];
      Matches(nfa, sentences[..|sentences| - 1]) + SliceSpans(last, Spans(MatchLengths(nfa, last), |last|))
  }

  lemma {:induction false} SliceSpansWithin(words: seq<Token>, spans: seq<(nat, nat)>, m: Birch)
    requires forall i :: 0 <= i < |spans| ==> spans[i].0 < spans[i].1 <= |words|
    requires m in SliceSpans(words, spans)
    ensures exists s, f :: 0 <= s < f <= |words| && m.tokens == words[s..f]
    decreases |spans|
  {
    if m != SliceSpans(words, spans)[0] {
      SliceSpansWithin(words, spans[1..], m);
    } else {
      assert m.tokens == words[spans[0].0..spans[0].1];
    }
  }

  /** Every match is a non-empty run of consecutive tokens of one sentence: none crosses a sentence boundary. */
  lemma {:induction false} MatchesWithinSentences(nfa: Nfa, sentences: seq<seq<Token>>, m: Birch)
    requires m in Matches(nfa, sentences)
    ensures exists k, s, f :: 0 <= k < |sentences| && 0 <= s < f <= |sentences[k]| && m.tokens == sentences[k][s..f]
    decreases |sentences|
  {
    var n := |sentences| - 1;
    var last := sentences[n];
    var lens := MatchLengths(nfa, last);
    if m in Matches(nfa, sentences[..n]) {
      MatchesWithinSentences(nfa, sentences[..n], m);
      var k, s, f :| 0 <= k < n && 0 <= s < f <= |sentences[..n][k]| && m.tokens == sentences[..n][k][s..f];
      assert sentences[..n][k] == sentences[k];
    } else {
      SpansProperties(lens, |last|);
      SliceSpansWithin(last, Spans(lens, |last|), m);
      var s, f :| 0 <= s < f <= |last| && m.tokens == last[s..f];
      assert m.tokens == sentences[n][s..f];
    }
  }

  /**
   * extract_by_pattern: compile the pattern, then for every sentence in
   * order collect the token slice of every findall span.
   */
  method ExtractByPattern(b: Birch, pattern: string) returns (r: Result<seq<Birch>, BirchError>)
    ensures CompileResult(pattern).Failure? ==> r == Failure(Pattern(CompileResult(pattern).error))
    ensures CompileResult(pattern).Success? ==> (r.Failure? <==> b.sentencesOffsets.None?)
    ensures r.Success? ==>
      CompileResult(pattern).Success? && b.sentencesOffsets.Some? &&
      r.value == Matches(CompileResult(pattern).value, SentenceSlices(b.tokens, b.sentencesOffsets.value, 0))
  {
    var compiled := NewMatcher(pattern);
    if compiled.Failure? {
      return Failure(Pattern(compiled.error));
    }
    var nfa := compiled.value.nfa;
    CompileNeverFailsInBuilder(pattern);
    var sentences := Sentences(b);
    if sentences.Failure? {
      return Failure(sentences.error);
    }
    var matches := AllMatches(nfa, sentences.value, SentenceSlices(b.tokens, b.sentencesOffsets.value, 0));
    r := Success(matches);
  }

  /** The outer loop of extract_by_pattern: the matches of every sentence, in order. */
  method AllMatches(nfa: Nfa, sents: seq<Birch>, ghost slices: seq<seq<Token>>) returns (matches: seq<Birch>)
    requires ValidArena(nfa.states) && nfa.start < |nfa.states|
    requires |sents| == |slices| && forall k :: 0 <= k < |sents| ==> sents[k] == BuildFromTokens(slices[k])
    ensures matches == Matches(nfa, slices)
  {
    matches := [];
    for k := 0 to |sents|
      invariant matches == Matches(nfa, slices[..k])
    {
      var sent := sents[k].tokens;
      var found := SentenceMatches(nfa, sent);
      assert slices[..k + 1][..k] == slices[..k];
      assert slices[..k + 1][k] == sent;
      matches := matches + found;
    }
    assert slices[..|sents|] == slices;
  }

  /** The inner loop of extract_by_pattern: the token slice of every findall span of one sentence. */
  method SentenceMatches(nfa: Nfa, sent: seq<Token>) returns (found: seq<Birch>)
    requires ValidArena(nfa.states) && nfa.start < |nfa.states|
    ensures found == SliceSpans(sent, Spans(MatchLengths(nfa, sent), |sent|))
  {
    var coords := FindAll(nfa, sent);
    SpansBounded(MatchLengths(nfa, sent), |sent|);
    found := SliceAll(sent, coords);
  }

  /** The token slice of every span, in order, each as a Birch without sentence offsets. */
  method SliceAll(sent: seq<Token>, coords: seq<(nat, nat)>) returns (found: seq<Birch>)
    requires forall sp :: sp in coords ==> sp.0 < sp.1 <= |sent|
    ensures found == SliceSpans(sent, coords)
  {
    found := [];
    for j := 0 to |coords|
      invariant found == SliceSpans(sent, coords[..j])
    {
      var (start, fin) := coords[j];
      assert coords[j] in coords;
      PySlicePlain(sent, start, fin);
      SliceSpansSnoc(sent, coords[..j], coords[j]);
      SliceSpansOne(sent, coords[j]);
      assert coords[..j + 1] == coords[..j] + [coords[j]];
      found := found + [BuildFromTokens(PySlice(sent, Some(start), Some(fin), None))];
    }
    assert coords[..|coords|] == coords;
  }

  lemma {:induction false} SliceSpansOne(words: seq<Token>, x: (nat, nat))
    requires x.0 <= x.1 <= |words|
    ensures SliceSpans(words, [x]) == [BuildFromTokens(words[x.0..x.1])]
  {
    assert [x][1..] == [];
  }

  lemma {:induction false} SliceSpansSnoc(words: seq<Token>, spans: seq<(nat, nat)>, x: (nat, nat))
    ensures SliceSpans(words, spans + [x]) == SliceSpans(words, spans) + SliceSpans(words, [x])
    decreases |spans|
  {
    if spans == [] {
      assert spans + [x] == [x];
    } else {
      assert (spans + [x])[1..] == spans[1..] + [x];
      SliceSpansSnoc(words, spans[1..], x);
    }
  }
}
