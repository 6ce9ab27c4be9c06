/**
 * The text tokenizer: whitespace chunks, placeholder tokens, and the
 * prefix/suffix/infix splitting of prepare_token.
 *
 * Every regular expression of TokenizingConfig that prepare_token uses is a
 * single-character class; each becomes a predicate on characters of a
 * Config. The placeholder pattern `~~specific_token_<digits>~~` and the
 * chunk separator `[ \t]+` are fixed and are modelled as written.
 */
module Tokenizer {
  import opened Wrappers

  /**
   * The character classes of a TokenizingConfig: PREFIX_RE (a class anchored
   * at the start), SUFFIX_RE (a class anchored at the end), SUFFIX_SPACE_RE
   * (whitespace), INFIX_RE, and SKIP_TOKENS_RE, which is absent by default.
   */
  datatype Config = Config(
    isPrefix: char -> bool,
    isSuffix: char -> bool,
    isSpace: char -> bool,
    isInfix: char -> bool,
    skip: Option<string -> bool>)

  // ---------------------------------------------------------------------------
  // Pieces.
  // ---------------------------------------------------------------------------

  /** The pieces joined back together. */
  function Concat(pieces: seq<string>): string
  {
    if pieces == [] then "" else pieces[0] + Concat(pieces[1..])
  }

  lemma {:induction false} ConcatAppend(a: seq<string>, b: seq<string>)
    ensures Concat(a + b) == Concat(a) + Concat(b)
    decreases |a|
  {
    if a == [] {
      assert a + b == b;
    } else {
      assert (a + b)[1..] == a[1..] + b;
      ConcatAppend(a[1..], b);
    }
  }

  lemma {:induction false} ConcatSingle(p: string)
    ensures Concat([p]) == p
  {
    assert [p][1..] == [];
  }

  /** Pieces of the text before `k` and pieces of the text from `k` on are pieces of the text. */
  lemma {:induction false} ConcatSplit(pieces: seq<string>, sub: seq<string>, text: string, k: nat)
    requires k <= |text| && Concat(pieces) == text[..k] && Concat(sub) == text[k..]
    requires NonEmpty(pieces) && NonEmpty(sub)
    ensures Concat(pieces + sub) == text && NonEmpty(pieces + sub)
  {
    ConcatAppend(pieces, sub);
    assert text[..k] + text[k..] == text;
  }

  predicate NonEmpty(pieces: seq<string>)
  {
    forall i :: 0 <= i < |pieces| ==> pieces[i] != ""
  }

  /** Non-empty pieces that join to nothing are no pieces. */
  lemma {:induction false} ConcatNothing(pieces: seq<string>)
    requires NonEmpty(pieces) && Concat(pieces) == ""
    ensures pieces == []
  {
  }

  /** `s` reversed, as `suffixes[::-1]`. */
  function Reverse<T>(s: seq<T>): (r: seq<T>)
    ensures |r| == |s| && forall i :: 0 <= i < |s| ==> r[i] == s[|s| - 1 - i]
  {
    if s == [] then [] else Reverse(s[1..]) + [s[0]]
  }

  lemma {:induction false} ReverseSnoc<T>(s: seq<T>, x: T)
    ensures Reverse(s + [x]) == [x] + Reverse(s)
  {
    var a, b := Reverse(s + [x]), [x] + Reverse(s);
    assert |a| == |b|;
    forall i | 0 <= i < |a|
      ensures a[i] == b[i]
    {
      if i > 0 {
        assert (s + [x])[|s| - i] == s[|s| - 1 - (i - 1)];
      }
    }
  }

  // ---------------------------------------------------------------------------
  // prepare_token.
  // ---------------------------------------------------------------------------

  /**
   * The strip loop of prepare_token: peel one prefix-class character off the
   * front, then one whitespace character (and start over) or one
   * suffix-class character off the back; stop when the token is used up or
   * neither end matched.
   */
  method Strip(c: Config, token: string) returns (prefixes: seq<string>, core: string, suffixes: seq<string>)
    ensures Stripped(c, token, prefixes, core, suffixes)
  {
    prefixes, core, suffixes := [], token, [];
    assert Concat([]) == "";
    while true
      invariant Concat(prefixes) + core + Concat(Reverse(suffixes)) == token
      invariant PrefixChars(c, prefixes) && SuffixChars(c, suffixes)
      decreases |core|
    {
      var done;
      prefixes, core, suffixes, done := StripRound(c, prefixes, core, suffixes);
      if done {
        break;
      }
    }
  }

  /**
   * One round of the strip loop. `done` is the loop's `break`: the core is
   * used up, or neither end matched; otherwise the core has lost a character.
   */
  method StripRound(c: Config, prefixes: seq<string>, core: string, suffixes: seq<string>)
    returns (prefixes': seq<string>, core': string, suffixes': seq<string>, done: bool)
    requires PrefixChars(c, prefixes) && SuffixChars(c, suffixes)
    ensures Concat(prefixes') + core' + Concat(Reverse(suffixes')) == Concat(prefixes) + core + Concat(Reverse(suffixes))
    ensures PrefixChars(c, prefixes') && SuffixChars(c, suffixes')
    ensures !done ==> |core'| < |core|
    ensures done ==> core' != "" ==> !c.isPrefix(core'[0]) && !c.isSpace(core'[|core'| - 1]) && !c.isSuffix(core'[|core'| - 1])
  {
    prefixes', core', suffixes' := prefixes, core, suffixes;
    var prefMatch := core' != "" && c.isPrefix(core'[0]);
    if prefMatch {
      PeelFront(prefixes', core', Concat(Reverse(suffixes')));
      prefixes' := prefixes' + [core'[..1]];
      core' := core'[1..];
    }
    if core' != "" && c.isSpace(core'[|core'| - 1]) {
      PeelBack(Concat(prefixes'), core', suffixes');
      suffixes' := suffixes' + [core'[|core'| - 1..]];
      core' := core'[..|core'| - 1];
      return prefixes', core', suffixes', false;
    }
    var suffMatch := core' != "" && c.isSuffix(core'[|core'| - 1]);
    if suffMatch {
      PeelBack(Concat(prefixes'), core', suffixes');
      suffixes' := suffixes' + [core'[|core'| - 1..]];
      core' := core'[..|core'| - 1];
    }
    done := core' == "" || (!prefMatch && !suffMatch);
  }

  /**
   * What the strip loop leaves: one-character prefix pieces in the order
   * they were peeled, the core, and one-character suffix pieces in the order
   * they were peeled (so reversed, they end the token); the core, if any,
   * starts with no prefix character and ends with no whitespace or suffix
   * character.
   */
  ghost predicate Stripped(c: Config, token: string, prefixes: seq<string>, core: string, suffixes: seq<string>)
  {
    Concat(prefixes) + core + Concat(Reverse(suffixes)) == token &&
    PrefixChars(c, prefixes) && SuffixChars(c, suffixes) &&
    (core != "" ==> !c.isPrefix(core[0]) && !c.isSpace(core[|core| - 1]) && !c.isSuffix(core[|core| - 1]))
  }

  /** Every prefix piece is one prefix-class character. */
  predicate PrefixChars(c: Config, prefixes: seq<string>)
  {
    forall i :: 0 <= i < |prefixes| ==> |prefixes[i]| == 1 && c.isPrefix(prefixes[i][0])
  }

  /** Every suffix piece is one whitespace or suffix-class character. */
  predicate SuffixChars(c: Config, suffixes: seq<string>)
  {
    forall i :: 0 <= i < |suffixes| ==> |suffixes[i]| == 1 && (c.isSpace(suffixes[i][0]) || c.isSuffix(suffixes[i][0]))
  }

  /** Moving the first character of the core onto the prefixes keeps the text. */
  lemma {:induction false} PeelFront(prefixes: seq<string>, core: string, tail: string)
    requires core != ""
    ensures Concat(prefixes + [core[..1]]) + core[1..] + tail == Concat(prefixes) + core + tail
  {
    ConcatAppend(prefixes, [core[..1]]);
    ConcatSingle(core[..1]);
    assert core[..1] + core[1..] == core;
  }

  /** Moving the last character of the core onto the suffixes keeps the text. */
  lemma {:induction false} PeelBack(head: string, core: string, suffixes: seq<string>)
    requires core != ""
    ensures head + core[..|core| - 1] + Concat(Reverse(suffixes + [core[|core| - 1..]]))
      == head + core + Concat(Reverse(suffixes))
  {
    var x := core[|core| - 1..];
    ReverseSnoc(suffixes, x);
    ConcatAppend([x], Reverse(suffixes));
    ConcatSingle(x);
    assert core[..|core| - 1] + x == core;
  }

  // ---------------------------------------------------------------------------
  // prepare_token as a function of the token.
  // ---------------------------------------------------------------------------

  /** A character the strip loop peels off the back: whitespace or suffix-class. */
  predicate IsTrailing(c: Config, ch: char) { c.isSpace(ch) || c.isSuffix(ch) }

  /** The length of the run of prefix-class characters that starts the text. */
  function PrefixRun(c: Config, t: string): (n: nat)
    ensures n <= |t| && (forall i :: 0 <= i < n ==> c.isPrefix(t[i])) && (n < |t| ==> !c.isPrefix(t[n]))
  {
    if t == "" || !c.isPrefix(t[0]) then 0
    else
      var n := 1 + PrefixRun(c, t[1..]);
      assert forall i :: 1 <= i <= |t| - 1 ==> t[i] == t[1..][i - 1];
      n
  }

  /** The length of the run of whitespace and suffix-class characters that ends the text. */
  function TrailRun(c: Config, t: string): (n: nat)
    ensures n <= |t| && (forall i :: |t| - n <= i < |t| ==> IsTrailing(c, t[i])) && (n < |t| ==> !IsTrailing(c, t[|t| - 1 - n]))
  {
    if t == "" || !IsTrailing(c, t[|t| - 1]) then 0
    else
      var n := 1 + TrailRun(c, t[..|t| - 1]);
      assert forall i :: 0 <= i < |t| - 1 ==> t[i] == t[..|t| - 1][i];
      n
  }

  /** Every character of the text as a piece of its own. */
  function Chars(t: string): (r: seq<string>)
    ensures |r| == |t| && forall i :: 0 <= i < |t| ==> r[i] == t[i..i + 1]
  {
    seq(|t|, i requires 0 <= i < |t| => t[i..i + 1])
  }

  /**
   * What prepare_token returns for `token`. When the leading run of prefix
   * characters and the trailing run of whitespace and suffix characters
   * cover the token, every character is a piece; otherwise the leading
   * characters, the pieces of the core between the runs, and the trailing
   * characters, one piece each.
   */
  function PrepareSpec(c: Config, token: string): seq<string>
    decreases |token|, 2, 0
  {
    var p, s := PrefixRun(c, token), TrailRun(c, token);
    if p + s >= |token| then Chars(token)
    else Chars(token[..p]) + CoreSpec(c, token[p..|token| - s]) + Chars(token[|token| - s..])
  }

  /** The infix half of prepare_token: a core of more than two characters is split at its infix characters. */
  function CoreSpec(c: Config, core: string): seq<string>
    decreases |core|, 1, 0
  {
    if core == "" then [] else if |core| <= 2 then [core] else SplitFrom(c, core, 0, 0)
  }

  /**
   * The infix loop from position `d`, with the current segment starting at
   * `last`: at an infix character the segment is prepared again and the
   * character is a piece of its own; at the end the last segment is
   * prepared, or the core stays whole when no infix character was found.
   */
  function SplitFrom(c: Config, core: string, last: nat, d: nat): seq<string>
    requires last <= d <= |core|
    decreases |core|, 0, |core| - d
  {
    if d == |core| then (if last > 0 then PrepareSpec(c, core[last..]) else [core])
    else if c.isInfix(core[d]) then PrepareSpec(c, core[last..d]) + [core[d..d + 1]] + SplitFrom(c, core, d + 1, d + 1)
    else SplitFrom(c, core, last, d + 1)
  }

  /** Single-character pieces are the characters of what they join to. */
  lemma {:induction false} CharsConcat(pieces: seq<string>)
    requires forall i :: 0 <= i < |pieces| ==> |pieces[i]| == 1
    ensures |Concat(pieces)| == |pieces| && pieces == Chars(Concat(pieces))
    decreases |pieces|
  {
    if pieces != [] {
      CharsConcat(pieces[1..]);
      var t, rest := Concat(pieces), Concat(pieces[1..]);
      assert t == pieces[0] + rest;
      forall i | 0 <= i < |pieces|
        ensures pieces[i] == t[i..i + 1]
      {
        if i > 0 {
          assert pieces[i] == pieces[1..][i - 1] == rest[i - 1..i];
          assert t[i..i + 1] == rest[i - 1..i];
        }
      }
    }
  }

  lemma {:induction false} CharsAppend(a: string, b: string)
    ensures Chars(a + b) == Chars(a) + Chars(b)
  {
    var l, r := Chars(a + b), Chars(a) + Chars(b);
    forall i | 0 <= i < |l|
      ensures l[i] == r[i]
    {
      if i >= |a| {
        assert (a + b)[i..i + 1] == b[i - |a|..i - |a| + 1];
      } else {
        assert (a + b)[i..i + 1] == a[i..i + 1];
      }
    }
  }

  /**
   * Whatever division of the token the strip loop leaves, the prefix pieces,
   * the core's pieces and the suffix pieces in their original order are
   * what prepare_token returns.
   */
  lemma {:induction false} StrippedSpec(c: Config, token: string, prefixes: seq<string>, core: string, suffixes: seq<string>)
    requires Stripped(c, token, prefixes, core, suffixes)
    ensures prefixes + CoreSpec(c, core) + Reverse(suffixes) == PrepareSpec(c, token)
  {
    var back := Reverse(suffixes);
    var a, b := Concat(prefixes), Concat(back);
    CharsConcat(prefixes);
    CharsConcat(back);
    forall i | 0 <= i < |a| ensures c.isPrefix(a[i]) {
      assert prefixes[i] == a[i..i + 1];
      assert prefixes[i][0] == a[i];
    }
    forall i | 0 <= i < |b| ensures IsTrailing(c, b[i]) {
      assert back[i] == b[i..i + 1];
      assert back[i] == suffixes[|suffixes| - 1 - i];
      assert back[i][0] == b[i];
    }
    PrepareSpecShape(c, token, a, core, b);
  }

  /** A stripped token with its core split is joined back by the pieces, none of them empty. */
  lemma {:induction false} DividedJoin(c: Config, token: string, prefixes: seq<string>, core: string, suffixes: seq<string>, middle: seq<string>)
    requires Stripped(c, token, prefixes, core, suffixes) && CoreSplit(c, core, middle)
    ensures Concat(prefixes + middle + Reverse(suffixes)) == token && NonEmpty(prefixes + middle + Reverse(suffixes))
  {
    var tail := Reverse(suffixes);
    ConcatAppend(prefixes, middle);
    ConcatAppend(prefixes + middle, tail);
    assert NonEmpty(prefixes) && NonEmpty(tail);
  }

  /**
   * A token made of prefix characters, a core that starts with no prefix
   * character and ends with no trailing one, and trailing characters is
   * prepared as those characters one by one around the core's pieces.
   */
  lemma {:induction false} PrepareSpecShape(c: Config, token: string, a: string, core: string, b: string)
    requires token == a + core + b
    requires forall i :: 0 <= i < |a| ==> c.isPrefix(a[i])
    requires forall i :: 0 <= i < |b| ==> IsTrailing(c, b[i])
    requires core != "" ==> !c.isPrefix(core[0]) && !IsTrailing(c, core[|core| - 1])
    ensures PrepareSpec(c, token) == Chars(a) + CoreSpec(c, core) + Chars(b)
  {
    RunsOfShape(c, token, a, core, b);
    if core == "" {
      CharsAppend(a, b);
    }
  }

  /** The runs PrepareSpec measures are the prefix and trailing parts of such a token. */
  lemma {:induction false} RunsOfShape(c: Config, token: string, a: string, core: string, b: string)
    requires token == a + core + b
    requires forall i :: 0 <= i < |a| ==> c.isPrefix(a[i])
    requires forall i :: 0 <= i < |b| ==> IsTrailing(c, b[i])
    requires core != "" ==> !c.isPrefix(core[0]) && !IsTrailing(c, core[|core| - 1])
    ensures core == "" ==> PrefixRun(c, token) + TrailRun(c, token) >= |token| && token == a + b
    ensures core != "" ==> PrefixRun(c, token) == |a| && TrailRun(c, token) == |b|
    ensures core != "" ==> token[..|a|] == a && token[|a|..|token| - |b|] == core && token[|token| - |b|..] == b
  {
    PrefixRunOf(c, token, a, core + b);
    assert token == (a + core) + b;
    TrailRunOf(c, token, a + core, b);
    if core != "" {
      assert token[..|a|] == a && token[|a|..|token| - |b|] == core && token[|token| - |b|..] == b;
    }
  }

  /** The prefix run of `a + rest` covers `a` when `a` is all prefix characters, and stops there when `rest` does not start with one. */
  lemma {:induction false} PrefixRunOf(c: Config, token: string, a: string, rest: string)
    requires token == a + rest && forall i :: 0 <= i < |a| ==> c.isPrefix(a[i])
    ensures PrefixRun(c, token) >= |a|
    ensures rest != "" && !c.isPrefix(rest[0]) ==> PrefixRun(c, token) == |a|
  {
    forall i | 0 <= i < |a| ensures c.isPrefix(token[i]) {
      assert token[i] == a[i];
    }
    assert rest != "" ==> token[|a|] == rest[0];
  }

  /** The trailing run of `rest + b` covers `b` when `b` is all trailing characters, and stops there when `rest` does not end with one. */
  lemma {:induction false} TrailRunOf(c: Config, token: string, rest: string, b: string)
    requires token == rest + b && forall i :: 0 <= i < |b| ==> IsTrailing(c, b[i])
    ensures TrailRun(c, token) >= |b|
    ensures rest != "" && !IsTrailing(c, rest[|rest| - 1]) ==> TrailRun(c, token) == |b|
  {
    forall i | |rest| <= i < |token| ensures IsTrailing(c, token[i]) {
      assert token[i] == b[i - |rest|];
    }
    assert rest != "" ==> token[|rest| - 1] == rest[|rest| - 1];
  }

  /** prepare_token("") returns no pieces. */
  lemma {:induction false} PrepareSpecEmpty(c: Config)
    ensures PrepareSpec(c, "") == []
  {
  }

  /**
   * How prepare_token divides a token: the prefix pieces, the core, the
   * suffix pieces in the order they were peeled, and the pieces of the core.
   */
  datatype Division = Division(prefixes: seq<string>, core: string, suffixes: seq<string>, middle: seq<string>)

  /**
   * The infix character at `d` of `core` is a piece of its own, right after
   * pieces that join to the text before it.
   */
  ghost predicate DelimAt(core: string, pieces: seq<string>, d: nat)
  {
    d < |core| &&
    exists j :: 0 <= j < |pieces| && Concat(pieces[..j]) == core[..d] && pieces[j] == core[d..d + 1]
  }

  /** Every infix character of `core` is a piece of its own. */
  ghost predicate InfixPieces(c: Config, core: string, pieces: seq<string>)
  {
    forall d :: 0 <= d < |core| && c.isInfix(core[d]) ==> DelimAt(core, pieces, d)
  }

  /**
   * What the infix half of prepare_token makes of a core: non-empty pieces
   * joining back to it, none for an empty core, the core whole when it has
   * at most two characters or no infix character, and otherwise every infix
   * character as a piece of its own.
   */
  ghost predicate CoreSplit(c: Config, core: string, middle: seq<string>)
  {
    Concat(middle) == core && NonEmpty(middle) &&
    (core == "" ==> middle == []) &&
    (core != "" && (|core| <= 2 || forall d :: 0 <= d < |core| ==> !c.isInfix(core[d])) ==> middle == [core]) &&
    (|core| > 2 ==> InfixPieces(c, core, middle)) &&
    middle == CoreSpec(c, core)
  }

  /**
   * `pieces` are `token` divided as `v` says: stripped, the core split, and
   * the suffixes put back in their original order after the core's pieces.
   */
  ghost predicate DividedAs(c: Config, token: string, pieces: seq<string>, v: Division)
  {
    Stripped(c, token, v.prefixes, v.core, v.suffixes) && CoreSplit(c, v.core, v.middle) &&
    pieces == v.prefixes + v.middle + Reverse(v.suffixes)
  }

  /** A single character that is neither a prefix nor trailing is one piece. */
  lemma {:induction false} PrepareSpecPlain(c: Config, t: string)
    requires |t| == 1 && !c.isPrefix(t[0]) && !IsTrailing(c, t[0])
    ensures PrepareSpec(c, t) == [t]
  {
    assert PrefixRun(c, t) == 0 && TrailRun(c, t) == 0;
    assert t[..0] == "" && t[0..1] == t && t[1..] == "";
    assert Chars("") == [];
  }

  /** A character that prepare_token leaves alone when it stands by itself. */
  predicate Plain(c: Config, ch: char) { !c.isPrefix(ch) && !IsTrailing(c, ch) && !c.isInfix(ch) }

  /**
   * Example: a token shaped like "a(-b)c" (a plain character, an infix
   * character, a prefix character that is not infix, a plain character, an
   * infix character and a plain character) is divided into its six
   * characters: the segment "-b" between the two infix characters is
   * prepared again, so its leading prefix character is a piece of its own.
   */
  lemma {:induction false} PrepareSpecInfixSegment(c: Config, t: string)
    requires |t| == 6 && Plain(c, t[0]) && c.isInfix(t[1]) && c.isPrefix(t[2]) && !c.isInfix(t[2])
    requires Plain(c, t[3]) && c.isInfix(t[4]) && Plain(c, t[5])
    ensures PrepareSpec(c, t) == Chars(t)
  {
    assert PrefixRun(c, t) == 0 && TrailRun(c, t) == 0;
    assert t[..0] == "" && t[|t|..] == "" && t[0..|t| - 0] == t;
    assert Chars("") == [];
    assert PrepareSpec(c, t) == CoreSpec(c, t);
    PrepareSpecPlain(c, t[0..1]);
    SplitFromSegment(c, t);
    assert SplitFrom(c, t, 0, 0) == SplitFrom(c, t, 0, 1) == [t[0..1], t[1..2], t[2..3], t[3..4], t[4..5], t[5..6]];
  }

  /** The part of PrepareSpecInfixSegment after the first infix character. */
  lemma {:induction false} SplitFromSegment(c: Config, t: string)
    requires |t| == 6 && c.isPrefix(t[2]) && !c.isInfix(t[2])
    requires Plain(c, t[3]) && c.isInfix(t[4]) && Plain(c, t[5])
    ensures SplitFrom(c, t, 2, 2) == [t[2..3], t[3..4], t[4..5], t[5..6]]
  {
    var b := t[2..4];
    PrepareSpecPlain(c, t[5..]);
    PrepareSpecLead(c, b);
    assert t[5..] == t[5..6];
    assert SplitFrom(c, t, 5, 5) == SplitFrom(c, t, 5, 6) == [t[5..6]];
    assert SplitFrom(c, t, 2, 4) == Chars(b) + [t[4..5], t[5..6]];
    assert SplitFrom(c, t, 2, 2) == SplitFrom(c, t, 2, 3) == SplitFrom(c, t, 2, 4);
    assert b[0..1] == t[2..3] && b[1..2] == t[3..4];
    assert Chars(b) == [t[2..3], t[3..4]];
  }

  /** A prefix character followed by a plain character gives two pieces. */
  lemma {:induction false} PrepareSpecLead(c: Config, t: string)
    requires |t| == 2 && c.isPrefix(t[0]) && Plain(c, t[1])
    ensures PrepareSpec(c, t) == Chars(t)
  {
    var a, core := t[..1], t[1..];
    assert t == a + core + "";
    PrepareSpecShape(c, t, a, core, "");
    assert CoreSpec(c, core) == [core];
    CharsOne(a);
    CharsOne(core);
    CharsAppend(a, core);
    assert Chars("") == [];
  }

  /** The example on the text itself, with brackets and dashes as prefix and suffix characters and brackets as infix characters. */
  lemma {:induction false} PrepareSpecExample(c: Config)
    requires c.isPrefix == c.isSuffix == (ch => ch in "()-") && c.isSpace == (ch => ch == ' ') && c.isInfix == (ch => ch in "()")
    ensures PrepareSpec(c, "a(-b)c") == ["a", "(", "-", "b", ")", "c"]
  {
    var t := "a(-b)c";
    PrepareSpecInfixSegment(c, t);
    assert t[0..1] == "a" && t[1..2] == "(" && t[2..3] == "-" && t[3..4] == "b" && t[4..5] == ")" && t[5..6] == "c";
  }

  lemma {:induction false} CharsOne(t: string)
    requires |t| == 1
    ensures Chars(t) == [t]
  {
    assert t[0..1] == t;
  }

  /** `pieces` are a division prepare_token can make of `token`; PreparedIsSpec shows there is only one. */
  ghost predicate Prepared(c: Config, token: string, pieces: seq<string>)
  {
    exists v :: DividedAs(c, token, pieces, v)
  }

  /**
   * The division is a function of the token: every division the strip loop
   * and the infix split can make gives the pieces PrepareSpec gives.
   */
  lemma {:induction false} PreparedIsSpec(c: Config, token: string, pieces: seq<string>)
    requires Prepared(c, token, pieces)
    ensures pieces == PrepareSpec(c, token)
  {
    var v :| DividedAs(c, token, pieces, v);
    StrippedSpec(c, token, v.prefixes, v.core, v.suffixes);
  }

  /** prepare_token("") returns no pieces. */
  lemma {:induction false} PreparedEmpty(c: Config)
    ensures Prepared(c, "", [])
  {
    assert Concat([]) == "";
    assert DividedAs(c, "", [], Division([], "", [], []));
  }

  /**
   * prepare_token: strip the prefix and suffix characters, then split what
   * is left at its infix characters. The pieces are the prefixes, the core's
   * pieces and the suffixes in their original order; they join back to the
   * token and none is empty.
   */
  method PrepareToken(c: Config, token: string) returns (pieces: seq<string>, ghost v: Division)
    ensures DividedAs(c, token, pieces, v)
    ensures pieces == PrepareSpec(c, token)
    ensures Concat(pieces) == token
    ensures NonEmpty(pieces)
    ensures token == "" ==> pieces == []
    decreases |token|, 1
  {
    var prefixes, core, suffixes := Strip(c, token);
    var middle: seq<string> := [];
    if core != "" {
      middle := SplitCore(c, core);
    } else {
      assert Concat([]) == "";
    }
    DividedJoin(c, token, prefixes, core, suffixes, middle);
    StrippedSpec(c, token, prefixes, core, suffixes);
    pieces := prefixes + middle + Reverse(suffixes);
    v := Division(prefixes, core, suffixes, middle);
    if token == "" {
      ConcatNothing(pieces);
    }
  }

  /**
   * The second half of prepare_token: a core longer than two characters is
   * split at every infix character, each delimiter becoming a piece and the
   * text between delimiters being prepared recursively; a shorter or
   * undelimited core stays whole.
   */
  method SplitCore(c: Config, core: string) returns (pieces: seq<string>)
    requires core != ""
    ensures Concat(pieces) == core && NonEmpty(pieces)
    ensures |core| <= 2 ==> pieces == [core]
    ensures (forall d :: 0 <= d < |core| ==> !c.isInfix(core[d])) ==> pieces == [core]
    ensures |core| > 2 ==> InfixPieces(c, core, pieces)
    ensures pieces == CoreSpec(c, core)
    decreases |core|, 0, 3
  {
    if |core| <= 2 {
      ConcatSingle(core);
      pieces := [core];
    } else {
      pieces := SplitLong(c, core);
    }
  }

  /** SplitCore on a core longer than two characters: the infix loop and the final segment. */
  method SplitLong(c: Config, core: string) returns (pieces: seq<string>)
    requires |core| > 2
    ensures Concat(pieces) == core && NonEmpty(pieces)
    ensures (forall d :: 0 <= d < |core| ==> !c.isInfix(core[d])) ==> pieces == [core]
    ensures InfixPieces(c, core, pieces)
    ensures pieces == CoreSpec(c, core)
    decreases |core|, 0, 2
  {
    var lastIndex;
    pieces, lastIndex := InfixLoop(c, core);
    if lastIndex > 0 {
      var sub, _ := PrepareToken(c, core[lastIndex..]);
      ConcatSplit(pieces, sub, core, lastIndex);
      DelimsExtend(c, core, pieces, pieces + sub, |core|);
      SplitFromEnd(c, core, lastIndex);
      assert pieces + sub == CoreSpec(c, core);
      pieces := pieces + sub;
    } else {
      ConcatSingle(core);
      SplitFromEnd(c, core, 0);
      assert [core] == CoreSpec(c, core);
      pieces := [core];
    }
  }

  /**
   * The loop of prepare_token over the infix matches of a core longer than
   * two characters. `lastIndex` is where the last delimiter ends, 0 when
   * there is none.
   */
  method InfixLoop(c: Config, core: string) returns (pieces: seq<string>, lastIndex: nat)
    requires |core| > 2
    ensures lastIndex <= |core| && Concat(pieces) == core[..lastIndex] && NonEmpty(pieces)
    ensures lastIndex == 0 <==> forall e :: 0 <= e < |core| ==> !c.isInfix(core[e])
    ensures lastIndex == 0 ==> pieces == []
    ensures DelimsBefore(c, core, pieces, |core|)
    ensures pieces + SplitFrom(c, core, lastIndex, |core|) == CoreSpec(c, core)
    decreases |core|, 0, 1
  {
    pieces := [];
    lastIndex := 0;
    assert Concat([]) == "";
    for d := 0 to |core|
      invariant lastIndex <= d
      invariant Concat(pieces) == core[..lastIndex]
      invariant NonEmpty(pieces)
      invariant lastIndex == 0 <==> forall e :: 0 <= e < d ==> !c.isInfix(core[e])
      invariant lastIndex == 0 ==> pieces == []
      invariant DelimsBefore(c, core, pieces, d)
      invariant pieces + SplitFrom(c, core, lastIndex, d) == SplitFrom(c, core, 0, 0)
    {
      if c.isInfix(core[d]) {
        var r := AppendDelimited(c, core, lastIndex, d, pieces);
        DelimStep(c, core, pieces, r, d);
        SplitFromDelim(c, core, pieces, r, lastIndex, d);
        pieces := r;
        lastIndex := d + 1;
      } else {
        DelimsSkip(c, core, pieces, d);
        SplitFromSkip(c, core, lastIndex, d);
      }
    }
  }

  /**
   * At an infix character, appending the prepared segment and the character
   * to the pieces leaves what is still to come unchanged.
   */
  lemma {:induction false} SplitFromDelim(c: Config, core: string, pieces: seq<string>, r: seq<string>, last: nat, d: nat)
    requires last <= d < |core| && c.isInfix(core[d])
    requires r == pieces + PrepareSpec(c, core[last..d]) + [core[d..d + 1]]
    ensures r + SplitFrom(c, core, d + 1, d + 1) == pieces + SplitFrom(c, core, last, d)
  {
    var rest := SplitFrom(c, core, d + 1, d + 1);
    assert SplitFrom(c, core, last, d) == PrepareSpec(c, core[last..d]) + [core[d..d + 1]] + rest;
  }

  lemma {:induction false} SplitFromSkip(c: Config, core: string, last: nat, d: nat)
    requires last <= d < |core| && !c.isInfix(core[d])
    ensures SplitFrom(c, core, last, d) == SplitFrom(c, core, last, d + 1)
  {
  }

  lemma {:induction false} SplitFromEnd(c: Config, core: string, last: nat)
    requires last <= |core|
    ensures SplitFrom(c, core, last, |core|) == if last > 0 then PrepareSpec(c, core[last..]) else [core]
  {
  }

  /** Every infix character before `d` is a piece of its own. */
  ghost predicate DelimsBefore(c: Config, core: string, pieces: seq<string>, d: nat)
  {
    forall e :: 0 <= e < d && e < |core| && c.isInfix(core[e]) ==> DelimAt(core, pieces, e)
  }

  lemma {:induction false} DelimsSkip(c: Config, core: string, pieces: seq<string>, d: nat)
    requires DelimsBefore(c, core, pieces, d) && d < |core| && !c.isInfix(core[d])
    ensures DelimsBefore(c, core, pieces, d + 1)
  {
  }

  /** The delimiter at `d`, appended as the last piece, joins the ones before it. */
  lemma {:induction false} DelimStep(c: Config, core: string, pieces: seq<string>, r: seq<string>, d: nat)
    requires DelimsBefore(c, core, pieces, d) && d < |core|
    requires |pieces| < |r| && r[..|pieces|] == pieces
    requires Concat(r[..|r| - 1]) == core[..d] && r[|r| - 1] == core[d..d + 1]
    ensures DelimsBefore(c, core, r, d + 1)
  {
    DelimsExtend(c, core, pieces, r, d);
    assert DelimAt(core, r, d);
  }

  /** Pieces appended after the ones so far keep every delimiter found so far a piece of its own. */
  lemma {:induction false} DelimsExtend(c: Config, core: string, pieces: seq<string>, r: seq<string>, d: nat)
    requires d <= |core| && |pieces| <= |r| && r[..|pieces|] == pieces
    requires DelimsBefore(c, core, pieces, d)
    ensures DelimsBefore(c, core, r, d)
  {
    forall e | 0 <= e < d && c.isInfix(core[e])
      ensures DelimAt(core, r, e)
    {
      var j :| 0 <= j < |pieces| && Concat(pieces[..j]) == core[..e] && pieces[j] == core[e..e + 1];
      assert r[..j] == pieces[..j];
      assert r[j] == pieces[j];
    }
  }

  /** One delimiter of the infix loop: prepare the text before it, then the delimiter itself. */
  method AppendDelimited(c: Config, core: string, lastIndex: nat, d: nat, pieces: seq<string>)
    returns (r: seq<string>)
    requires lastIndex <= d < |core| && Concat(pieces) == core[..lastIndex] && NonEmpty(pieces)
    ensures Concat(r) == core[..d + 1] && NonEmpty(r) && r != []
    ensures |pieces| < |r| && r[..|pieces|] == pieces
    ensures Concat(r[..|r| - 1]) == core[..d] && r[|r| - 1] == core[d..d + 1]
    ensures r == pieces + PrepareSpec(c, core[lastIndex..d]) + [core[d..d + 1]]
    decreases |core|, 0, 0
  {
    r := pieces;
    if lastIndex != d {
      var sub, _ := PrepareToken(c, core[lastIndex..d]);
      ConcatAppend(r, sub);
      assert core[..lastIndex] + core[lastIndex..d] == core[..d];
      r := r + sub;
    } else {
      PrepareSpecEmpty(c);
      assert core[lastIndex..d] == "" && r == pieces + [];
    }
    ghost var before := r;
    ConcatAppend(r, [core[d..d + 1]]);
    ConcatSingle(core[d..d + 1]);
    assert core[..d] + core[d..d + 1] == core[..d + 1];
    r := r + [core[d..d + 1]];
    assert r[..|r| - 1] == before;
  }

  // ---------------------------------------------------------------------------
  // Chunks and placeholders.
  // ---------------------------------------------------------------------------

  /** SPACES_RE is `[ \t]+`. */
  predicate IsSep(ch: char) { ch == ' ' || ch == '\t' }

  /** The first separator at or after `i`, or |s|. */
  function FirstSep(s: string, i: nat): (j: nat)
    requires i <= |s|
    ensures i <= j <= |s| && (j < |s| ==> IsSep(s[j]))
    ensures forall k :: i <= k < j ==> !IsSep(s[k])
    decreases |s| - i
  {
    if i == |s| || IsSep(s[i]) then i else FirstSep(s, i + 1)
  }

  /** The end of the run of separators starting at `i`. */
  function SepEnd(s: string, i: nat): (j: nat)
    requires i <= |s|
    ensures i <= j <= |s| && (j < |s| ==> !IsSep(s[j]))
    ensures forall k :: i <= k < j ==> IsSep(s[k])
    decreases |s| - i
  {
    if i == |s| || !IsSep(s[i]) then i else SepEnd(s, i + 1)
  }

  /**
   * SPACES_RE.split(s): the text between maximal runs of separators; a
   * leading or trailing run gives an empty first or last chunk.
   */
  function SplitSpaces(s: string): (chunks: seq<string>)
    ensures |chunks| >= 1
    ensures chunks[0] == "" <==> s == "" || IsSep(s[0])
    ensures forall k, i :: 0 <= k < |chunks| && 0 <= i < |chunks[k]| ==> !IsSep(chunks[k][i])
    decreases |s|
  {
    var i := FirstSep(s, 0);
    if i == |s| then [s]
    else
      var rest := SplitSpaces(s[SepEnd(s, i)..]);
      assert forall k :: 1 <= k < |[s[..i]] + rest| ==> ([s[..i]] + rest)[k] == rest[k - 1];
      [s[..i]] + rest
  }

  /** `s` without its separator characters. */
  function DropSeps(s: string): string
  {
    if s == "" then "" else (if IsSep(s[0]) then "" else s[..1]) + DropSeps(s[1..])
  }

  lemma {:induction false} DropSepsAppend(a: string, b: string)
    ensures DropSeps(a + b) == DropSeps(a) + DropSeps(b)
    decreases |a|
  {
    if a != "" {
      assert (a + b)[1..] == a[1..] + b;
      assert (a + b)[..1] == a[..1];
      DropSepsAppend(a[1..], b);
    } else {
      assert a + b == b;
    }
  }

  lemma {:induction false} DropSepsFree(s: string)
    requires forall k :: 0 <= k < |s| ==> !IsSep(s[k])
    ensures DropSeps(s) == s
    decreases |s|
  {
    if s != "" {
      DropSepsFree(s[1..]);
      assert s[..1] + s[1..] == s;
    }
  }

  lemma {:induction false} DropSepsAll(s: string)
    requires forall k :: 0 <= k < |s| ==> IsSep(s[k])
    ensures DropSeps(s) == ""
    decreases |s|
  {
    if s != "" {
      DropSepsAll(s[1..]);
    }
  }

  /** Splitting into chunks loses exactly the separators. */
  lemma {:induction false} SplitSpacesKeepsText(s: string)
    ensures Concat(SplitSpaces(s)) == DropSeps(s)
    decreases |s|
  {
    var i := FirstSep(s, 0);
    if i == |s| {
      ConcatSingle(s);
      DropSepsFree(s);
    } else {
      var j := SepEnd(s, i);
      SplitSpacesKeepsText(s[j..]);
      var rest := SplitSpaces(s[j..]);
      assert SplitSpaces(s) == [s[..i]] + rest;
      ConcatAppend([s[..i]], rest);
      ConcatSingle(s[..i]);
      DropSepsChunk(s, i, j);
    }
  }

  /** A separator-free run, then a run of separators: only the first run survives DropSeps. */
  lemma {:induction false} DropSepsChunk(s: string, i: nat, j: nat)
    requires i <= j <= |s|
    requires forall k :: 0 <= k < i ==> !IsSep(s[k])
    requires forall k :: i <= k < j ==> IsSep(s[k])
    ensures DropSeps(s) == s[..i] + DropSeps(s[j..])
  {
    var head, seps, tail := s[..i], s[i..j], s[j..];
    assert forall k :: 0 <= k < |head| ==> !IsSep(head[k]) by {
      forall k | 0 <= k < |head|
        ensures !IsSep(head[k])
      {
        assert head[k] == s[k];
      }
    }
    assert forall k :: 0 <= k < |seps| ==> IsSep(seps[k]) by {
      forall k | 0 <= k < |seps|
        ensures IsSep(seps[k])
      {
        assert seps[k] == s[i + k];
      }
    }
    DropSepsFree(head);
    DropSepsAll(seps);
    calc {
      DropSeps(s);
      { SliceThree(s, i, j); }
      DropSeps((head + seps) + tail);
      { DropSepsAppend(head + seps, tail); }
      DropSeps(head + seps) + DropSeps(tail);
      { DropSepsAppend(head, seps); assert head + "" == head; }
      head + DropSeps(tail);
    }
  }

  lemma {:induction false} SliceThree(s: string, i: nat, j: nat)
    requires i <= j <= |s|
    ensures s == (s[..i] + s[i..j]) + s[j..]
  {
  }

  const PlaceholderHead: string := "~~specific_token_"

  /** `\d`, restricted to the ASCII digits. */
  predicate IsDigit(ch: char) { '0' <= ch <= '9' }

  function DigitsEnd(s: string, i: nat): (j: nat)
    requires i <= |s|
    ensures i <= j <= |s| && (j < |s| ==> !IsDigit(s[j]))
    ensures forall k :: i <= k < j ==> IsDigit(s[k])
    decreases |s| - i
  {
    if i == |s| || !IsDigit(s[i]) then i else DigitsEnd(s, i + 1)
  }

  /**
   * The end of a match of `~~specific_token_\d+~~` starting at `i`, if any.
   * Backtracking into the digits cannot help, since a digit is never `~`.
   */
  function PlaceholderAt(s: string, i: nat): (r: Option<nat>)
    requires i <= |s|
    ensures r.Some? ==> i < r.value <= |s|
  {
    var h := i + |PlaceholderHead|;
    if h <= |s| && s[i..h] == PlaceholderHead then
      var j := DigitsEnd(s, h);
      if j > h && j + 2 <= |s| && s[j..j + 2] == "~~" then Some(j + 2) else None
    else None
  }

  /** SPECIFIC_TOKEN_RE.finditer(s) from offset `i`: the spans of the matches, left to right. */
  function Placeholders(s: string, i: nat): (r: seq<(nat, nat)>)
    requires i <= |s|
    ensures forall k :: 0 <= k < |r| ==> i <= r[k].0 < r[k].1 <= |s|
    ensures forall k :: 0 <= k < |r| - 1 ==> r[k].1 <= r[k + 1].0
    decreases |s| - i
  {
    if i == |s| then []
    else match PlaceholderAt(s, i)
      case Some(e) =>
        var rest := Placeholders(s, e);
        assert forall k :: 1 <= k < |[(i, e)] + rest| ==> ([(i, e)] + rest)[k] == rest[k - 1];
        [(i, e)] + rest
      case None => Placeholders(s, i + 1)
  }

  // ---------------------------------------------------------------------------
  // tokenize.
  // ---------------------------------------------------------------------------

  /** Where the text before placeholder `k` starts: at the chunk's start, or after placeholder `k - 1`. */
  function SegStart(spans: seq<(nat, nat)>, k: nat): nat
    requires k <= |spans|
  {
    if k == 0 then 0 else spans[k - 1].1
  }

  /** Where the pieces of that text start: at the first piece, or after the piece of placeholder `k - 1`. */
  function PieceStart(marks: seq<nat>, k: nat): nat
    requires k <= |marks|
  {
    if k == 0 then 0 else marks[k - 1] + 1
  }

  /**
   * Placeholder `k` of a chunk is the piece at `marks[k]`, and the pieces
   * between it and the previous placeholder's are the text between them,
   * divided as prepare_token divides it.
   */
  ghost predicate PlaceholderSpanAt(c: Config, tok: string, spans: seq<(nat, nat)>, pieces: seq<string>, marks: seq<nat>, k: nat)
  {
    k < |spans| && k < |marks| &&
    SegStart(spans, k) <= spans[k].0 < spans[k].1 <= |tok| && PieceStart(marks, k) <= marks[k] < |pieces| &&
    pieces[marks[k]] == tok[spans[k].0..spans[k].1] &&
    Prepared(c, tok[SegStart(spans, k)..spans[k].0], pieces[PieceStart(marks, k)..marks[k]])
  }

  /** The first `m` placeholders of a chunk are where `marks` says. */
  ghost predicate PlaceholderPieces(c: Config, tok: string, spans: seq<(nat, nat)>, pieces: seq<string>, marks: seq<nat>, m: nat)
  {
    forall k :: 0 <= k < m ==> PlaceholderSpanAt(c, tok, spans, pieces, marks, k)
  }

  /**
   * `pieces` are how tokenize divides the chunk `tok` whose placeholder
   * matches have the spans `spans`: every placeholder is a piece of its own,
   * and the text before each, and after the last, is divided as
   * prepare_token divides it.
   */
  ghost predicate ChunkDivided(c: Config, tok: string, spans: seq<(nat, nat)>, pieces: seq<string>, marks: seq<nat>)
  {
    |marks| == |spans| && PlaceholderPieces(c, tok, spans, pieces, marks, |spans|) &&
    SegStart(spans, |spans|) <= |tok| && PieceStart(marks, |spans|) <= |pieces| &&
    Prepared(c, tok[SegStart(spans, |spans|)..], pieces[PieceStart(marks, |spans|)..])
  }

  /** Pieces appended after the ones so far keep the placeholders found so far. */
  lemma {:induction false} PlaceholderPiecesGrow(c: Config, tok: string, spans: seq<(nat, nat)>, pieces: seq<string>, marks: seq<nat>, m: nat, r: seq<string>)
    requires PlaceholderPieces(c, tok, spans, pieces, marks, m)
    requires |pieces| <= |r| && r[..|pieces|] == pieces
    ensures PlaceholderPieces(c, tok, spans, r, marks, m)
  {
    forall k | 0 <= k < m
      ensures PlaceholderSpanAt(c, tok, spans, r, marks, k)
    {
      assert PlaceholderSpanAt(c, tok, spans, pieces, marks, k);
      PrefixSlice(pieces, r, PieceStart(marks, k), marks[k] + 1);
      PrefixSlice(pieces, r, PieceStart(marks, k), marks[k]);
    }
  }

  /** A slice within a prefix is the same slice of the whole. */
  lemma {:induction false} PrefixSlice<T>(a: seq<T>, r: seq<T>, i: nat, j: nat)
    requires |a| <= |r| && r[..|a|] == a && i <= j <= |a|
    ensures r[i..j] == a[i..j]
    ensures j > i ==> r[j - 1] == a[j - 1]
  {
    forall k | i <= k < j
      ensures r[k] == a[k]
    {
      assert r[..|a|][k] == r[k];
    }
  }

  /** One more placeholder, at the end of the pieces, after its prepared text. */
  lemma {:induction false} PlaceholderPiecesStep(c: Config, tok: string, spans: seq<(nat, nat)>, r: seq<string>, marks: seq<nat>, m: nat, n: nat)
    requires PlaceholderPieces(c, tok, spans, r, marks, m) && |marks| == m < |spans|
    requires SegStart(spans, m) <= spans[m].0 < spans[m].1 <= |tok|
    requires PieceStart(marks, m) <= n && n + 1 == |r| && r[n] == tok[spans[m].0..spans[m].1]
    requires Prepared(c, tok[SegStart(spans, m)..spans[m].0], r[PieceStart(marks, m)..n])
    ensures PlaceholderPieces(c, tok, spans, r, marks + [n], m + 1)
  {
    var marks' := marks + [n];
    forall k | 0 <= k < m + 1
      ensures PlaceholderSpanAt(c, tok, spans, r, marks', k)
    {
      assert PieceStart(marks', k) == PieceStart(marks, k);
      if k < m {
        assert PlaceholderSpanAt(c, tok, spans, r, marks, k);
        assert marks'[k] == marks[k];
      } else {
        assert marks'[k] == n;
      }
    }
  }

  /** The text after the last placeholder, prepared, completes the chunk. */
  lemma {:induction false} ChunkDividedEnd(c: Config, tok: string, spans: seq<(nat, nat)>, pieces: seq<string>, marks: seq<nat>, sub: seq<string>)
    requires |marks| == |spans| && PlaceholderPieces(c, tok, spans, pieces, marks, |spans|)
    requires SegStart(spans, |spans|) <= |tok| && PieceStart(marks, |spans|) == |pieces|
    requires Prepared(c, tok[SegStart(spans, |spans|)..], sub)
    ensures ChunkDivided(c, tok, spans, pieces + sub, marks)
  {
    assert (pieces + sub)[..|pieces|] == pieces;
    PlaceholderPiecesGrow(c, tok, spans, pieces, marks, |spans|, pieces + sub);
    assert (pieces + sub)[|pieces|..] == sub;
  }

  /**
   * The loop of tokenize over a chunk's placeholder matches: the text before
   * each is prepared and the placeholder appended whole. `lastPos` is where
   * the last match ends.
   */
  method PlaceholderRun(c: Config, tok: string, spans: seq<(nat, nat)>) returns (pieces: seq<string>, lastPos: nat, ghost marks: seq<nat>)
    requires forall k :: 0 <= k < |spans| ==> spans[k].0 < spans[k].1 <= |tok|
    requires forall k :: 0 <= k < |spans| - 1 ==> spans[k].1 <= spans[k + 1].0
    ensures lastPos == SegStart(spans, |spans|) <= |tok| && Concat(pieces) == tok[..lastPos] && NonEmpty(pieces)
    ensures |marks| == |spans| && |pieces| == PieceStart(marks, |spans|)
    ensures PlaceholderPieces(c, tok, spans, pieces, marks, |spans|)
  {
    pieces, lastPos, marks := [], 0, [];
    assert Concat([]) == "";
    for m := 0 to |spans|
      invariant lastPos <= |tok| && Concat(pieces) == tok[..lastPos] && NonEmpty(pieces)
      invariant lastPos == SegStart(spans, m) && |marks| == m && |pieces| == PieceStart(marks, m)
      invariant PlaceholderPieces(c, tok, spans, pieces, marks, m)
    {
      ghost var before := pieces;
      ghost var sub;
      pieces, sub := AppendPlaceholder(c, tok, lastPos, spans[m].0, spans[m].1, pieces);
      PlaceholderPiecesGrow(c, tok, spans, before, marks, m, pieces);
      PlaceholderPiecesStep(c, tok, spans, pieces, marks, m, |pieces| - 1);
      marks := marks + [|pieces| - 1];
      lastPos := spans[m].1;
    }
  }

  /** The text after the last placeholder match, prepared; nothing when the match ends the chunk. */
  method PrepareRest(c: Config, tok: string, lastPos: nat) returns (sub: seq<string>)
    requires lastPos <= |tok|
    ensures Concat(sub) == tok[lastPos..] && NonEmpty(sub)
    ensures Prepared(c, tok[lastPos..], sub)
  {
    if lastPos != |tok| {
      ghost var v;
      sub, v := PrepareToken(c, tok[lastPos..]);
      assert DividedAs(c, tok[lastPos..], sub, v);
    } else {
      PreparedEmpty(c);
      assert tok[lastPos..] == "";
      sub := [];
    }
  }

  /** A chunk without placeholders is divided as prepare_token divides it. */
  lemma {:induction false} ChunkDividedWhole(c: Config, tok: string, pieces: seq<string>, v: Division)
    requires DividedAs(c, tok, pieces, v)
    ensures ChunkDivided(c, tok, [], pieces, [])
  {
    assert tok[0..] == tok && pieces[0..] == pieces;
    assert Prepared(c, tok, pieces);
  }

  /**
   * One whitespace chunk of tokenize: placeholders become whole pieces and
   * the text around them is prepared; a chunk without placeholders is
   * prepared whole. The ghost result is the piece index of each placeholder.
   */
  method TokenizeChunk(c: Config, tok: string) returns (pieces: seq<string>, ghost marks: seq<nat>)
    ensures Concat(pieces) == tok && NonEmpty(pieces)
    ensures pieces == [] <==> tok == ""
    ensures ChunkDivided(c, tok, Placeholders(tok, 0), pieces, marks)
  {
    var spans := Placeholders(tok, 0);
    marks := [];
    if spans != [] {
      var lastPos;
      pieces, lastPos, marks := PlaceholderRun(c, tok, spans);
      var sub := PrepareRest(c, tok, lastPos);
      ChunkDividedEnd(c, tok, spans, pieces, marks, sub);
      ConcatAppend(pieces, sub);
      assert tok[..lastPos] + tok[lastPos..] == tok;
      pieces := pieces + sub;
    } else {
      ghost var v;
      pieces, v := PrepareToken(c, tok);
      ChunkDividedWhole(c, tok, pieces, v);
    }
    assert Concat([]) == "";
    if tok == "" {
      ConcatNothing(pieces);
    }
  }

  /**
   * One placeholder of a chunk: prepare the text before it, then the
   * placeholder as a whole piece; `sub` is the pieces of the text before it.
   */
  method AppendPlaceholder(c: Config, tok: string, lastPos: nat, start: nat, end: nat, pieces: seq<string>)
    returns (r: seq<string>, sub: seq<string>)
    requires lastPos <= start < end <= |tok| && Concat(pieces) == tok[..lastPos] && NonEmpty(pieces)
    ensures Concat(r) == tok[..end] && NonEmpty(r)
    ensures r == pieces + sub + [tok[start..end]] && Prepared(c, tok[lastPos..start], sub)
  {
    if start != lastPos {
      ghost var v;
      sub, v := PrepareToken(c, tok[lastPos..start]);
      assert DividedAs(c, tok[lastPos..start], sub, v);
    } else {
      sub := [];
      PreparedEmpty(c);
      assert tok[lastPos..start] == "" && Concat(sub) == "";
    }
    PlaceholderJoin(tok, pieces, sub, lastPos, start, end);
    r := pieces + sub + [tok[start..end]];
  }

  /** The pieces before `lastPos`, the prepared text up to `start` and the match join to the chunk up to `end`. */
  lemma {:induction false} PlaceholderJoin(tok: string, pieces: seq<string>, sub: seq<string>, lastPos: nat, start: nat, end: nat)
    requires lastPos <= start < end <= |tok|
    requires Concat(pieces) == tok[..lastPos] && Concat(sub) == tok[lastPos..start]
    requires NonEmpty(pieces) && NonEmpty(sub)
    ensures Concat(pieces + sub + [tok[start..end]]) == tok[..end] && NonEmpty(pieces + sub + [tok[start..end]])
  {
    ConcatAppend(pieces, sub);
    assert tok[..lastPos] + tok[lastPos..start] == tok[..start];
    ConcatAppend(pieces + sub, [tok[start..end]]);
    ConcatSingle(tok[start..end]);
    assert tok[..start] + tok[start..end] == tok[..end];
  }

  datatype TokenizeError = IndexError

  /** `key2equation.get(word, word)`. */
  function Lookup(m: map<string, string>, w: string): (r: string)
    ensures w !in m ==> r == w
    ensures w in m ==> r in m.Values
  {
    if w in m then m[w] else w
  }

  /**
   * tokenize: split into whitespace chunks, tokenize each chunk, and flag the
   * last piece of every chunk as followed by a space; finally unflag the
   * very last piece and map placeholders back through `key2equation`.
   * `spaces[-1]` raises IndexError when the first chunk is empty, that is
   * when the sentence is empty or starts with a blank.
   *
   * The ghost results expose the pieces before the mapping and the piece
   * index at which each chunk ends.
   */
  method Tokenize(sentence: string, key2equation: map<string, string>, c: Config)
    returns (r: Result<(seq<string>, seq<bool>), TokenizeError>, ghost pieces: seq<string>, ghost cuts: seq<nat>)
    ensures r.Failure? <==> sentence == "" || IsSep(sentence[0])
    ensures r.Success? ==> |r.value.0| == |r.value.1| == |pieces| > 0 && NonEmpty(pieces)
    ensures r.Success? ==> forall i :: 0 <= i < |pieces| ==> r.value.0[i] == Lookup(key2equation, pieces[i])
    ensures r.Success? ==> Chunked(pieces, cuts, SplitSpaces(sentence))
    ensures r.Success? ==> ChunksTokenized(c, pieces, cuts, SplitSpaces(sentence))
    ensures r.Success? ==> forall i :: 0 <= i < |pieces| ==>
      (r.value.1[i] <==> i + 1 in cuts && i + 1 < |pieces|)
  {
    var chunks := SplitSpaces(sentence);
    var ok, tokenized, spaces, cs := TokenizeChunks(c, chunks);
    cuts := cs;
    if !ok {
      return Failure(IndexError), tokenized, cuts;
    }
    var words := seq(|tokenized|, i requires 0 <= i < |tokenized| => Lookup(key2equation, tokenized[i]));
    var last := spaces[|spaces| - 1 := false];
    FlagsLast(spaces, cuts, last);
    r, pieces := Success((words, last)), tokenized;
  }

  /**
   * The loop of tokenize over the chunks: each chunk's pieces, unflagged
   * except the last. It stops (`ok` false) where `spaces[-1]` meets an empty
   * list, which happens exactly when the first chunk is empty.
   */
  method TokenizeChunks(c: Config, chunks: seq<string>)
    returns (ok: bool, tokenized: seq<string>, spaces: seq<bool>, ghost cuts: seq<nat>)
    requires |chunks| >= 1
    ensures !ok <==> chunks[0] == ""
    ensures ok ==> |spaces| == |tokenized| > 0 && NonEmpty(tokenized)
    ensures ok ==> Chunked(tokenized, cuts, chunks) && Flags(spaces, cuts)
    ensures ok ==> ChunksTokenized(c, tokenized, cuts, chunks)
  {
    tokenized, spaces := [], [];
    cuts := [0];
    assert chunks[..0] == [];
    for k := 0 to |chunks|
      invariant ChunkLoop(c, chunks, k, tokenized, spaces, cuts)
    {
      var sub, marks := TokenizeChunk(c, chunks[k]);
      ghost var tokenized0, spaces0, cuts0 := tokenized, spaces, cuts;
      tokenized := tokenized + sub;
      spaces := spaces + seq(|sub|, _ => false);
      cuts := cuts + [|tokenized|];
      if |spaces| == 0 {
        return false, tokenized, spaces, cuts;
      }
      spaces := spaces[|spaces| - 1 := true];
      ChunkLoopNext(c, chunks, k, tokenized0, spaces0, cuts0, sub, marks);
    }
    assert chunks[..|chunks|] == chunks;
    ok := true;
  }

  /** The invariant of the chunk loop after `k` chunks. */
  ghost predicate ChunkLoop(c: Config, chunks: seq<string>, k: nat, tokenized: seq<string>, spaces: seq<bool>, cuts: seq<nat>)
  {
    k <= |chunks| && |spaces| == |tokenized| && NonEmpty(tokenized) &&
    Chunked(tokenized, cuts, chunks[..k]) && ChunksTokenized(c, tokenized, cuts, chunks[..k]) &&
    (k > 0 ==> |tokenized| > 0 && chunks[0] != "") && Flags(spaces, cuts)
  }

  /** One round of the chunk loop keeps its invariant. */
  lemma {:induction false} ChunkLoopNext(c: Config, chunks: seq<string>, k: nat, tokenized: seq<string>, spaces: seq<bool>, cuts: seq<nat>, sub: seq<string>, marks: seq<nat>)
    requires ChunkLoop(c, chunks, k, tokenized, spaces, cuts) && k < |chunks|
    requires Concat(sub) == chunks[k] && NonEmpty(sub) && (sub == [] <==> chunks[k] == "")
    requires ChunkDivided(c, chunks[k], Placeholders(chunks[k], 0), sub, marks)
    requires |tokenized| + |sub| > 0
    ensures ChunkLoop(c, chunks, k + 1, tokenized + sub, (spaces + seq(|sub|, _ => false))[|tokenized| + |sub| - 1 := true], cuts + [|tokenized + sub|])
  {
    ChunkLoopStep(c, tokenized, cuts, chunks, k, sub, marks);
    FlagsExtend(spaces, cuts, |sub|);
    ConcatAppend(tokenized, sub);
    if k == 0 {
      assert tokenized == [];
    }
  }

  /** Exactly the pieces that end a chunk are flagged, and no cut lies past the pieces. */
  ghost predicate Flags(spaces: seq<bool>, cuts: seq<nat>)
  {
    (forall i :: 0 <= i < |spaces| ==> (spaces[i] <==> i + 1 in cuts)) &&
    (forall j :: 0 <= j < |cuts| ==> cuts[j] <= |spaces|)
  }

  /** Appending a chunk's pieces unflagged and then flagging the last piece keeps the flags on the cuts. */
  lemma {:induction false} FlagsExtend(spaces: seq<bool>, cuts: seq<nat>, n: nat)
    requires Flags(spaces, cuts) && |spaces| + n > 0
    ensures Flags((spaces + seq(n, _ => false))[|spaces| + n - 1 := true], cuts + [|spaces| + n])
  {
  }

  /** Unflagging the very last piece leaves flagged exactly the chunk ends before it. */
  lemma {:induction false} FlagsLast(spaces: seq<bool>, cuts: seq<nat>, last: seq<bool>)
    requires Flags(spaces, cuts) && |spaces| > 0 && last == spaces[|spaces| - 1 := false]
    ensures forall i :: 0 <= i < |last| ==> (last[i] <==> i + 1 in cuts && i + 1 < |last|)
  {
  }

  /**
   * `cuts` divides `pieces` into one run per chunk, in order, each run
   * joining back to its chunk.
   */
  ghost predicate Chunked(pieces: seq<string>, cuts: seq<nat>, chunks: seq<string>)
  {
    |cuts| == |chunks| + 1 && cuts[0] == 0 && cuts[|chunks|] == |pieces| &&
    (forall i, j :: 0 <= i <= j <= |chunks| ==> cuts[i] <= cuts[j]) &&
    forall k :: 0 <= k < |chunks| ==> Concat(pieces[cuts[k]..cuts[k + 1]]) == chunks[k]
  }

  /** `pieces` are how tokenize divides the chunk `tok`. */
  ghost predicate ChunkTokens(c: Config, tok: string, pieces: seq<string>)
  {
    exists marks :: ChunkDivided(c, tok, Placeholders(tok, 0), pieces, marks)
  }

  /** The run of pieces of chunk `k` is how tokenize divides that chunk. */
  ghost predicate ChunkTokensAt(c: Config, pieces: seq<string>, cuts: seq<nat>, chunks: seq<string>, k: nat)
  {
    k < |chunks| && k + 1 < |cuts| && cuts[k] <= cuts[k + 1] <= |pieces| &&
    ChunkTokens(c, chunks[k], pieces[cuts[k]..cuts[k + 1]])
  }

  /** The run of pieces of every chunk is how tokenize divides that chunk. */
  ghost predicate ChunksTokenized(c: Config, pieces: seq<string>, cuts: seq<nat>, chunks: seq<string>)
  {
    forall k :: 0 <= k < |chunks| ==> ChunkTokensAt(c, pieces, cuts, chunks, k)
  }

  /** One round of the chunk loop: the chunk's pieces extend the division by one chunk. */
  lemma {:induction false} ChunkLoopStep(c: Config, tokenized: seq<string>, cuts: seq<nat>, chunks: seq<string>, k: nat, sub: seq<string>, marks: seq<nat>)
    requires k < |chunks| && Chunked(tokenized, cuts, chunks[..k]) && ChunksTokenized(c, tokenized, cuts, chunks[..k])
    requires Concat(sub) == chunks[k] && ChunkDivided(c, chunks[k], Placeholders(chunks[k], 0), sub, marks)
    ensures Chunked(tokenized + sub, cuts + [|tokenized + sub|], chunks[..k + 1])
    ensures ChunksTokenized(c, tokenized + sub, cuts + [|tokenized + sub|], chunks[..k + 1])
  {
    assert ChunkTokens(c, chunks[k], sub);
    ChunksTokenizedExtend(c, tokenized, cuts, chunks[..k], sub, chunks[k]);
    ChunkedExtend(tokenized, cuts, chunks[..k], sub, chunks[k]);
    assert chunks[..k + 1] == chunks[..k] + [chunks[k]];
  }

  lemma {:induction false} ChunksTokenizedExtend(c: Config, pieces: seq<string>, cuts: seq<nat>, chunks: seq<string>, sub: seq<string>, chunk: string)
    requires ChunksTokenized(c, pieces, cuts, chunks) && Chunked(pieces, cuts, chunks) && ChunkTokens(c, chunk, sub)
    ensures ChunksTokenized(c, pieces + sub, cuts + [|pieces + sub|], chunks + [chunk])
  {
    var p, cs, ch := pieces + sub, cuts + [|pieces + sub|], chunks + [chunk];
    forall k | 0 <= k < |ch|
      ensures ChunkTokensAt(c, p, cs, ch, k)
    {
      assert cs[k] == cuts[k] && ch[k] == (if k < |chunks| then chunks[k] else chunk);
      if k < |chunks| {
        assert ChunkTokensAt(c, pieces, cuts, chunks, k);
        assert cs[k + 1] == cuts[k + 1];
        assert p[cs[k]..cs[k + 1]] == pieces[cuts[k]..cuts[k + 1]];
      } else {
        assert p[cs[k]..cs[k + 1]] == sub;
      }
    }
  }

  lemma {:induction false} ChunkedExtend(pieces: seq<string>, cuts: seq<nat>, chunks: seq<string>, sub: seq<string>, chunk: string)
    requires Chunked(pieces, cuts, chunks) && Concat(sub) == chunk
    ensures Chunked(pieces + sub, cuts + [|pieces + sub|], chunks + [chunk])
  {
    var p, c := pieces + sub, cuts + [|pieces + sub|];
    forall k | 0 <= k < |chunks| + 1
      ensures Concat(p[c[k]..c[k + 1]]) == (chunks + [chunk])[k]
    {
      if k < |chunks| {
        assert p[c[k]..c[k + 1]] == pieces[cuts[k]..cuts[k + 1]];
      } else {
        assert p[c[k]..c[k + 1]] == sub;
      }
    }
  }

  // ---------------------------------------------------------------------------
  // tokenize_text.
  // ---------------------------------------------------------------------------

  /**
   * The whitespace `str.strip()` removes: the characters Python's
   * `str.isspace` accepts, whatever the configuration says.
   */
  predicate IsWhitespace(ch: char)
  {
    var n := ch as int;
    n == 0x20 || 0x09 <= n <= 0x0D || 0x1C <= n <= 0x1F || n == 0x85 || n == 0xA0 || n == 0x1680 ||
    0x2000 <= n <= 0x200A || n == 0x2028 || n == 0x2029 || n == 0x202F || n == 0x205F || n == 0x3000
  }

  /** `s.lstrip()`. */
  function LStrip(s: string): string
  {
    if s != "" && IsWhitespace(s[0]) then LStrip(s[1..]) else s
  }

  /** `s.rstrip()`. */
  function RStrip(s: string): string
  {
    if s != "" && IsWhitespace(s[|s| - 1]) then RStrip(s[..|s| - 1]) else s
  }

  /** `s.strip()`. */
  function PyStrip(s: string): string
  {
    RStrip(LStrip(s))
  }

  /** The text is all whitespace. */
  predicate Blank(text: string)
  {
    forall i :: 0 <= i < |text| ==> IsWhitespace(text[i])
  }

  /** `not text.strip()` holds exactly for text made only of whitespace. */
  lemma {:induction false} BlankIsStripEmpty(text: string)
    ensures PyStrip(text) == "" <==> Blank(text)
  {
    var l := LStrip(text);
    LStripEmpty(text);
    RStripEmpty(l);
    if l != "" {
      LStripHead(text);
      assert !Blank(l);
    }
  }

  lemma {:induction false} LStripEmpty(s: string)
    ensures LStrip(s) == "" <==> Blank(s)
    decreases |s|
  {
    if s != "" && IsWhitespace(s[0]) {
      LStripEmpty(s[1..]);
      assert Blank(s) <==> Blank(s[1..]) by {
        assert forall i :: 0 < i < |s| ==> s[i] == s[1..][i - 1];
      }
    }
  }

  lemma {:induction false} LStripHead(s: string)
    ensures LStrip(s) != "" ==> !IsWhitespace(LStrip(s)[0])
    decreases |s|
  {
    if s != "" && IsWhitespace(s[0]) {
      LStripHead(s[1..]);
    }
  }

  lemma {:induction false} RStripEmpty(s: string)
    ensures RStrip(s) == "" <==> Blank(s)
    decreases |s|
  {
    if s != "" && IsWhitespace(s[|s| - 1]) {
      var init := s[..|s| - 1];
      RStripEmpty(init);
      assert Blank(s) <==> Blank(init) by {
        assert forall i :: 0 <= i < |init| ==> s[i] == init[i];
      }
    }
  }

  /** The token/flag pairs whose token the skip pattern does not match, in order. */
  function KeepPairs(tokens: seq<string>, spaces: seq<bool>, skip: string -> bool): (r: (seq<string>, seq<bool>))
    requires |tokens| == |spaces|
    ensures |r.0| == |r.1| <= |tokens|
    ensures forall i :: 0 <= i < |r.0| ==> !skip(r.0[i])
  {
    if tokens == [] then ([], [])
    else
      var rest := KeepPairs(tokens[..|tokens| - 1], spaces[..|spaces| - 1], skip);
      if skip(tokens[|tokens| - 1]) then rest
      else (rest.0 + [tokens[|tokens| - 1]], rest.1 + [spaces[|spaces| - 1]])
  }

  /** The token/flag pairs whose token is not skipped, filtered as pairs. */
  function Unskipped(pairs: seq<(string, bool)>, skip: string -> bool): seq<(string, bool)>
  {
    if pairs == [] then []
    else
      var rest := Unskipped(pairs[..|pairs| - 1], skip);
      if skip(pairs[|pairs| - 1].0) then rest else rest + [pairs[|pairs| - 1]]
  }

  /**
   * Filtering the two lists side by side is filtering the list of pairs:
   * a token and its flag are dropped or kept together, in order.
   */
  lemma {:induction false} KeepPairsTogether(tokens: seq<string>, spaces: seq<bool>, skip: string -> bool)
    requires |tokens| == |spaces|
    ensures var r := KeepPairs(tokens, spaces, skip); Zip(r.0, r.1) == Unskipped(Zip(tokens, spaces), skip)
    decreases |tokens|
  {
    if tokens != [] {
      var n := |tokens| - 1;
      KeepPairsTogether(tokens[..n], spaces[..n], skip);
      var rest := KeepPairs(tokens[..n], spaces[..n], skip);
      assert Zip(tokens, spaces)[..n] == Zip(tokens[..n], spaces[..n]);
      if !skip(tokens[n]) {
        ZipSnoc(rest.0, rest.1, tokens[n], spaces[n]);
      }
    }
  }

  function Zip<A, B>(a: seq<A>, b: seq<B>): (r: seq<(A, B)>)
    requires |a| == |b|
    ensures |r| == |a| && forall i :: 0 <= i < |a| ==> r[i] == (a[i], b[i])
  {
    seq(|a|, i requires 0 <= i < |a| => (a[i], b[i]))
  }

  lemma {:induction false} ZipSnoc<A, B>(a: seq<A>, b: seq<B>, x: A, y: B)
    requires |a| == |b|
    ensures Zip(a + [x], b + [y]) == Zip(a, b) + [(x, y)]
  {
  }

  /**
   * tokenize_text: whitespace-only text gives no tokens; otherwise tokenize
   * with an empty placeholder table and drop the pairs whose token the skip
   * pattern matches. The ghost result is what tokenize returned.
   */
  method TokenizeText(c: Config, text: string)
    returns (r: Result<(seq<string>, seq<bool>), TokenizeError>, ghost raw: (seq<string>, seq<bool>), ghost cuts: seq<nat>)
    ensures Blank(text) ==> r == Success(([], []))
    ensures r.Failure? <==> !Blank(text) && IsSep(text[0])
    ensures r.Success? ==> |r.value.0| == |r.value.1|
    ensures r.Success? && !Blank(text) ==>
      TokenizedText(c, text, raw, cuts) &&
      r.value == (if c.skip.None? then raw else KeepPairs(raw.0, raw.1, c.skip.value))
  {
    raw := ([], []);
    cuts := [];
    if Blank(text) {
      return Success(([], [])), raw, cuts;
    }
    var tokenized, pieces, cs := Tokenize(text, map[], c);
    cuts := cs;
    if tokenized.Failure? {
      return Failure(tokenized.error), raw, cuts;
    }
    var (tokens, spaces) := tokenized.value;
    raw := (tokens, spaces);
    assert tokens == pieces by {
      assert forall i :: 0 <= i < |pieces| ==> tokens[i] == pieces[i];
    }
    ChunkedConcat(pieces, cuts, SplitSpaces(text));
    SplitSpacesKeepsText(text);
    if c.skip.Some? {
      var skip := c.skip.value;
      var newTokens: seq<string> := [];
      var newSpaces: seq<bool> := [];
      for i := 0 to |tokens|
        invariant (newTokens, newSpaces) == KeepPairs(tokens[..i], spaces[..i], skip)
      {
        assert tokens[..i + 1][..i] == tokens[..i] && spaces[..i + 1][..i] == spaces[..i];
        if !skip(tokens[i]) {
          newTokens := newTokens + [tokens[i]];
          newSpaces := newSpaces + [spaces[i]];
        }
      }
      assert tokens[..|tokens|] == tokens && spaces[..|spaces|] == spaces;
      return Success((newTokens, newSpaces)), raw, cuts;
    }
    r := Success((tokens, spaces));
  }

  /**
   * What tokenize returns for `text` with no placeholder table: as many
   * flags as pieces, the pieces divided chunk by chunk as tokenize divides
   * each chunk, joining back to the text without its blanks and tabs, and
   * the flags set exactly on the chunk ends other than the last piece.
   */
  ghost predicate TokenizedText(c: Config, text: string, raw: (seq<string>, seq<bool>), cuts: seq<nat>)
  {
    |raw.0| == |raw.1| > 0 && NonEmpty(raw.0) &&
    Chunked(raw.0, cuts, SplitSpaces(text)) && ChunksTokenized(c, raw.0, cuts, SplitSpaces(text)) &&
    Concat(raw.0) == DropSeps(text) && !raw.1[|raw.1| - 1] &&
    forall i :: 0 <= i < |raw.1| ==> (raw.1[i] <==> i + 1 in cuts && i + 1 < |raw.1|)
  }

  /** Pieces divided chunk by chunk join to the chunks joined. */
  lemma {:induction false} ChunkedConcat(pieces: seq<string>, cuts: seq<nat>, chunks: seq<string>)
    requires Chunked(pieces, cuts, chunks)
    ensures Concat(pieces) == Concat(chunks)
    decreases |chunks|
  {
    if chunks == [] {
      assert pieces == [];
    } else {
      var n := |chunks| - 1;
      assert Chunked(pieces[..cuts[n]], cuts[..n + 1], chunks[..n]) by {
        forall k | 0 <= k < n
          ensures pieces[..cuts[n]][cuts[k]..cuts[k + 1]] == pieces[cuts[k]..cuts[k + 1]]
        {
        }
      }
      ChunkedConcat(pieces[..cuts[n]], cuts[..n + 1], chunks[..n]);
      assert pieces == pieces[..cuts[n]] + pieces[cuts[n]..cuts[n + 1]];
      ConcatAppend(pieces[..cuts[n]], pieces[cuts[n]..cuts[n + 1]]);
      assert chunks == chunks[..n] + [chunks[n]];
      ConcatAppend(chunks[..n], [chunks[n]]);
      ConcatSingle(chunks[n]);
    }
  }
}
