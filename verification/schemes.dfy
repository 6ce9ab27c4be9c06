/**
 * Records shared by the pattern matcher and the document container: the
 * annotated input token, the atom regexes of the pattern language, the atomic
 * predicate (PatternToken), the automaton State record and the start/end
 * fragment used while building the automaton.
 */
module Schemes {
  import opened Wrappers

  /** A part-of-speech tag, identified by its name in the tagger's enumeration. */
  datatype POSTag = POSTag(name: string)

  /** An annotated input token: its text, tag, trailing-space flag and character offset. */
  datatype Token = Token(token: string, pos: POSTag, space: bool, start: int)
  {
    /** The offset just past the token's text. */
    function End(): int { start + |token| }
  }

  // ---------------------------------------------------------------------------
  // The atom regexes: POS_TAGS_PATTERN is `<[A-Z]+?>` and WORD_PATTERN is a
  // double quote, a non-greedy run of at least one character out of letters,
  // digits, ASCII punctuation and space, and a closing double quote.
  // ---------------------------------------------------------------------------

  predicate IsUpper(c: char) { 'A' <= c <= 'Z' }

  /** Letters, digits, ASCII punctuation and space: together, the printable ASCII range. */
  predicate IsWordChar(c: char) { ' ' <= c <= '~' }

  /** `s[i..k]` is a POS_TAGS_PATTERN match: `<`, one or more upper-case letters, `>`. */
  ghost predicate TagShape(s: string, i: nat, k: nat)
  {
    i + 3 <= k <= |s| && s[i] == '<' && s[k - 1] == '>' &&
    forall j :: i < j < k - 1 ==> IsUpper(s[j])
  }

  /** `s[i..k]` is a WORD_PATTERN match: a quote, one or more word characters, a quote. */
  ghost predicate WordShape(s: string, i: nat, k: nat)
  {
    i + 3 <= k <= |s| && s[i] == '"' && s[k - 1] == '"' &&
    forall j :: i < j < k - 1 ==> IsWordChar(s[j])
  }

  /** The end of the run of upper-case letters that starts at `i`. */
  function UpperRunEnd(s: string, i: nat): (k: nat)
    requires i <= |s|
    ensures i <= k <= |s|
    ensures forall j :: i <= j < k ==> IsUpper(s[j])
    ensures k < |s| ==> !IsUpper(s[k])
    decreases |s| - i
  {
    if i == |s| || !IsUpper(s[i]) then i else UpperRunEnd(s, i + 1)
  }

  /** The first index at or after `i` holding a quote or a character outside the word class. */
  function QuoteEnd(s: string, i: nat): (k: nat)
    requires i <= |s|
    ensures i <= k <= |s|
    ensures forall j :: i <= j < k ==> IsWordChar(s[j]) && s[j] != '"'
    ensures k < |s| ==> s[k] == '"' || !IsWordChar(s[k])
    decreases |s| - i
  {
    if i == |s| || s[i] == '"' || !IsWordChar(s[i]) then i else QuoteEnd(s, i + 1)
  }

  /** The end of the POS_TAGS_PATTERN match anchored at `i`, if there is one. */
  function TagMatch(s: string, i: nat): (r: Option<nat>)
    requires i <= |s|
    ensures r.Some? ==> TagShape(s, i, r.value)
    ensures r.None? ==> forall k :: !TagShape(s, i, k)
  {
    if i < |s| && s[i] == '<' then
      var k := UpperRunEnd(s, i + 1);
      if k > i + 1 && k < |s| && s[k] == '>' then Some(k + 1)
      else
        assert forall k' :: !TagShape(s, i, k') by {
          forall k': nat ensures !TagShape(s, i, k') {
            if i + 3 <= k' <= |s| && k' - 1 < k { assert IsUpper(s[k' - 1]); }
            else if i + 3 <= k' <= |s| && k < k' - 1 { assert IsUpper(s[k]) || !TagShape(s, i, k'); }
          }
        }
        None
    else None
  }

  /**
   * The end of the WORD_PATTERN match anchored at `i`, if there is one. The
   * quantifier is non-greedy, so the match closes at the nearest quote that
   * follows at least one word character: the shortest match.
   */
  function WordMatch(s: string, i: nat): (r: Option<nat>)
    requires i <= |s|
    ensures r.Some? ==> WordShape(s, i, r.value)
    ensures r.Some? ==> forall k :: WordShape(s, i, k) ==> r.value <= k
    ensures r.None? ==> forall k :: !WordShape(s, i, k)
  {
    if i + 1 < |s| && s[i] == '"' && IsWordChar(s[i + 1]) then
      var k := QuoteEnd(s, i + 2);
      if k < |s| && s[k] == '"' then
        assert forall k' :: WordShape(s, i, k') ==> k + 1 <= k' by {
          forall k': nat ensures WordShape(s, i, k') ==> k + 1 <= k' {
            if i + 3 <= k' <= |s| && k' < k + 1 { assert s[k' - 1] != '"'; }
          }
        }
        Some(k + 1)
      else
        assert forall k' :: !WordShape(s, i, k') by {
          forall k': nat ensures !WordShape(s, i, k') {
            if i + 3 <= k' <= |s| && k' - 1 < k { assert s[k' - 1] != '"'; }
            else if i + 3 <= k' <= |s| && k < k' - 1 { assert IsWordChar(s[k]) || !WordShape(s, i, k'); }
          }
        }
        None
    else None
  }

  // ---------------------------------------------------------------------------
  // PatternToken: the predicate one automaton transition tests.
  // ---------------------------------------------------------------------------

  /** The three TokenTypes, each with the value PatternToken keeps in `token`. */
  datatype PatternToken =
    | PosTagToken(tag: POSTag)       // pos_tag: the tag named between the angle brackets
    | RegexToken(pattern: string)    // regex: the text between the quotes
    | UnknownToken(text: string)     // unknown: any other token text, such as `.`

  /**
   * PatternToken's constructor: classify a pattern token's text. A POS-tag
   * match at the start wins over a word match; anything else is `unknown`.
   */
  function NewPatternToken(token: string): (p: PatternToken)
    ensures p.PosTagToken? <==> TagMatch(token, 0).Some?
    ensures p.RegexToken? <==> TagMatch(token, 0).None? && WordMatch(token, 0).Some?
    ensures p.PosTagToken? ==> p.tag.name == token[1..|token| - 1]
    ensures p.RegexToken? ==> p.pattern == token[1..|token| - 1]
    ensures p.UnknownToken? ==> p.text == token
  {
    if TagMatch(token, 0).Some? then PosTagToken(POSTag(token[1..|token| - 1]))
    else if WordMatch(token, 0).Some? then RegexToken(token[1..|token| - 1])
    else UnknownToken(token)
  }

  /**
   * The compiled word regex, matched at the start of the token's text. The
   * model reads the quoted text literally: it matches when it is a prefix of
   * the token, which need not be consumed whole.
   */
  predicate RegexMatchesAtStart(pattern: string, text: string)
  {
    |pattern| <= |text| && text[..|pattern|] == pattern
  }

  /** Whether a transition guarded by `p` may consume the input token `t`. */
  predicate IsCorrectToken(p: PatternToken, t: Token)
  {
    match p
    case UnknownToken(_) => true
    case PosTagToken(tag) => tag == t.pos
    case RegexToken(pattern) => RegexMatchesAtStart(pattern, t.token)
  }

  /**
   * What a pattern token accepts, read from its text: a POS-tag atom
   * `<NN>` accepts exactly the tokens tagged NN, a word atom `"w"` the
   * tokens whose text starts with w, and any other token every input token.
   */
  lemma {:induction false} PatternTokenAccepts(text: string, t: Token)
    ensures TagMatch(text, 0).Some? ==>
      (IsCorrectToken(NewPatternToken(text), t) <==> t.pos.name == text[1..|text| - 1])
    ensures TagMatch(text, 0).None? && WordMatch(text, 0).Some? ==>
      (IsCorrectToken(NewPatternToken(text), t) <==> text[1..|text| - 1] <= t.token)
    ensures TagMatch(text, 0).None? && WordMatch(text, 0).None? ==> IsCorrectToken(NewPatternToken(text), t)
  {
  }

  // ---------------------------------------------------------------------------
  // Automaton states. States live in an arena (a sequence) and refer to one
  // another by index; a State object of the source is one arena slot.
  // ---------------------------------------------------------------------------

  /** One entry of a state's `transitions` dictionary: predicate and successor. */
  datatype Transition = Transition(pred: PatternToken, target: nat)

  datatype State = State(epsilon: seq<nat>, transitions: seq<Transition>, isEnd: bool)

  /** `State(epsilon, transitions)`: a fresh state is never accepting. */
  function NewState(epsilon: seq<nat>, transitions: seq<Transition>): (s: State)
    ensures !s.isEnd && s.epsilon == epsilon && s.transitions == transitions
  {
    State(epsilon, transitions, false)
  }

  /** StartEndPair: the entry and the accepting exit of an automaton fragment. */
  datatype Fragment = StartEndPair(start: nat, end: nat)
}
