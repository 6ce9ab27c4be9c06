/**
 * What a compiled pattern matches: the automaton PatternMatcher builds
 * accepts exactly the token sequences in the language of the regular
 * expression its postfix list denotes, and findall's match length at an
 * offset is the longest non-empty run of tokens there in that language.
 */
module PatternLanguage {
  import opened Wrappers
  import opened Schemes
  import opened PatternLexer
  import opened Postfix
  import opened RecursiveDescentParser
  import opened NfaBuilder
  import opened PatternMatcher
  import opened NfaLanguage
  import opened BuildLanguage
  import opened NfaSimulation

  /** The expression fold and the stack discipline agree: it fails exactly on underflow, and otherwise has as many expressions as Run counts. */
  lemma {:induction false} RegexesHeight(ts: seq<Lexeme>)
    ensures Regexes(ts).Some? <==> Run(ts, 0).Some?
    ensures Regexes(ts).Some? ==> |Regexes(ts).value| == Run(ts, 0).value
    decreases |ts|
  {
    if ts != [] {
      var init, last := ts[..|ts| - 1], ts[|ts| - 1];
      assert ts == init + [last];
      RegexesHeight(init);
      RunAppend(init, [last], 0);
    }
  }

  /** The regular expression a pattern denotes: lexed, parsed to postfix, and folded; None when PatternMatcher rejects it. */
  function PatternRegex(pattern: string): Option<Regex>
  {
    var found := PatternLexer.FindAll(pattern, 0);
    if found == [] then None
    else
      match ParsePattern(InsertConcat(found))
      case Failure(_) => None
      case Success(postfix) =>
        match Regexes(postfix)
        case None => None
        case Some(rs) => if |rs| == 1 then Some(rs[0]) else None
  }

  /**
   * build_nfa's automaton, run as extract_best_match runs it, accepts
   * exactly the words of the expression the postfix list denotes.
   */
  lemma {:induction false} BuildAccepts(ts: seq<Lexeme>)
    requires BuildResult(ts).Success?
    ensures Regexes(ts).Some? && |Regexes(ts).value| == 1
    ensures var nfa := BuildResult(ts).value;
      forall w :: Accepts(nfa.states, nfa.start, w) <==> InL(Regexes(ts).value[0], w)
  {
    BuildPrefixLang(ts);
    BuildResultWellBuilt(ts);
    var b := BuildPrefix(ts).value;
    var nfa := BuildResult(ts).value;
    var r := Regexes(ts).value[0];
    var e := b.stack[0].end;
    assert FragLang(nfa.states, 0, |nfa.states|, StartEndPair(nfa.start, e), r);
    WellBuiltValid(nfa, e);
    forall w
      ensures Accepts(nfa.states, nfa.start, w) <==> InL(r, w)
    {
      AcceptsIsWalk(nfa.states, nfa.start, w);
      assert Lang(nfa.states, 0, |nfa.states|, nfa.start, e, w) <==> InL(r, w);
    }
  }

  /**
   * PatternMatcher(pattern) succeeds exactly when the pattern denotes an
   * expression, and its automaton accepts exactly that expression's words.
   */
  lemma {:induction false} CompiledAccepts(pattern: string)
    ensures CompileResult(pattern).Success? <==> PatternRegex(pattern).Some?
    ensures CompileResult(pattern).Success? ==> var nfa := CompileResult(pattern).value;
      forall w :: Accepts(nfa.states, nfa.start, w) <==> InL(PatternRegex(pattern).value, w)
  {
    var found := PatternLexer.FindAll(pattern, 0);
    if found != [] && ParsePattern(InsertConcat(found)).Success? {
      var postfix := ParsePattern(InsertConcat(found)).value;
      BuildResultErrors(postfix);
      RegexesHeight(postfix);
      if BuildResult(postfix).Success? {
        BuildAccepts(postfix);
      }
    }
  }

  /**
   * extract_best_match on a compiled pattern returns the length of the
   * longest non-empty prefix of the tokens in the pattern's language, and 0
   * when there is none.
   */
  lemma {:induction false} LongestInLanguage(pattern: string, words: seq<Token>, n: nat)
    requires CompileResult(pattern).Success? && n <= |words|
    ensures PatternRegex(pattern).Some?
    ensures var nfa := CompileResult(pattern).value; var r := PatternRegex(pattern).value;
      var k := Longest(nfa.states, nfa.start, words, n);
      (k == 0 || InL(r, words[..k])) &&
      (forall j :: k < j <= n ==> !InL(r, words[..j])) &&
      (k == 0 <==> forall j :: 1 <= j <= n ==> !InL(r, words[..j]))
  {
    var nfa := CompileResult(pattern).value;
    CompiledAccepts(pattern);
    LongestIsLargest(nfa.states, nfa.start, words, n);
  }

  /**
   * `k` is the length of the longest non-empty run of `words` from offset
   * `s` in the language of `r`, and 0 exactly when there is none.
   */
  ghost predicate LongestRun(r: Regex, words: seq<Token>, s: nat, k: nat)
  {
    s + k <= |words| &&
    (k == 0 || InL(r, words[s..s + k])) &&
    (forall j :: s + k < j <= |words| ==> !InL(r, words[s..j])) &&
    (k == 0 <==> forall j :: s < j <= |words| ==> !InL(r, words[s..j]))
  }

  /**
   * findall on a compiled pattern: the span at an offset has the length of
   * the longest non-empty run of tokens from that offset in the pattern's
   * language, and a start offset gets a span exactly when such a run exists.
   */
  lemma {:induction false} MatchAtInLanguage(pattern: string, words: seq<Token>, s: nat)
    requires CompileResult(pattern).Success? && s <= |words|
    ensures PatternRegex(pattern).Some?
    ensures LongestRun(PatternRegex(pattern).value, words, s, PatternMatcher.MatchAt(CompileResult(pattern).value, words, s))
  {
    CompiledAccepts(pattern);
    MatchAtOf(CompileResult(pattern).value, PatternRegex(pattern).value, words, s);
  }

  /** MatchAtIsLongest, read through an expression whose words are the ones the automaton accepts. */
  lemma {:induction false} MatchAtOf(nfa: Nfa, r: Regex, words: seq<Token>, s: nat)
    requires s <= |words|
    requires forall w :: Accepts(nfa.states, nfa.start, w) <==> InL(r, w)
    ensures LongestRun(r, words, s, PatternMatcher.MatchAt(nfa, words, s))
  {
    var k := PatternMatcher.MatchAt(nfa, words, s);
    MatchAtIsLongest(nfa, words, s);
    forall j | s + k < j <= |words|
      ensures !InL(r, words[s..j])
    {
      assert !Accepts(nfa.states, nfa.start, words[s..j]);
    }
    if k == 0 {
      forall j | s < j <= |words|
        ensures !InL(r, words[s..j])
      {
        assert !Accepts(nfa.states, nfa.start, words[s..j]);
      }
    } else {
      assert Accepts(nfa.states, nfa.start, words[s..s + k]);
    }
  }
}
