/**
 * build_nfa, token by token: every fragment on its stack accepts exactly
 * the language of the regular expression the same postfix tokens denote,
 * so the automaton it returns accepts the language of the whole pattern.
 */
module BuildLanguage {
  import opened Wrappers
  import opened Schemes
  import opened PatternLexer
  import opened Postfix
  import opened NfaBuilder
  import opened NfaLanguage

  /** The fragments on the stack tile the arena, and the k-th accepts the words of the k-th expression. */
  ghost predicate LangInv(b: Build, rs: seq<Regex>)
  {
    Inv(b) && |rs| == |b.stack| &&
    forall k :: 0 <= k < |b.stack| ==> FragLang(b.states, b.bounds[k], b.bounds[k + 1], b.stack[k], rs[k])
  }

  /** A fragment whose slots are unchanged keeps its language. */
  lemma {:induction false} FrameFragLang(g: seq<State>, g': seq<State>, lo: nat, hi: nat, f: Fragment, r: Regex)
    requires FragLang(g, lo, hi, f, r) && hi <= |g| && hi <= |g'|
    requires forall q :: lo <= q < hi ==> g'[q] == g[q]
    ensures FragLang(g', lo, hi, f, r)
  {
    forall w
      ensures Lang(g', lo, hi, f.start, f.end, w) <==> InL(r, w)
    {
      FrameLang(g, g', lo, hi, f.start, f.end, w);
    }
  }

  /**
   * A step that replaces the fragments from position `m` up by one fragment
   * with the language of `r`, and leaves the slots below `bounds[m]` alone,
   * keeps the languages of the fragments below.
   */
  lemma {:induction false} ReplaceTopLang(b: Build, rs: seq<Regex>, m: nat, b': Build, r: Regex)
    requires LangInv(b, rs) && m <= |b.stack| && Inv(b') && |b'.stack| == m + 1
    requires forall k :: 0 <= k < m ==> b'.stack[k] == b.stack[k]
    requires forall k :: 0 <= k <= m ==> b'.bounds[k] == b.bounds[k]
    requires forall q :: 0 <= q < b.bounds[m] ==> b'.states[q] == b.states[q]
    requires FragLang(b'.states, b'.bounds[m], b'.bounds[m + 1], b'.stack[m], r)
    ensures LangInv(b', rs[..m] + [r])
  {
    var rs' := rs[..m] + [r];
    forall k | 0 <= k < |b'.stack|
      ensures FragLang(b'.states, b'.bounds[k], b'.bounds[k + 1], b'.stack[k], rs'[k])
    {
      if k < m {
        assert b.bounds[k + 1] <= b.bounds[m] && b.bounds[k] <= b.bounds[k + 1];
        FrameFragLang(b.states, b'.states, b.bounds[k], b.bounds[k + 1], b.stack[k], rs[k]);
      }
    }
  }

  /** The top fragment of a well-formed stack, and the one below it, as FragmentOk sees them. */
  lemma {:induction false} TopFragments(b: Build, m: nat)
    requires Inv(b) && m < |b.stack|
    ensures FragmentOk(b.states, b.bounds[m], b.bounds[m + 1], b.stack[m])
    ensures b.bounds[m] <= b.bounds[m + 1] <= |b.states|
  {
    assert b.bounds[m + 1] <= b.bounds[|b.stack|];
  }

  lemma {:induction false} ConcatenateLang(b: Build, rs: seq<Regex>)
    requires LangInv(b, rs) && |b.stack| >= 2
    ensures LangInv(ConcatStep(b), RegexStep(rs, Op('&')))
  {
    var b' := ConcatStep(b);
    var m := |b.stack| - 2;
    var n1, n2 := b.stack[m], b.stack[m + 1];
    var l1, l2, c := b.bounds[m], b.bounds[m + 1], |b.states|;
    var st, st' := b.states, b'.states;
    TopFragments(b, m);
    TopFragments(b, m + 1);
    assert NoEdges(st[n1.end]);
    assert CatShape(st, st', l1, l2, n1, n2);
    CatLang(st, st', l1, l2, n1, n2, rs[m], rs[m + 1]);
    ConcatenateInv(b);
    ReplaceTopLang(b, rs, m, b', Cat(rs[m], rs[m + 1]));
  }

  lemma {:induction false} AlternateLang(b: Build, rs: seq<Regex>)
    requires LangInv(b, rs) && |b.stack| >= 2
    ensures LangInv(AltStep(b), RegexStep(rs, Op('|')))
  {
    var b' := AltStep(b);
    var m := |b.stack| - 2;
    var n1, n2 := b.stack[m], b.stack[m + 1];
    var l1, l2 := b.bounds[m], b.bounds[m + 1];
    var st, st' := b.states, b'.states;
    TopFragments(b, m);
    TopFragments(b, m + 1);
    AlternateStates(b);
    assert FragLang(st', l1, |st| + 2, StartEndPair(|st|, |st| + 1), Alt(rs[m], rs[m + 1])) by {
      assert AltShape(st, st', l1, l2, n1, n2);
      AltLang(st, st', l1, l2, n1, n2, rs[m], rs[m + 1]);
    }
    AlternateInv(b);
    ReplaceTopLang(b, rs, m, b', Alt(rs[m], rs[m + 1]));
  }

  lemma {:induction false} RepeatLangStep(b: Build, rs: seq<Regex>, tok: Lexeme)
    requires LangInv(b, rs) && |b.stack| >= 1 && (tok == Op('*') || tok == Op('+'))
    ensures LangInv(RepeatStep(b, tok == Op('*')), RegexStep(rs, tok))
  {
    var star := tok == Op('*');
    var b' := RepeatStep(b, star);
    var m := |b.stack| - 1;
    TopFragments(b, m);
    RepeatStates(b, star);
    RepeatInv(b, star);
    assert b'.stack == b.stack[..m] + [StartEndPair(|b.states|, |b.states| + 1)];
    assert b'.bounds == b.bounds[..m + 1] + [|b.states| + 2];
    RepeatCore(b, rs, b', star);
    assert RegexStep(rs, tok) == rs[..m] + [if star then Star(rs[m]) else Plus(rs[m])];
  }

  lemma {:induction false} RepeatCore(b: Build, rs: seq<Regex>, b': Build, star: bool)
    requires LangInv(b, rs) && |b.stack| >= 1 && Inv(b')
    requires RepeatShape(b.states, b'.states, b.bounds[|b.stack| - 1], b.stack[|b.stack| - 1], star)
    requires b'.stack == b.stack[..|b.stack| - 1] + [StartEndPair(|b.states|, |b.states| + 1)]
    requires b'.bounds == b.bounds[..|b.stack|] + [|b.states| + 2]
    ensures LangInv(b', rs[..|b.stack| - 1] + [if star then Star(rs[|b.stack| - 1]) else Plus(rs[|b.stack| - 1])])
  {
    var m := |b.stack| - 1;
    RepeatLang(b.states, b'.states, b.bounds[m], b.stack[m], rs[m], star);
    ReplaceTopLang(b, rs, m, b', if star then Star(rs[m]) else Plus(rs[m]));
  }

  lemma {:induction false} OptionalLang(b: Build, rs: seq<Regex>)
    requires LangInv(b, rs) && |b.stack| >= 1
    ensures LangInv(OptStep(b), RegexStep(rs, Op('?')))
  {
    var b' := OptStep(b);
    var m := |b.stack| - 1;
    var n, l := b.stack[m], b.bounds[m];
    var st, st' := b.states, b'.states;
    TopFragments(b, m);
    assert FragLang(st', l, |st|, n, Opt(rs[m])) by {
      assert OptShape(st, st', l, n);
      OptLang(st, st', l, n, rs[m]);
    }
    OptionalInv(b);
    ReplaceTopLang(b, rs, m, b', Opt(rs[m]));
  }

  lemma {:induction false} PushAtomLang(b: Build, rs: seq<Regex>, tok: Lexeme)
    requires LangInv(b, rs) && !IsBinary(tok) && !IsUnary(tok)
    ensures LangInv(AtomStep(b, tok), RegexStep(rs, tok))
  {
    var b' := AtomStep(b, tok);
    var m := |b.stack|;
    var p := NewPatternToken(Text(tok));
    AtomStates(b, tok);
    assert AtomShape(b.states, b'.states, p);
    AtomLang(b.states, b'.states, p);
    PushAtomInv(b, tok);
    assert rs[..m] == rs;
    ReplaceTopLang(b, rs, m, b', Atom(p));
  }

  /** Every step of build_nfa's loop keeps each fragment's language that of its expression. */
  lemma {:induction false} StepLang(b: Build, rs: seq<Regex>, tok: Lexeme)
    requires LangInv(b, rs) && Step(b, tok).Some?
    ensures |rs| >= Pops(tok) && LangInv(Step(b, tok).value, RegexStep(rs, tok))
  {
    if tok == Op('&') {
      ConcatenateLang(b, rs);
    } else if tok == Op('|') {
      AlternateLang(b, rs);
    } else if tok == Op('*') || tok == Op('+') {
      RepeatLangStep(b, rs, tok);
    } else if tok == Op('?') {
      OptionalLang(b, rs);
    } else {
      PushAtomLang(b, rs, tok);
    }
  }

  /** Along any postfix prefix that build_nfa gets through, the stack of fragments and the stack of expressions agree. */
  lemma {:induction false} BuildPrefixLang(ts: seq<Lexeme>)
    ensures BuildPrefix(ts).Some? ==> Regexes(ts).Some? && LangInv(BuildPrefix(ts).value, Regexes(ts).value)
    decreases |ts|
  {
    if ts == [] {
      assert LangInv(Build([], [], [0]), []);
    } else {
      var init, tok := ts[..|ts| - 1], ts[|ts| - 1];
      BuildPrefixLang(init);
      if BuildPrefix(init).Some? && Step(BuildPrefix(init).value, tok).Some? {
        StepLang(BuildPrefix(init).value, Regexes(init).value, tok);
      }
    }
  }
}
