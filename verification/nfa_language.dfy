/**
 * What the automaton build_nfa returns accepts: exactly the token lists of
 * the regular expression its postfix input denotes.
 *
 * A postfix list is read as a regular expression over tokens: an atom
 * matches one token its PatternToken accepts, `&` concatenates, `|` is
 * alternation, `*`, `+` and `?` are the usual repetitions. The automaton's
 * language is the set of token lists along walks from its start to its
 * accepting state; the simulation of extract_best_match computes exactly
 * the states those walks reach.
 */
module NfaLanguage {
  import opened Wrappers
  import opened Schemes
  import opened PatternLexer
  import opened Postfix
  import opened NfaBuilder
  import opened PatternMatcher

  // ---------------------------------------------------------------------------
  // Regular expressions over tokens.
  // ---------------------------------------------------------------------------

  datatype Regex =
    | Atom(pred: PatternToken)
    | Cat(left: Regex, right: Regex)
    | Alt(left: Regex, right: Regex)
    | Star(body: Regex)
    | Plus(body: Regex)
    | Opt(body: Regex)

  /** A measure under which `Plus(r)` is larger than `Star(r)`. */
  function Size(r: Regex): nat
  {
    match r
    case Atom(_) => 1
    case Cat(a, b) => Size(a) + Size(b) + 1
    case Alt(a, b) => Size(a) + Size(b) + 1
    case Star(a) => Size(a) + 1
    case Plus(a) => Size(a) + 2
    case Opt(a) => Size(a) + 1
  }

  /** `w` is in the language of `r`. */
  ghost predicate InL(r: Regex, w: seq<Token>)
    decreases Size(r), |w|
  {
    match r
    case Atom(p) => |w| == 1 && IsCorrectToken(p, w[0])
    case Cat(a, b) => exists i :: 0 <= i <= |w| && InL(a, w[..i]) && InL(b, w[i..])
    case Alt(a, b) => InL(a, w) || InL(b, w)
    case Star(a) => w == [] || exists i :: 0 < i <= |w| && InL(a, w[..i]) && InL(Star(a), w[i..])
    case Plus(a) => exists i :: 0 <= i <= |w| && InL(a, w[..i]) && InL(Star(a), w[i..])
    case Opt(a) => w == [] || InL(a, w)
  }

  /** A word of `r` followed by a word of `r*` is a word of `r*`. */
  lemma {:induction false} StarCons(r: Regex, u: seq<Token>, v: seq<Token>)
    requires InL(r, u) && InL(Star(r), v)
    ensures InL(Star(r), u + v)
  {
    if u != [] {
      assert (u + v)[..|u|] == u && (u + v)[|u|..] == v;
    } else {
      assert u + v == v;
    }
  }

  /** `r+` is contained in `r*`. */
  lemma {:induction false} PlusInStar(r: Regex, w: seq<Token>)
    requires InL(Plus(r), w)
    ensures InL(Star(r), w)
  {
    var i :| 0 <= i <= |w| && InL(r, w[..i]) && InL(Star(r), w[i..]);
    StarCons(r, w[..i], w[i..]);
    assert w[..i] + w[i..] == w;
  }

  /** A non-empty word of `r*` is a word of `r+`. */
  lemma {:induction false} StarInPlus(r: Regex, w: seq<Token>)
    requires InL(Star(r), w) && w != []
    ensures InL(Plus(r), w)
  {
    var i :| 0 < i <= |w| && InL(r, w[..i]) && InL(Star(r), w[i..]);
  }

  // ---------------------------------------------------------------------------
  // The postfix list read as a regular expression.
  // ---------------------------------------------------------------------------

  /** One postfix token applied to a stack of expressions, as build_nfa applies it to fragments. */
  function RegexStep(rs: seq<Regex>, tok: Lexeme): (r: seq<Regex>)
    requires |rs| >= Pops(tok)
    ensures |r| == |rs| - Pops(tok) + 1
  {
    if tok == Op('&') then rs[..|rs| - 2] + [Cat(rs[|rs| - 2], rs[|rs| - 1])]
    else if tok == Op('|') then rs[..|rs| - 2] + [Alt(rs[|rs| - 2], rs[|rs| - 1])]
    else if tok == Op('*') then rs[..|rs| - 1] + [Star(rs[|rs| - 1])]
    else if tok == Op('+') then rs[..|rs| - 1] + [Plus(rs[|rs| - 1])]
    else if tok == Op('?') then rs[..|rs| - 1] + [Opt(rs[|rs| - 1])]
    else rs + [Atom(NewPatternToken(Text(tok)))]
  }

  /** The expression stack after the postfix tokens `ts`, or None once a pop fails. */
  function Regexes(ts: seq<Lexeme>): Option<seq<Regex>>
  {
    if ts == [] then Some([])
    else
      match Regexes(ts[..|ts| - 1])
      case None => None
      case Some(rs) => if |rs| < Pops(ts[|ts| - 1]) then None else Some(RegexStep(rs, ts[|ts| - 1]))
  }

  // ---------------------------------------------------------------------------
  // Walks through an arena.
  // ---------------------------------------------------------------------------

  /** An edge of a walk: an epsilon edge, or a transition that consumes a token. */
  datatype Edge = Eps(from: nat, to: nat) | Sym(from: nat, to: nat, token: Token)

  /** `e` is an edge of `g` between two slots in `lo..hi`. */
  ghost predicate IsEdge(g: seq<State>, lo: nat, hi: nat, e: Edge)
  {
    lo <= e.from < hi && lo <= e.to < hi && e.from < |g| &&
    match e
    case Eps(p, q) => q in g[p].epsilon
    case Sym(p, q, t) =>
      exists j :: 0 <= j < |g[p].transitions| && g[p].transitions[j].target == q && IsCorrectToken(g[p].transitions[j].pred, t)
  }

  /** `es` leads from `p` to `q` through the slots `lo..hi`. */
  ghost predicate Walk(g: seq<State>, lo: nat, hi: nat, p: nat, es: seq<Edge>, q: nat)
    decreases |es|
  {
    if es == [] then p == q && lo <= p < hi
    else es[0].from == p && IsEdge(g, lo, hi, es[0]) && Walk(g, lo, hi, es[0].to, es[1..], q)
  }

  /** The tokens a walk consumes. */
  function Word(es: seq<Edge>): seq<Token>
  {
    if es == [] then [] else (if es[0].Sym? then [es[0].token] else []) + Word(es[1..])
  }

  /** Some walk from `s` to `e` through `lo..hi` consumes `w`. */
  ghost predicate Lang(g: seq<State>, lo: nat, hi: nat, s: nat, e: nat, w: seq<Token>)
  {
    exists es :: Walk(g, lo, hi, s, es, e) && Word(es) == w
  }

  lemma {:induction false} WordAppend(a: seq<Edge>, b: seq<Edge>)
    ensures Word(a + b) == Word(a) + Word(b)
    decreases |a|
  {
    if a != [] {
      assert (a + b)[1..] == a[1..] + b;
      WordAppend(a[1..], b);
    } else {
      assert a + b == b;
    }
  }

  lemma {:induction false} WalkAppend(g: seq<State>, lo: nat, hi: nat, p: nat, a: seq<Edge>, m: nat, b: seq<Edge>, q: nat)
    requires Walk(g, lo, hi, p, a, m) && Walk(g, lo, hi, m, b, q)
    ensures Walk(g, lo, hi, p, a + b, q)
    decreases |a|
  {
    if a != [] {
      assert (a + b)[1..] == a[1..] + b;
      WalkAppend(g, lo, hi, a[0].to, a[1..], m, b, q);
    } else {
      assert a + b == b;
    }
  }

  /** A walk from a slot without edges goes nowhere. */
  lemma {:induction false} WalkFromDeadEnd(g: seq<State>, lo: nat, hi: nat, p: nat, es: seq<Edge>, q: nat)
    requires Walk(g, lo, hi, p, es, q) && p < |g| && NoEdges(g[p])
    ensures es == [] && p == q
  {
  }

  predicate SameEdges(a: State, b: State)
  {
    a.epsilon == b.epsilon && a.transitions == b.transitions
  }

  /** On the slots `lo..hi`, `g'` keeps every edge of `g`. */
  ghost predicate GrowsOn(g: seq<State>, g': seq<State>, lo: nat, hi: nat)
  {
    hi <= |g| && hi <= |g'| &&
    forall r :: lo <= r < hi ==>
      g'[r].transitions == g[r].transitions && forall t :: t in g[r].epsilon ==> t in g'[r].epsilon
  }

  /** A walk survives added edges and a wider range. */
  lemma {:induction false} Widen(g: seq<State>, g': seq<State>, lo: nat, hi: nat, lo': nat, hi': nat, p: nat, es: seq<Edge>, q: nat)
    requires Walk(g, lo, hi, p, es, q) && GrowsOn(g, g', lo, hi) && lo' <= lo && hi <= hi'
    ensures Walk(g', lo', hi', p, es, q)
    decreases |es|
  {
    if es != [] {
      var e := es[0];
      if e.Sym? {
        var j :| 0 <= j < |g[e.from].transitions| && g[e.from].transitions[j].target == e.to && IsCorrectToken(g[e.from].transitions[j].pred, e.token);
        assert g'[e.from].transitions[j] == g[e.from].transitions[j];
      }
      Widen(g, g', lo, hi, lo', hi', e.to, es[1..], q);
    }
  }

  /** The walks of a fragment whose slots are unchanged are unchanged. */
  lemma {:induction false} FrameLang(g: seq<State>, g': seq<State>, lo: nat, hi: nat, s: nat, e: nat, w: seq<Token>)
    requires hi <= |g| && hi <= |g'| && forall r :: lo <= r < hi ==> g'[r] == g[r]
    ensures Lang(g, lo, hi, s, e, w) <==> Lang(g', lo, hi, s, e, w)
  {
    if Lang(g, lo, hi, s, e, w) {
      var es: seq<Edge> :| Walk(g, lo, hi, s, es, e) && Word(es) == w;
      Widen(g, g', lo, hi, lo, hi, s, es, e);
    }
    if Lang(g', lo, hi, s, e, w) {
      var es: seq<Edge> :| Walk(g', lo, hi, s, es, e) && Word(es) == w;
      Widen(g', g, lo, hi, lo, hi, s, es, e);
    }
  }

  /** Every edge out of `s` leads to one of the slots `lo..hi`. */
  ghost predicate LeadsWithin(s: State, lo: nat, hi: nat)
  {
    (forall t :: t in s.epsilon ==> lo <= t < hi) &&
    (forall j :: 0 <= j < |s.transitions| ==> lo <= s.transitions[j].target < hi)
  }

  /** No edge out of `s` leads to `x`. */
  ghost predicate Avoids(s: State, x: nat)
  {
    x !in s.epsilon && forall j :: 0 <= j < |s.transitions| ==> s.transitions[j].target != x
  }

  /** The slots of a well-formed fragment are closed, and none of them leads back to its start. */
  lemma {:induction false} FragmentClosed(st: seq<State>, lo: nat, hi: nat, f: Fragment)
    requires FragmentOk(st, lo, hi, f)
    ensures forall q :: lo <= q < hi ==> LeadsWithin(st[q], lo, hi) && Avoids(st[q], f.start)
  {
    forall q | lo <= q < hi
      ensures LeadsWithin(st[q], lo, hi) && Avoids(st[q], f.start)
    {
      forall t | t in st[q].epsilon
        ensures lo <= t < hi && t != f.start
      {
        assert t in Targets(st[q]);
      }
      forall j | 0 <= j < |st[q].transitions|
        ensures lo <= st[q].transitions[j].target < hi && st[q].transitions[j].target != f.start
      {
        assert st[q].transitions[j].target in Targets(st[q]);
      }
    }
  }

  /** Every edge out of the slots `lo..hi` of `g` except the slot `x` stays among them, and `g'` has the same edges there. */
  ghost predicate KeptInside(g: seq<State>, g': seq<State>, lo: nat, hi: nat, x: int)
  {
    hi <= |g| && hi <= |g'| &&
    forall r :: lo <= r < hi && r != x ==> SameEdges(g[r], g'[r]) && LeadsWithin(g[r], lo, hi)
  }

  /**
   * A walk in `g'` that starts among the slots `lo..hi` and ends outside
   * them leaves through `x`: up to its first visit to `x` it is a walk of
   * `g` inside the slots.
   */
  lemma {:induction false} ExitSplit(g: seq<State>, g': seq<State>, lo: nat, hi: nat, lo': nat, hi': nat, x: nat, p: nat, es: seq<Edge>, q: nat)
    returns (i: nat)
    requires Walk(g', lo', hi', p, es, q) && lo <= p < hi && lo <= x < hi && !(lo <= q < hi)
    requires KeptInside(g, g', lo, hi, x)
    ensures i < |es| && es[i].from == x && Walk(g, lo, hi, p, es[..i], x)
    ensures IsEdge(g', lo', hi', es[i]) && Walk(g', lo', hi', es[i].to, es[i + 1..], q)
    decreases |es|
  {
    if p == x {
      i := 0;
      assert es[..0] == [];
    } else {
      var e := es[0];
      assert lo <= e.to < hi by {
        if e.Sym? {
          var j :| 0 <= j < |g'[p].transitions| && g'[p].transitions[j].target == e.to && IsCorrectToken(g'[p].transitions[j].pred, e.token);
        }
      }
      var i' := ExitSplit(g, g', lo, hi, lo', hi', x, e.to, es[1..], q);
      i := i' + 1;
      assert es[..i][1..] == es[1..][..i'];
      assert es[i + 1..] == es[1..][i' + 1..];
    }
  }

  /** A walk in `g'` that starts among the slots `lo..hi` and never meets `x` is a walk of `g` inside them. */
  lemma {:induction false} StayInside(g: seq<State>, g': seq<State>, lo: nat, hi: nat, lo': nat, hi': nat, p: nat, es: seq<Edge>, q: nat)
    requires Walk(g', lo', hi', p, es, q) && lo <= p < hi
    requires KeptInside(g, g', lo, hi, -1)
    ensures Walk(g, lo, hi, p, es, q)
    decreases |es|
  {
    if es != [] {
      var e := es[0];
      assert lo <= e.to < hi by {
        if e.Sym? {
          var j :| 0 <= j < |g'[p].transitions| && g'[p].transitions[j].target == e.to && IsCorrectToken(g'[p].transitions[j].pred, e.token);
        }
      }
      StayInside(g, g', lo, hi, lo', hi', e.to, es[1..], q);
    }
  }

  /** An edge followed by a walk from its target. */
  lemma {:induction false} Prepend(g: seq<State>, lo: nat, hi: nat, e: Edge, rest: seq<Edge>, q: nat)
    requires IsEdge(g, lo, hi, e) && Walk(g, lo, hi, e.to, rest, q)
    ensures Walk(g, lo, hi, e.from, [e] + rest, q)
    ensures Word([e] + rest) == (if e.Sym? then [e.token] else []) + Word(rest)
  {
    assert ([e] + rest)[1..] == rest;
  }

  // ---------------------------------------------------------------------------
  // The language of each fragment on the builder's stack.
  // ---------------------------------------------------------------------------

  /** The walks through fragment `f`, inside its slots `lo..hi`, consume exactly the words of `r`. */
  ghost predicate FragLang(g: seq<State>, lo: nat, hi: nat, f: Fragment, r: Regex)
  {
    forall w :: Lang(g, lo, hi, f.start, f.end, w) <==> InL(r, w)
  }

  /** Every walk across fragment `f` consumes a word of `r`. */
  ghost predicate Within(g: seq<State>, lo: nat, hi: nat, f: Fragment, r: Regex)
  {
    forall w :: Lang(g, lo, hi, f.start, f.end, w) ==> InL(r, w)
  }

  lemma {:induction false} WithinOf(g: seq<State>, lo: nat, hi: nat, f: Fragment, r: Regex)
    requires FragLang(g, lo, hi, f, r)
    ensures Within(g, lo, hi, f, r)
  {
  }

  /**
   * A walk that enters fragment `n` at its start and ends outside its slots
   * first crosses the fragment, consuming a word of `r`, and then leaves by
   * an epsilon edge of its end.
   */
  lemma {:induction false} Through(st: seq<State>, st': seq<State>, lo: nat, hi: nat, lo': nat, hi': nat, n: Fragment, r: Regex, es: seq<Edge>, q: nat)
    returns (i: nat)
    requires Within(st, lo, hi, n, r) && lo <= n.start < hi && lo <= n.end < hi
    requires KeptInside(st, st', lo, hi, n.end) && st'[n.end].transitions == []
    requires Walk(st', lo', hi', n.start, es, q) && !(lo <= q < hi)
    ensures i < |es| && es[i].Eps? && es[i].from == n.end && es[i].to in st'[n.end].epsilon
    ensures InL(r, Word(es[..i])) && Walk(st', lo', hi', es[i].to, es[i + 1..], q)
    ensures Word(es) == Word(es[..i]) + Word(es[i + 1..])
  {
    i := ExitSplit(st, st', lo, hi, lo', hi', n.end, n.start, es, q);
    assert Lang(st, lo, hi, n.start, n.end, Word(es[..i]));
    SplitWord(es, i);
  }

  /** Cutting a walk at an epsilon edge splits its word. */
  lemma {:induction false} SplitWord(es: seq<Edge>, i: nat)
    requires i < |es| && es[i].Eps?
    ensures Word(es) == Word(es[..i]) + Word(es[i + 1..])
  {
    assert es == es[..i] + ([es[i]] + es[i + 1..]);
    WordAppend(es[..i], [es[i]] + es[i + 1..]);
    WordAppend([es[i]], es[i + 1..]);
    assert Word([es[i]]) == [];
  }

  /** A word of `r` is consumed by a walk across fragment `n` in any arena that keeps its edges. */
  lemma {:induction false} Into(st: seq<State>, st': seq<State>, lo: nat, hi: nat, lo': nat, hi': nat, n: Fragment, r: Regex, u: seq<Token>)
    returns (a: seq<Edge>)
    requires FragLang(st, lo, hi, n, r) && InL(r, u) && GrowsOn(st, st', lo, hi) && lo' <= lo && hi <= hi'
    ensures Walk(st', lo', hi', n.start, a, n.end) && Word(a) == u
  {
    assert Lang(st, lo, hi, n.start, n.end, u);
    a :| Walk(st, lo, hi, n.start, a, n.end) && Word(a) == u;
    Widen(st, st', lo, hi, lo', hi', n.start, a, n.end);
  }

  /** The arena after pushing an atom: a new end without edges and a new start with one guarded transition to it. */
  ghost predicate AtomShape(st: seq<State>, st': seq<State>, p: PatternToken)
  {
    |st'| == |st| + 2 && st'[|st|] == State([], [], true) && st'[|st| + 1] == State([], [Transition(p, |st|)], false)
  }

  /** An atom: one transition, guarded by the atom's PatternToken, from the new start to the new end. */
  lemma {:induction false} AtomLang(st: seq<State>, st': seq<State>, p: PatternToken)
    requires AtomShape(st, st', p)
    ensures FragLang(st', |st|, |st| + 2, StartEndPair(|st| + 1, |st|), Atom(p))
  {
    var c := |st|;
    forall w
      ensures Lang(st', c, c + 2, c + 1, c, w) <==> InL(Atom(p), w)
    {
      if Lang(st', c, c + 2, c + 1, c, w) {
        var es: seq<Edge> :| Walk(st', c, c + 2, c + 1, es, c) && Word(es) == w;
        AtomSound(st, st', p, es);
      }
      if InL(Atom(p), w) {
        AtomComplete(st, st', p, w);
      }
    }
  }

  lemma {:induction false} AtomSound(st: seq<State>, st': seq<State>, p: PatternToken, es: seq<Edge>)
    requires AtomShape(st, st', p) && Walk(st', |st|, |st| + 2, |st| + 1, es, |st|)
    ensures InL(Atom(p), Word(es))
  {
    var c := |st|;
    var e := es[0];
    assert e.Sym?;
    var j :| 0 <= j < |st'[c + 1].transitions| && st'[c + 1].transitions[j].target == e.to && IsCorrectToken(st'[c + 1].transitions[j].pred, e.token);
    WalkFromDeadEnd(st', c, c + 2, c, es[1..], c);
    assert es == [e] + [];
    assert Word(es) == [e.token] + Word([]);
  }

  lemma {:induction false} AtomComplete(st: seq<State>, st': seq<State>, p: PatternToken, w: seq<Token>)
    requires AtomShape(st, st', p) && InL(Atom(p), w)
    ensures Lang(st', |st|, |st| + 2, |st| + 1, |st|, w)
  {
    var c := |st|;
    var e := Sym(c + 1, c, w[0]);
    assert st'[c + 1].transitions[0] == Transition(p, c);
    assert IsEdge(st', c, c + 2, e);
    Prepend(st', c, c + 2, e, [], c);
    assert w == [w[0]] + Word([]);
  }

  /** `&`: the first fragment's end gets an epsilon edge to the second fragment's start, and nothing else changes edges. */
  ghost predicate CatShape(st: seq<State>, st': seq<State>, l1: nat, l2: nat, n1: Fragment, n2: Fragment)
  {
    FragmentOk(st, l1, l2, n1) && FragmentOk(st, l2, |st|, n2) && |st'| == |st| &&
    (forall q :: 0 <= q < |st| && q != n1.end ==> SameEdges(st'[q], st[q])) &&
    st'[n1.end].epsilon == [n2.start] && st'[n1.end].transitions == []
  }

  lemma {:induction false} CatLang(st: seq<State>, st': seq<State>, l1: nat, l2: nat, n1: Fragment, n2: Fragment, r1: Regex, r2: Regex)
    requires CatShape(st, st', l1, l2, n1, n2)
    requires FragLang(st, l1, l2, n1, r1) && FragLang(st, l2, |st|, n2, r2)
    ensures FragLang(st', l1, |st|, StartEndPair(n1.start, n2.end), Cat(r1, r2))
  {
    forall w
      ensures Lang(st', l1, |st|, n1.start, n2.end, w) <==> InL(Cat(r1, r2), w)
    {
      if Lang(st', l1, |st|, n1.start, n2.end, w) {
        var es: seq<Edge> :| Walk(st', l1, |st|, n1.start, es, n2.end) && Word(es) == w;
        FragmentClosed(st, l1, l2, n1);
        FragmentClosed(st, l2, |st|, n2);
        assert KeptInside(st, st', l1, l2, n1.end) && KeptInside(st, st', l2, |st|, -1);
        CatSound(st, st', l1, l2, n1, n2, r1, r2, es);
      }
      if InL(Cat(r1, r2), w) {
        CatGrows(st, st', l1, l2, n1, n2);
        CatComplete(st, st', l1, l2, n1, n2, r1, r2, w);
      }
    }
  }

  lemma {:induction false} CatSound(st: seq<State>, st': seq<State>, l1: nat, l2: nat, n1: Fragment, n2: Fragment, r1: Regex, r2: Regex, es: seq<Edge>)
    requires l1 <= n1.start < l2 && l1 <= n1.end < l2 && l2 <= n2.start < |st| && l2 <= n2.end < |st| && |st'| == |st|
    requires KeptInside(st, st', l1, l2, n1.end) && KeptInside(st, st', l2, |st|, -1)
    requires st'[n1.end].epsilon == [n2.start] && st'[n1.end].transitions == []
    requires Within(st, l1, l2, n1, r1) && Within(st, l2, |st|, n2, r2)
    requires Walk(st', l1, |st|, n1.start, es, n2.end)
    ensures InL(Cat(r1, r2), Word(es))
  {
    var h := |st|;
    var i := Through(st, st', l1, l2, l1, h, n1, r1, es, n2.end);
    var rest := es[i + 1..];
    StayInside(st, st', l2, h, l1, h, n2.start, rest, n2.end);
    assert Lang(st, l2, h, n2.start, n2.end, Word(rest));
    CatOf(r1, r2, Word(es[..i]), Word(rest));
  }

  /** A word of `r1` followed by a word of `r2` is a word of `r1 r2`. */
  lemma {:induction false} CatOf(r1: Regex, r2: Regex, u: seq<Token>, v: seq<Token>)
    requires InL(r1, u) && InL(r2, v)
    ensures InL(Cat(r1, r2), u + v)
  {
    assert (u + v)[..|u|] == u && (u + v)[|u|..] == v;
  }

  lemma {:induction false} CatComplete(st: seq<State>, st': seq<State>, l1: nat, l2: nat, n1: Fragment, n2: Fragment, r1: Regex, r2: Regex, w: seq<Token>)
    requires GrowsOn(st, st', l1, |st|) && l1 <= l2 <= |st| && |st'| == |st|
    requires l1 <= n1.end < l2 && l2 <= n2.start < |st| && st'[n1.end].epsilon == [n2.start]
    requires FragLang(st, l1, l2, n1, r1) && FragLang(st, l2, |st|, n2, r2)
    requires InL(Cat(r1, r2), w)
    ensures Lang(st', l1, |st|, n1.start, n2.end, w)
  {
    var h := |st|;
    var i :| 0 <= i <= |w| && InL(r1, w[..i]) && InL(r2, w[i..]);
    var u, v := w[..i], w[i..];
    SplitAt(w, i);
    GrowsWithin(st, st', l1, h, l1, l2);
    GrowsWithin(st, st', l1, h, l2, h);
    var a := Into(st, st', l1, l2, l1, h, n1, r1, u);
    var b := Into(st, st', l2, h, l1, h, n2, r2, v);
    CatJoin(st', l1, h, n1, n2, a, b);
  }

  lemma {:induction false} SplitAt<T>(w: seq<T>, i: nat)
    requires i <= |w|
    ensures w == w[..i] + w[i..]
  {
  }

  /** Growing on a range is growing on every range inside it. */
  lemma {:induction false} GrowsWithin(g: seq<State>, g': seq<State>, lo: nat, hi: nat, lo': nat, hi': nat)
    requires GrowsOn(g, g', lo, hi) && lo <= lo' && hi' <= hi
    ensures GrowsOn(g, g', lo', hi')
  {
  }

  /** A walk across the first fragment, the new edge, and a walk across the second. */
  lemma {:induction false} CatJoin(st': seq<State>, l1: nat, h: nat, n1: Fragment, n2: Fragment, a: seq<Edge>, b: seq<Edge>)
    requires Walk(st', l1, h, n1.start, a, n1.end) && Walk(st', l1, h, n2.start, b, n2.end)
    requires l1 <= n1.end < h && l1 <= n2.start < h && n1.end < |st'| && st'[n1.end].epsilon == [n2.start]
    ensures Lang(st', l1, h, n1.start, n2.end, Word(a) + Word(b))
  {
    var link := Eps(n1.end, n2.start);
    Prepend(st', l1, h, link, b, n2.end);
    WalkAppend(st', l1, h, n1.start, a, n1.end, [link] + b, n2.end);
    WordAppend(a, [link] + b);
    assert Word([link] + b) == Word(b);
    assert Walk(st', l1, h, n1.start, a + ([link] + b), n2.end) && Word(a + ([link] + b)) == Word(a) + Word(b);
  }

  lemma {:induction false} CatGrows(st: seq<State>, st': seq<State>, l1: nat, l2: nat, n1: Fragment, n2: Fragment)
    requires CatShape(st, st', l1, l2, n1, n2)
    ensures GrowsOn(st, st', l1, |st|)
  {
    forall r | l1 <= r < |st|
      ensures st'[r].transitions == st[r].transitions && forall t :: t in st[r].epsilon ==> t in st'[r].epsilon
    {
      if r == n1.end {
        assert NoEdges(st[r]);
      }
    }
  }

  /** `|`: a new start forks to both fragments, and both ends lead to a new end. */
  ghost predicate AltShape(st: seq<State>, st': seq<State>, l1: nat, l2: nat, n1: Fragment, n2: Fragment)
  {
    FragmentOk(st, l1, l2, n1) && FragmentOk(st, l2, |st|, n2) && AltEdges(st', |st|, n1, n2) &&
    forall q :: 0 <= q < |st| && q != n1.end && q != n2.end ==> st'[q] == st[q]
  }

  /** The edges `|` adds: from the new start `c` to both starts, and from both ends to the new end `c + 1`. */
  ghost predicate AltEdges(st': seq<State>, c: nat, n1: Fragment, n2: Fragment)
  {
    |st'| == c + 2 && n1.end < c && n2.end < c &&
    st'[n1.end] == State([c + 1], [], false) && st'[n2.end] == State([c + 1], [], false) &&
    st'[c] == State([n1.start, n2.start], [], false) && st'[c + 1] == State([], [], true)
  }

  lemma {:induction false} AltLang(st: seq<State>, st': seq<State>, l1: nat, l2: nat, n1: Fragment, n2: Fragment, r1: Regex, r2: Regex)
    requires AltShape(st, st', l1, l2, n1, n2)
    requires FragLang(st, l1, l2, n1, r1) && FragLang(st, l2, |st|, n2, r2)
    ensures FragLang(st', l1, |st| + 2, StartEndPair(|st|, |st| + 1), Alt(r1, r2))
  {
    var c := |st|;
    AltGrows(st, st', l1, l2, n1, n2);
    CoversAfter(st, st', l1, l2, l1, c + 2, n1, r1);
    CoversAfter(st, st', l2, c, l1, c + 2, n2, r2);
    WithinOf(st, l1, l2, n1, r1);
    WithinOf(st, l2, c, n2, r2);
    forall w
      ensures Lang(st', l1, c + 2, c, c + 1, w) <==> InL(Alt(r1, r2), w)
    {
      AltWord(st, st', l1, l2, c, n1, n2, r1, r2, w);
    }
  }

  lemma {:induction false} AltWord(st: seq<State>, st': seq<State>, l1: nat, l2: nat, c: nat, n1: Fragment, n2: Fragment, r1: Regex, r2: Regex, w: seq<Token>)
    requires l1 <= n1.start < l2 && l1 <= n1.end < l2 && l2 <= n2.start < c && l2 <= n2.end < c && c == |st|
    requires AltEdges(st', c, n1, n2)
    requires Within(st, l1, l2, n1, r1) && KeptInside(st, st', l1, l2, n1.end)
    requires Within(st, l2, c, n2, r2) && KeptInside(st, st', l2, c, n2.end)
    requires Covers(st', l1, c + 2, n1, r1) && Covers(st', l1, c + 2, n2, r2)
    ensures Lang(st', l1, c + 2, c, c + 1, w) <==> InL(Alt(r1, r2), w)
  {
    if Lang(st', l1, c + 2, c, c + 1, w) {
      var es: seq<Edge> :| Walk(st', l1, c + 2, c, es, c + 1) && Word(es) == w;
      AltSound(st, st', l1, l2, c, n1, n2, r1, r2, es);
    }
    if InL(Alt(r1, r2), w) {
      if InL(r1, w) {
        AltComplete(st', l1, c, n1, r1, w);
      } else {
        AltComplete(st', l1, c, n2, r2, w);
      }
    }
  }

  lemma {:induction false} AltSound(st: seq<State>, st': seq<State>, l1: nat, l2: nat, c: nat, n1: Fragment, n2: Fragment, r1: Regex, r2: Regex, es: seq<Edge>)
    requires l1 <= n1.start < l2 && l1 <= n1.end < l2 && l2 <= n2.start < c && l2 <= n2.end < c && c == |st|
    requires AltEdges(st', c, n1, n2)
    requires Within(st, l1, l2, n1, r1) && KeptInside(st, st', l1, l2, n1.end)
    requires Within(st, l2, c, n2, r2) && KeptInside(st, st', l2, c, n2.end)
    requires Walk(st', l1, c + 2, c, es, c + 1)
    ensures InL(Alt(r1, r2), Word(es))
  {
    assert st'[c].epsilon == [n1.start, n2.start] && st'[c].transitions == [];
    assert st'[n1.end] == State([c + 1], [], false) && st'[n2.end] == State([c + 1], [], false);
    assert NoEdges(st'[c + 1]) && |st'| == c + 2;
    var tail := FirstEps(st', l1, c + 2, c, es, c + 1);
    if es[0].to == n1.start {
      AltBranchSound(st, st', l1, l1, l2, c, n1, r1, tail);
    } else {
      AltBranchSound(st, st', l1, l2, c, c, n2, r2, tail);
    }
  }

  /** A walk that starts at a slot with only epsilon edges begins with one of them. */
  lemma {:induction false} FirstEps(g: seq<State>, lo: nat, hi: nat, p: nat, es: seq<Edge>, q: nat) returns (tail: seq<Edge>)
    requires Walk(g, lo, hi, p, es, q) && p != q && p < |g| && g[p].transitions == []
    ensures es != [] && es[0].Eps? && es[0].from == p && es[0].to in g[p].epsilon && tail == es[1..]
    ensures Walk(g, lo, hi, es[0].to, tail, q) && Word(es) == Word(tail)
  {
    tail := es[1..];
  }

  lemma {:induction false} AltGrows(st: seq<State>, st': seq<State>, l1: nat, l2: nat, n1: Fragment, n2: Fragment)
    requires AltShape(st, st', l1, l2, n1, n2)
    ensures GrowsOn(st, st', l1, l2) && GrowsOn(st, st', l2, |st|)
    ensures KeptInside(st, st', l1, l2, n1.end) && KeptInside(st, st', l2, |st|, n2.end)
  {
    FragmentClosed(st, l1, l2, n1);
    FragmentClosed(st, l2, |st|, n2);
    forall q | l1 <= q < |st|
      ensures st'[q].transitions == st[q].transitions && forall t :: t in st[q].epsilon ==> t in st'[q].epsilon
    {
      if q == n1.end || q == n2.end {
        assert NoEdges(st[q]);
      }
    }
  }

  /** A fragment's words survive added edges and a wider range. */
  lemma {:induction false} CoversAfter(st: seq<State>, st': seq<State>, lo: nat, hi: nat, lo': nat, hi': nat, n: Fragment, r: Regex)
    requires FragLang(st, lo, hi, n, r) && GrowsOn(st, st', lo, hi) && lo' <= lo && hi <= hi'
    ensures Covers(st', lo', hi', n, r)
  {
    forall u | InL(r, u)
      ensures Lang(st', lo', hi', n.start, n.end, u)
    {
      var a := Into(st, st', lo, hi, lo', hi', n, r, u);
    }
  }

  /** A walk from either branch's start to the new end crosses that branch. */
  lemma {:induction false} AltBranchSound(st: seq<State>, st': seq<State>, l1: nat, lo: nat, hi: nat, c: nat, n: Fragment, r: Regex, es: seq<Edge>)
    requires l1 <= lo && lo <= n.start < hi && lo <= n.end < hi && hi <= c == |st| && |st'| == c + 2
    requires st'[n.end] == State([c + 1], [], false) && NoEdges(st'[c + 1])
    requires Within(st, lo, hi, n, r) && KeptInside(st, st', lo, hi, n.end)
    requires Walk(st', l1, c + 2, n.start, es, c + 1)
    ensures InL(r, Word(es))
  {
    var i := Through(st, st', lo, hi, l1, c + 2, n, r, es, c + 1);
    var rest := es[i + 1..];
    assert es[i].to == c + 1;
    WalkFromDeadEnd(st', l1, c + 2, c + 1, rest, c + 1);
    assert Word(rest) == [];
    assert Word(es) == Word(es[..i]) + [] == Word(es[..i]);
  }

  /** Either branch, entered from the new start and left for the new end. */
  lemma {:induction false} AltComplete(st': seq<State>, l1: nat, c: nat, n: Fragment, r: Regex, w: seq<Token>)
    requires l1 <= n.start < c && l1 <= n.end < c && |st'| == c + 2
    requires n.start in st'[c].epsilon && c + 1 in st'[n.end].epsilon
    requires Covers(st', l1, c + 2, n, r) && InL(r, w)
    ensures Lang(st', l1, c + 2, c, c + 1, w)
  {
    assert Lang(st', l1, c + 2, n.start, n.end, w);
    var a: seq<Edge> :| Walk(st', l1, c + 2, n.start, a, n.end) && Word(a) == w;
    var b := [Eps(n.end, c + 1)];
    Prepend(st', l1, c + 2, Eps(n.end, c + 1), [], c + 1);
    Join(st', l1, c + 2, c, n.start, a, n.end, b, c + 1);
    var es := [Eps(c, n.start)] + (a + b);
    assert w == Word(a) + Word(b);
    assert Walk(st', l1, c + 2, c, es, c + 1) && Word(es) == w;
  }

  /** `*` and `+`: a new start enters the fragment (and for `*` also skips it), and the old end loops back or leaves. */
  ghost predicate RepeatShape(st: seq<State>, st': seq<State>, l1: nat, n1: Fragment, star: bool)
  {
    FragmentOk(st, l1, |st|, n1) && |st'| == |st| + 2 &&
    (forall q :: 0 <= q < |st| && q != n1.end ==> st'[q] == st[q]) &&
    LoopEdges(st', |st|, n1) &&
    st'[|st|] == State(if star then [n1.start, |st| + 1] else [n1.start], [], false)
  }

  /** The old end leads to the new end and back to the fragment's start; the new end has no edges. */
  ghost predicate LoopEdges(st': seq<State>, c: nat, n1: Fragment)
  {
    |st'| == c + 2 && n1.end < c && n1.start < c &&
    st'[n1.end] == State([c + 1, n1.start], [], false) && st'[c + 1] == State([], [], true)
  }

  /** Every word of `r` is consumed by some walk across fragment `f`. */
  ghost predicate Covers(g: seq<State>, lo: nat, hi: nat, f: Fragment, r: Regex)
  {
    forall u :: InL(r, u) ==> Lang(g, lo, hi, f.start, f.end, u)
  }

  /** A word of `r` followed by a word of `r*` is a word of `r+`. */
  lemma {:induction false} PlusOf(r: Regex, u: seq<Token>, v: seq<Token>)
    requires InL(r, u) && InL(Star(r), v)
    ensures InL(Plus(r), u + v)
  {
    assert (u + v)[..|u|] == u && (u + v)[|u|..] == v;
  }

  /** An epsilon edge, then two walks end to end. */
  lemma {:induction false} Join(g: seq<State>, lo: nat, hi: nat, x: nat, p: nat, a: seq<Edge>, m: nat, b: seq<Edge>, q: nat)
    requires IsEdge(g, lo, hi, Eps(x, p)) && Walk(g, lo, hi, p, a, m) && Walk(g, lo, hi, m, b, q)
    ensures Walk(g, lo, hi, x, [Eps(x, p)] + (a + b), q) && Word([Eps(x, p)] + (a + b)) == Word(a) + Word(b)
  {
    WalkAppend(g, lo, hi, p, a, m, b, q);
    WordAppend(a, b);
    Prepend(g, lo, hi, Eps(x, p), a + b, q);
  }

  lemma {:induction false} RepeatLang(st: seq<State>, st': seq<State>, l1: nat, n1: Fragment, r: Regex, star: bool)
    requires RepeatShape(st, st', l1, n1, star) && FragLang(st, l1, |st|, n1, r)
    ensures FragLang(st', l1, |st| + 2, StartEndPair(|st|, |st| + 1), if star then Star(r) else Plus(r))
  {
    var c := |st|;
    var rr := if star then Star(r) else Plus(r);
    FragmentClosed(st, l1, c, n1);
    assert KeptInside(st, st', l1, c, n1.end);
    RepeatGrows(st, st', l1, n1, star);
    assert Covers(st', l1, c + 2, n1, r) by {
      forall u | InL(r, u)
        ensures Lang(st', l1, c + 2, n1.start, n1.end, u)
      {
        var a := Into(st, st', l1, c, l1, c + 2, n1, r, u);
      }
    }
    forall w
      ensures Lang(st', l1, c + 2, c, c + 1, w) <==> InL(rr, w)
    {
      if Lang(st', l1, c + 2, c, c + 1, w) {
        var es: seq<Edge> :| Walk(st', l1, c + 2, c, es, c + 1) && Word(es) == w;
        RepeatSound(st, st', l1, c, n1, r, star, es);
      }
      if InL(rr, w) {
        RepeatComplete(st', l1, c, n1, r, star, w);
      }
    }
  }

  lemma {:induction false} RepeatSound(st: seq<State>, st': seq<State>, l1: nat, c: nat, n1: Fragment, r: Regex, star: bool, es: seq<Edge>)
    requires c == |st| && l1 <= n1.start < c && l1 <= n1.end < c && LoopEdges(st', c, n1)
    requires st'[c] == State(if star then [n1.start, c + 1] else [n1.start], [], false)
    requires Within(st, l1, c, n1, r) && KeptInside(st, st', l1, c, n1.end)
    requires Walk(st', l1, c + 2, c, es, c + 1)
    ensures InL(if star then Star(r) else Plus(r), Word(es))
  {
    var tail := es[1..];
    assert es[0].Eps?;
    assert Word(es) == Word(tail);
    if es[0].to == c + 1 {
      WalkFromDeadEnd(st', l1, c + 2, c + 1, tail, c + 1);
      assert Word(tail) == [];
    } else {
      assert LoopCtx(st, st', l1, c, n1, r);
      LoopSound(st, st', l1, c, n1, r, tail);
      if star {
        PlusInStar(r, Word(tail));
      }
    }
  }

  /** What the loop proofs know: the old fragment keeps its edges and words, and its end now loops back or leaves. */
  ghost predicate LoopCtx(st: seq<State>, st': seq<State>, l1: nat, c: nat, n1: Fragment, r: Regex)
  {
    c == |st| && l1 <= n1.start < c && l1 <= n1.end < c && LoopEdges(st', c, n1) &&
    Within(st, l1, c, n1, r) && KeptInside(st, st', l1, c, n1.end)
  }

  /** Walks from the fragment's start to the new end go round the loop one or more times. */
  lemma {:induction false} LoopSound(st: seq<State>, st': seq<State>, l1: nat, c: nat, n1: Fragment, r: Regex, es: seq<Edge>)
    requires LoopCtx(st, st', l1, c, n1, r)
    requires Walk(st', l1, c + 2, n1.start, es, c + 1)
    ensures InL(Plus(r), Word(es))
    decreases |es|, 0
  {
    var i := LoopThrough(st, st', l1, c, n1, r, es);
    var rest := es[i + 1..];
    LoopRest(st, st', l1, c, n1, r, es[i].to, rest);
    PlusOf(r, Word(es[..i]), Word(rest));
  }

  /** Through, for a walk that starts at the looped fragment's start. */
  lemma {:induction false} LoopThrough(st: seq<State>, st': seq<State>, l1: nat, c: nat, n1: Fragment, r: Regex, es: seq<Edge>)
    returns (i: nat)
    requires LoopCtx(st, st', l1, c, n1, r)
    requires Walk(st', l1, c + 2, n1.start, es, c + 1)
    ensures i < |es| && es[i].to in st'[n1.end].epsilon
    ensures InL(r, Word(es[..i])) && Walk(st', l1, c + 2, es[i].to, es[i + 1..], c + 1)
    ensures Word(es) == Word(es[..i]) + Word(es[i + 1..])
  {
    i := Through(st, st', l1, c, l1, c + 2, n1, r, es, c + 1);
  }

  /** After the old end, a walk either leaves for the new end or goes round again. */
  lemma {:induction false} LoopRest(st: seq<State>, st': seq<State>, l1: nat, c: nat, n1: Fragment, r: Regex, p: nat, es: seq<Edge>)
    requires LoopCtx(st, st', l1, c, n1, r)
    requires p in st'[n1.end].epsilon && Walk(st', l1, c + 2, p, es, c + 1)
    ensures InL(Star(r), Word(es))
    decreases |es|, 1
  {
    if p == c + 1 {
      WalkFromDeadEnd(st', l1, c + 2, c + 1, es, c + 1);
      assert Word(es) == [];
    } else {
      LoopSound(st, st', l1, c, n1, r, es);
      PlusInStar(r, Word(es));
    }
  }

  lemma {:induction false} RepeatGrows(st: seq<State>, st': seq<State>, l1: nat, n1: Fragment, star: bool)
    requires RepeatShape(st, st', l1, n1, star)
    ensures GrowsOn(st, st', l1, |st|)
  {
    forall q | l1 <= q < |st|
      ensures st'[q].transitions == st[q].transitions && forall t :: t in st[q].epsilon ==> t in st'[q].epsilon
    {
      if q == n1.end {
        assert NoEdges(st[q]);
      }
    }
  }

  lemma {:induction false} RepeatComplete(st': seq<State>, l1: nat, c: nat, n1: Fragment, r: Regex, star: bool, w: seq<Token>)
    requires l1 <= n1.start < c && l1 <= n1.end < c && LoopEdges(st', c, n1)
    requires st'[c] == State(if star then [n1.start, c + 1] else [n1.start], [], false)
    requires Covers(st', l1, c + 2, n1, r)
    requires InL(if star then Star(r) else Plus(r), w)
    ensures Lang(st', l1, c + 2, c, c + 1, w)
  {
    if star && w == [] {
      Prepend(st', l1, c + 2, Eps(c, c + 1), [], c + 1);
      assert Word([Eps(c, c + 1)] + []) == w;
    } else {
      if star {
        StarInPlus(r, w);
      }
      assert IsEdge(st', l1, c + 2, Eps(c, n1.start));
      Around(st', l1, c, n1, r, c, w);
    }
  }

  /** An epsilon edge into the fragment's start, then a word of `r+`, reaches the new end. */
  lemma {:induction false} Around(st': seq<State>, l1: nat, c: nat, n1: Fragment, r: Regex, x: nat, w: seq<Token>)
    requires l1 <= n1.start < c && l1 <= n1.end < c && LoopEdges(st', c, n1)
    requires IsEdge(st', l1, c + 2, Eps(x, n1.start))
    requires Covers(st', l1, c + 2, n1, r)
    requires InL(Plus(r), w)
    ensures Lang(st', l1, c + 2, x, c + 1, w)
  {
    var i :| 0 <= i <= |w| && InL(r, w[..i]) && InL(Star(r), w[i..]);
    var a := Cross(st', l1, c + 2, n1, r, w[..i]);
    var es := Lap(st', l1, c, n1, r, x, a, w[i..]);
    assert w == w[..i] + w[i..];
  }

  /** From `x` into the fragment, across it by the walk `a`, and round the loop with a word of `r*`. */
  lemma {:induction false} Lap(st': seq<State>, l1: nat, c: nat, n1: Fragment, r: Regex, x: nat, a: seq<Edge>, v: seq<Token>)
    returns (es: seq<Edge>)
    requires l1 <= n1.start < c && l1 <= n1.end < c && LoopEdges(st', c, n1)
    requires IsEdge(st', l1, c + 2, Eps(x, n1.start)) && Walk(st', l1, c + 2, n1.start, a, n1.end)
    requires Covers(st', l1, c + 2, n1, r) && InL(Star(r), v)
    ensures Walk(st', l1, c + 2, x, es, c + 1) && Word(es) == Word(a) + v
    decreases |v|, 3
  {
    var b := LoopComplete(st', l1, c, n1, r, v);
    Join(st', l1, c + 2, x, n1.start, a, n1.end, b, c + 1);
    es := [Eps(x, n1.start)] + (a + b);
  }

  /** A word of `r` crosses the fragment. */
  lemma {:induction false} Cross(g: seq<State>, lo: nat, hi: nat, n: Fragment, r: Regex, u: seq<Token>)
    returns (a: seq<Edge>)
    requires Covers(g, lo, hi, n, r) && InL(r, u)
    ensures Walk(g, lo, hi, n.start, a, n.end) && Word(a) == u
  {
    assert Lang(g, lo, hi, n.start, n.end, u);
    a :| Walk(g, lo, hi, n.start, a, n.end) && Word(a) == u;
  }

  /** A word of `r*` takes the old end round the loop to the new end. */
  lemma {:induction false} LoopComplete(st': seq<State>, l1: nat, c: nat, n1: Fragment, r: Regex, v: seq<Token>)
    returns (es: seq<Edge>)
    requires l1 <= n1.start < c && l1 <= n1.end < c && LoopEdges(st', c, n1)
    requires Covers(st', l1, c + 2, n1, r)
    requires InL(Star(r), v)
    ensures Walk(st', l1, c + 2, n1.end, es, c + 1) && Word(es) == v
    decreases |v|, 2
  {
    if v == [] {
      es := [Eps(n1.end, c + 1)];
      Prepend(st', l1, c + 2, Eps(n1.end, c + 1), [], c + 1);
    } else {
      es := LoopAgain(st', l1, c, n1, r, v);
    }
  }

  /** A non-empty word of `r*` goes back to the fragment's start and round again. */
  lemma {:induction false} LoopAgain(st': seq<State>, l1: nat, c: nat, n1: Fragment, r: Regex, v: seq<Token>)
    returns (es: seq<Edge>)
    requires l1 <= n1.start < c && l1 <= n1.end < c && LoopEdges(st', c, n1)
    requires Covers(st', l1, c + 2, n1, r)
    requires InL(Star(r), v) && v != []
    ensures Walk(st', l1, c + 2, n1.end, es, c + 1) && Word(es) == v
    decreases |v|, 1
  {
    var i :| 0 < i <= |v| && InL(r, v[..i]) && InL(Star(r), v[i..]);
    var a := Cross(st', l1, c + 2, n1, r, v[..i]);
    es := Lap(st', l1, c, n1, r, n1.end, a, v[i..]);
    assert v == v[..i] + v[i..];
  }

  /** `?`: the fragment's start gets an epsilon edge straight to its end. */
  ghost predicate OptShape(st: seq<State>, st': seq<State>, l: nat, n: Fragment)
  {
    FragmentOk(st, l, |st|, n) && |st'| == |st| &&
    (forall q :: 0 <= q < |st| && q != n.start ==> st'[q] == st[q]) &&
    st'[n.start].epsilon == st[n.start].epsilon + [n.end] && st'[n.start].transitions == st[n.start].transitions
  }

  lemma {:induction false} OptLang(st: seq<State>, st': seq<State>, l: nat, n: Fragment, r: Regex)
    requires OptShape(st, st', l, n) && FragLang(st, l, |st|, n, r)
    ensures FragLang(st', l, |st|, n, Opt(r))
  {
    forall w
      ensures Lang(st', l, |st|, n.start, n.end, w) <==> InL(Opt(r), w)
    {
      if Lang(st', l, |st|, n.start, n.end, w) {
        var es: seq<Edge> :| Walk(st', l, |st|, n.start, es, n.end) && Word(es) == w;
        OptSound(st, st', l, n, r, es);
      }
      if InL(Opt(r), w) {
        OptComplete(st, st', l, n, r, w);
      }
    }
  }

  lemma {:induction false} OptSound(st: seq<State>, st': seq<State>, l: nat, n: Fragment, r: Regex, es: seq<Edge>)
    requires OptShape(st, st', l, n) && FragLang(st, l, |st|, n, r)
    requires Walk(st', l, |st|, n.start, es, n.end)
    ensures InL(Opt(r), Word(es))
  {
    var c := |st|;
    var e := es[0];
    if e.Eps? && e.to == n.end {
      WalkFromDeadEnd(st', l, c, n.end, es[1..], n.end);
      assert Word(es) == [] + Word([]);
    } else {
      assert IsEdge(st, l, c, e) by {
        if e.Sym? {
          var j :| 0 <= j < |st'[n.start].transitions| && st'[n.start].transitions[j].target == e.to && IsCorrectToken(st'[n.start].transitions[j].pred, e.token);
        }
      }
      FragmentClosed(st, l, c, n);
      assert KeptInside(st, st', l, c, n.start);
      Avoid(st, st', l, c, n.start, e.to, es[1..], n.end);
      assert Walk(st, l, c, n.start, es, n.end);
      assert Lang(st, l, c, n.start, n.end, Word(es));
    }
  }

  /** A walk in `g'` that never meets `x`, since nothing leads into `x`, is a walk of `g`. */
  lemma {:induction false} Avoid(g: seq<State>, g': seq<State>, lo: nat, hi: nat, x: nat, p: nat, es: seq<Edge>, q: nat)
    requires Walk(g', lo, hi, p, es, q) && lo <= p < hi && p != x
    requires KeptInside(g, g', lo, hi, x) && forall r :: lo <= r < hi ==> Avoids(g[r], x)
    ensures Walk(g, lo, hi, p, es, q)
    decreases |es|
  {
    if es != [] {
      var e := es[0];
      assert lo <= e.to < hi && e.to != x by {
        if e.Sym? {
          var j :| 0 <= j < |g'[p].transitions| && g'[p].transitions[j].target == e.to && IsCorrectToken(g'[p].transitions[j].pred, e.token);
        }
      }
      Avoid(g, g', lo, hi, x, e.to, es[1..], q);
    }
  }

  lemma {:induction false} OptComplete(st: seq<State>, st': seq<State>, l: nat, n: Fragment, r: Regex, w: seq<Token>)
    requires OptShape(st, st', l, n) && FragLang(st, l, |st|, n, r)
    requires InL(Opt(r), w)
    ensures Lang(st', l, |st|, n.start, n.end, w)
  {
    var c := |st|;
    if w == [] {
      Prepend(st', l, c, Eps(n.start, n.end), [], n.end);
      assert Word([Eps(n.start, n.end)] + []) == w;
    } else {
      assert GrowsOn(st, st', l, c);
      var a := Into(st, st', l, c, l, c, n, r, w);
    }
  }
}
