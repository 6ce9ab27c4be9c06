/**
 * The automaton simulation of PatternMatcher: addstate (epsilon closure),
 * extract_best_match (the longest accepted prefix) and findall (the longest
 * match at every start offset), plus the constructor that runs the lexer,
 * the parser and the builder.
 *
 * The sets of State objects the source builds are sets of arena indices
 * here. addstate's in-place insertion into the caller's set is modelled by
 * passing the set in and returning the enlarged set.
 */
module PatternMatcher {
  import opened Wrappers
  import opened Schemes
  import opened PatternLexer
  import opened Postfix
  import opened RecursiveDescentParser
  import opened NfaBuilder

  // ---------------------------------------------------------------------------
  // Epsilon reachability.
  // ---------------------------------------------------------------------------

  /** Every edge of the arena leads to a slot of the arena. */
  ghost predicate ValidArena(g: seq<State>)
  {
    forall q :: 0 <= q < |g| ==>
      (forall j :: 0 <= j < |g[q].epsilon| ==> g[q].epsilon[j] < |g|) &&
      (forall j :: 0 <= j < |g[q].transitions| ==> g[q].transitions[j].target < |g|)
  }

  ghost predicate Below(s: set<nat>, n: nat) { forall q :: q in s ==> q < n }

  /** `path` follows epsilon edges from its first state to its last. */
  ghost predicate EpsWalk(g: seq<State>, path: seq<nat>)
  {
    |path| >= 1 && (forall i :: 0 <= i < |path| ==> path[i] < |g|) &&
    forall i :: 0 <= i < |path| - 1 ==> path[i + 1] in g[path[i]].epsilon
  }

  ghost predicate EpsReach(g: seq<State>, p: nat, q: nat)
  {
    exists path :: EpsWalk(g, path) && path[0] == p && path[|path| - 1] == q
  }

  /** `q` is epsilon-reachable from some member of `s`. */
  ghost predicate ReachFrom(g: seq<State>, s: set<nat>, q: nat)
  {
    exists p :: p in s && EpsReach(g, p, q)
  }

  /** The epsilon closure of a set of states. */
  ghost function EClose(g: seq<State>, s: set<nat>): set<nat>
  {
    set q | 0 <= q < |g| && ReachFrom(g, s, q)
  }

  /** Every epsilon successor of `q` is in `s`. */
  ghost predicate SuccsIn(g: seq<State>, q: nat, s: set<nat>)
    requires q < |g|
  {
    forall j :: 0 <= j < |g[q].epsilon| ==> g[q].epsilon[j] in s
  }

  /** `s` is closed under epsilon edges. */
  ghost predicate Closed(g: seq<State>, s: set<nat>)
  {
    forall q :: q in s ==> q < |g| && SuccsIn(g, q, s)
  }

  lemma {:induction false} ReachSelf(g: seq<State>, p: nat)
    requires p < |g|
    ensures EpsReach(g, p, p)
  {
    assert EpsWalk(g, [p]);
  }

  /** An epsilon edge followed by an epsilon walk is an epsilon walk. */
  lemma {:induction false} ReachPrepend(g: seq<State>, p: nat, e: nat, q: nat)
    requires p < |g| && e in g[p].epsilon && EpsReach(g, e, q)
    ensures EpsReach(g, p, q)
  {
    var path :| EpsWalk(g, path) && path[0] == e && path[|path| - 1] == q;
    var path' := [p] + path;
    assert EpsWalk(g, path');
  }

  /** A closed set holds everything epsilon-reachable from its members. */
  lemma {:induction false} ClosedHoldsReach(g: seq<State>, s: set<nat>, p: nat, q: nat)
    requires Closed(g, s) && p in s && EpsReach(g, p, q)
    ensures q in s
  {
    var path :| EpsWalk(g, path) && path[0] == p && path[|path| - 1] == q;
    var i := 0;
    while i < |path| - 1
      invariant 0 <= i < |path| && path[i] in s
    {
      SuccIn(g, s, path[i], path[i + 1]);
      i := i + 1;
    }
  }

  /** A closed set holds the epsilon successors of its members. */
  lemma {:induction false} SuccIn(g: seq<State>, s: set<nat>, p: nat, e: nat)
    requires Closed(g, s) && p in s && p < |g| && e in g[p].epsilon
    ensures e in s
  {
    var j :| 0 <= j < |g[p].epsilon| && g[p].epsilon[j] == e;
  }

  /** An epsilon walk followed by an epsilon edge is an epsilon walk. */
  lemma {:induction false} ReachAppend(g: seq<State>, p: nat, q: nat, e: nat)
    requires EpsReach(g, p, q) && q < |g| && e in g[q].epsilon && e < |g|
    ensures EpsReach(g, p, e)
  {
    var path :| EpsWalk(g, path) && path[0] == p && path[|path| - 1] == q;
    assert EpsWalk(g, path + [e]);
  }

  /** An epsilon closure is closed and inside the arena. */
  lemma {:induction false} ECloseClosed(g: seq<State>, s: set<nat>)
    requires ValidArena(g)
    ensures Closed(g, EClose(g, s)) && Below(EClose(g, s), |g|)
  {
    var c := EClose(g, s);
    forall q | q in c
      ensures q < |g| && SuccsIn(g, q, c)
    {
      var p :| p in s && EpsReach(g, p, q);
      forall j | 0 <= j < |g[q].epsilon|
        ensures g[q].epsilon[j] in c
      {
        ReachAppend(g, p, q, g[q].epsilon[j]);
      }
    }
  }

  /** A subset is no larger than its superset. */
  lemma {:induction false} CardSubset(a: set<nat>, b: set<nat>)
    requires a <= b
    ensures |a| <= |b|
    decreases |a|
  {
    if a != {} {
      var x :| x in a;
      CardSubset(a - {x}, b - {x});
    }
  }

  /** A set of indices below `n` has at most `n` members. */
  lemma {:induction false} CardBelow(s: set<nat>, n: nat)
    requires Below(s, n)
    ensures |s| <= n
    decreases n
  {
    if n > 0 {
      CardBelow(s - {n - 1}, n - 1);
    } else {
      assert s == {};
    }
  }

  // ---------------------------------------------------------------------------
  // addstate.
  // ---------------------------------------------------------------------------

  /**
   * addstate: insert `state` and, recursively, its epsilon successors, each
   * only if not yet present. The membership test is what makes it stop on
   * epsilon cycles; the measure is the number of arena states still absent.
   */
  method AddState(g: seq<State>, state: nat, states: set<nat>) returns (r: set<nat>)
    requires ValidArena(g) && state < |g| && Below(states, |g|)
    ensures states <= r && state in r && Below(r, |g|)
    ensures forall q :: q in r && q !in states ==> EpsReach(g, state, q)
    ensures forall q :: q in r && q !in states ==> SuccsIn(g, q, r)
    ensures Closed(g, states) ==> Closed(g, r) && r == states + EClose(g, {state})
    decreases |g| - |states|
  {
    if state in states {
      r := states;
    } else {
      r := states + {state};
      ReachSelf(g, state);
      var eps := g[state].epsilon;
      for i := 0 to |eps|
        invariant states + {state} <= r && Below(r, |g|)
        invariant forall j :: 0 <= j < i ==> eps[j] in r
        invariant forall q :: q in r && q !in states ==> EpsReach(g, state, q)
        invariant forall q :: q in r && q !in states && q != state ==> SuccsIn(g, q, r)
      {
        CardBelow(r, |g|);
        CardSubset(states + {state}, r);
        var r0 := r;
        r := AddState(g, eps[i], r);
        forall q | q in r && q !in states
          ensures EpsReach(g, state, q)
        {
          if q !in r0 {
            ReachPrepend(g, state, eps[i], q);
          }
        }
      }
    }
    if Closed(g, states) {
      forall q | q in EClose(g, {state})
        ensures q in r
      {
        ClosedHoldsReach(g, r, state, q);
      }
    }
  }

  // ---------------------------------------------------------------------------
  // One token.
  // ---------------------------------------------------------------------------

  /** The targets of the transitions out of `s` whose predicate accepts `t`. */
  ghost function Moves(g: seq<State>, s: set<nat>, t: Token): set<nat>
  {
    set q, j | q in s && 0 <= q < |g| && 0 <= j < |g[q].transitions| && IsCorrectToken(g[q].transitions[j].pred, t)
      :: g[q].transitions[j].target
  }

  /** The states after reading `t` from the states `s`. */
  ghost function Next(g: seq<State>, s: set<nat>, t: Token): set<nat>
  {
    EClose(g, Moves(g, s, t))
  }

  /** The closure of a union is the union of the closures. */
  lemma {:induction false} ECloseUnion(g: seq<State>, a: set<nat>, b: set<nat>)
    ensures EClose(g, a + b) == EClose(g, a) + EClose(g, b)
  {
  }

  /** The targets of the transitions out of `q` whose predicate accepts `t`. */
  ghost function MovesOf(g: seq<State>, q: nat, t: Token): set<nat>
    requires q < |g|
  {
    set j | 0 <= j < |g[q].transitions| && IsCorrectToken(g[q].transitions[j].pred, t) :: g[q].transitions[j].target
  }

  lemma {:induction false} MovesInsert(g: seq<State>, done: set<nat>, q: nat, t: Token)
    requires q < |g|
    ensures Moves(g, done + {q}, t) == Moves(g, done, t) + MovesOf(g, q, t)
  {
  }

  /** Reading `t` from one more state adds the closure of that state's moves. */
  lemma {:induction false} NextInsert(g: seq<State>, done: set<nat>, q: nat, t: Token)
    requires q < |g|
    ensures EClose(g, Moves(g, done + {q}, t)) == EClose(g, Moves(g, done, t)) + EClose(g, MovesOf(g, q, t))
  {
    MovesInsert(g, done, q, t);
    ECloseUnion(g, Moves(g, done, t), MovesOf(g, q, t));
  }

  /**
   * The innermost loop of extract_best_match: addstate the target of every
   * transition out of `state` that accepts the token.
   */
  method FollowTransitions(g: seq<State>, state: nat, token: Token, next: set<nat>) returns (r: set<nat>)
    requires ValidArena(g) && state < |g| && Closed(g, next) && Below(next, |g|)
    ensures Closed(g, r) && Below(r, |g|) && r == next + EClose(g, MovesOf(g, state, token))
  {
    r := next;
    var trs := g[state].transitions;
    for j := 0 to |trs|
      invariant Closed(g, r) && Below(r, |g|) && r == next + EClose(g, Taken(trs, token, j))
    {
      if IsCorrectToken(trs[j].pred, token) {
        r := AddState(g, trs[j].target, r);
        ECloseUnion(g, Taken(trs, token, j), {trs[j].target});
      }
    }
    TakenAll(g, state, token);
  }

  /** The targets of the first `j` transitions in `trs` whose predicate accepts `t`. */
  ghost function Taken(trs: seq<Transition>, t: Token, j: nat): set<nat>
    requires j <= |trs|
  {
    if j == 0 then {}
    else Taken(trs, t, j - 1) + (if IsCorrectToken(trs[j - 1].pred, t) then {trs[j - 1].target} else {})
  }

  lemma {:induction false} TakenIsPrefix(trs: seq<Transition>, t: Token, j: nat)
    requires j <= |trs|
    ensures Taken(trs, t, j) == set k | 0 <= k < j && IsCorrectToken(trs[k].pred, t) :: trs[k].target
    decreases j
  {
    if j > 0 {
      TakenIsPrefix(trs, t, j - 1);
    }
  }

  lemma {:induction false} TakenAll(g: seq<State>, q: nat, t: Token)
    requires q < |g|
    ensures Taken(g[q].transitions, t, |g[q].transitions|) == MovesOf(g, q, t)
  {
    TakenIsPrefix(g[q].transitions, t, |g[q].transitions|);
  }

  /**
   * The inner loops of extract_best_match: for every current state, follow
   * its transitions that accept the token. The set is walked in no
   * particular order, as the source's set is.
   */
  method NextStates(g: seq<State>, current: set<nat>, token: Token) returns (next: set<nat>)
    requires ValidArena(g) && Below(current, |g|)
    ensures next == Next(g, current, token)
    ensures Closed(g, next) && Below(next, |g|)
  {
    next := {};
    var rest := current;
    ghost var done: set<nat> := {};
    while rest != {}
      invariant rest + done == current && rest !! done
      invariant next == EClose(g, Moves(g, done, token))
      decreases |rest|
    {
      var state :| state in rest;
      ECloseClosed(g, Moves(g, done, token));
      next := FollowTransitions(g, state, token, next);
      NextInsert(g, done, state, token);
      rest := rest - {state};
      done := done + {state};
    }
    ECloseClosed(g, Moves(g, done, token));
  }

  // ---------------------------------------------------------------------------
  // extract_best_match.
  // ---------------------------------------------------------------------------

  function Max(a: nat, b: nat): (m: nat)
    ensures m >= a && m >= b && (m == a || m == b)
  {
    if a > b then a else b
  }

  /** The states the simulation holds after reading `w` from `start`. */
  ghost function Sim(g: seq<State>, start: nat, w: seq<Token>): set<nat>
  {
    if w == [] then EClose(g, {start})
    else Next(g, Sim(g, start, w[..|w| - 1]), w[|w| - 1])
  }

  /** The automaton accepts `w`: some state it can be in after `w` is accepting. */
  ghost predicate Accepts(g: seq<State>, start: nat, w: seq<Token>)
  {
    exists q :: q in Sim(g, start, w) && 0 <= q < |g| && g[q].isEnd
  }

  /** The largest k in 1..n such that the automaton accepts `w[..k]`, or 0 when there is none. */
  ghost function Longest(g: seq<State>, start: nat, w: seq<Token>, n: nat): (k: nat)
    requires n <= |w|
    ensures k <= n
  {
    if n == 0 then 0
    else if Accepts(g, start, w[..n]) then n
    else Longest(g, start, w, n - 1)
  }

  /** Longest is the largest accepted length up to n, and 0 exactly when none is accepted. */
  lemma {:induction false} LongestIsLargest(g: seq<State>, start: nat, w: seq<Token>, n: nat)
    requires n <= |w|
    ensures var k := Longest(g, start, w, n);
      (k == 0 || Accepts(g, start, w[..k])) && forall j :: k < j <= n ==> !Accepts(g, start, w[..j])
    ensures Longest(g, start, w, n) == 0 <==> forall j :: 1 <= j <= n ==> !Accepts(g, start, w[..j])
  {
    if n > 0 && !Accepts(g, start, w[..n]) {
      LongestIsLargest(g, start, w, n - 1);
    }
  }

  /** Nothing can be reached from no state. */
  lemma {:induction false} NextOfEmpty(g: seq<State>, t: Token)
    ensures Next(g, {}, t) == {}
  {
  }

  /** Once the simulation holds no state, it holds none for any longer prefix. */
  lemma {:induction false} SimStaysEmpty(g: seq<State>, start: nat, w: seq<Token>, i: nat, k: nat)
    requires i <= k <= |w| && Sim(g, start, w[..i]) == {}
    ensures Sim(g, start, w[..k]) == {}
    decreases k - i
  {
    if i < k {
      assert w[..i + 1][..i] == w[..i];
      NextOfEmpty(g, w[i]);
      SimStaysEmpty(g, start, w, i + 1, k);
    }
  }

  /**
   * extract_best_match: run the automaton over `words`, remembering the
   * last length after which it was in an accepting state, and stop as soon
   * as it is in no state at all. The empty prefix never counts.
   */
  method ExtractBestMatch(nfa: Nfa, words: seq<Token>) returns (best: nat)
    requires ValidArena(nfa.states) && nfa.start < |nfa.states|
    ensures best == Longest(nfa.states, nfa.start, words, |words|)
  {
    var g := nfa.states;
    best := 0;
    var current := AddState(g, nfa.start, {});
    assert words[..0] == [];
    for i := 0 to |words|
      invariant current == Sim(g, nfa.start, words[..i]) && Below(current, |g|)
      invariant best == Longest(g, nfa.start, words, i)
    {
      assert words[..i + 1][..i] == words[..i];
      var next := NextStates(g, current, words[i]);
      if next == {} {
        LongestUnchanged(g, nfa.start, words, i + 1, |words|);
        return;
      }
      current := next;
      if exists q :: q in current && g[q].isEnd {
        best := Max(i + 1, best);
      }
    }
    assert words[..|words|] == words;
  }

  /** Past the point where the simulation empties, the longest accepted prefix does not grow. */
  lemma {:induction false} LongestUnchanged(g: seq<State>, start: nat, w: seq<Token>, i: nat, n: nat)
    requires 0 < i <= n <= |w| && Sim(g, start, w[..i]) == {}
    ensures Longest(g, start, w, n) == Longest(g, start, w, i - 1)
    decreases n
  {
    SimStaysEmpty(g, start, w, i, n);
    assert !Accepts(g, start, w[..n]);
    if n > i {
      LongestUnchanged(g, start, w, i, n - 1);
    }
  }

  // ---------------------------------------------------------------------------
  // findall.
  // ---------------------------------------------------------------------------

  /** The length of the longest match starting at offset `s`. */
  ghost function MatchAt(nfa: Nfa, words: seq<Token>, s: nat): nat
    requires s <= |words|
  {
    Longest(nfa.states, nfa.start, words[s..], |words| - s)
  }

  /** The longest-match length at every start offset. */
  ghost function MatchLengths(nfa: Nfa, words: seq<Token>): (lens: seq<nat>)
    ensures |lens| == |words|
    ensures forall s :: 0 <= s < |words| ==> lens[s] == MatchAt(nfa, words, s) && lens[s] <= |words| - s
  {
    seq(|words|, s requires 0 <= s < |words| => MatchAt(nfa, words, s))
  }

  /**
   * The spans findall reports for the start offsets below `n`, in order,
   * given the match length at every offset.
   */
  function Spans(lens: seq<nat>, n: nat): seq<(nat, nat)>
    requires n <= |lens|
  {
    if n == 0 then []
    else Spans(lens, n - 1) + (if lens[n - 1] != 0 then [(n - 1, n - 1 + lens[n - 1])] else [])
  }

  /**
   * The spans are in bounds and non-empty, each has the match length of its
   * start, their starts strictly increase, and every start with a non-empty
   * match has its span.
   */
  lemma {:induction false} SpansProperties(lens: seq<nat>, n: nat)
    requires n <= |lens|
    requires forall s :: 0 <= s < |lens| ==> lens[s] <= |lens| - s
    ensures var r := Spans(lens, n);
      (forall i :: 0 <= i < |r| ==>
        r[i].0 < n && r[i].0 < r[i].1 <= |lens| && r[i].1 - r[i].0 == lens[r[i].0]) &&
      (forall i, j :: 0 <= i < j < |r| ==> r[i].0 < r[j].0) &&
      (forall s :: 0 <= s < n && lens[s] != 0 ==> exists i :: 0 <= i < |r| && r[i].0 == s)
  {
    SpansBounded(lens, n);
    SpansIncreasing(lens, n);
    SpansComplete(lens, n);
  }

  lemma {:induction false} SpansBounded(lens: seq<nat>, n: nat)
    requires n <= |lens|
    requires forall s :: 0 <= s < |lens| ==> lens[s] <= |lens| - s
    ensures forall sp :: sp in Spans(lens, n) ==> sp.0 < n && sp.0 < sp.1 <= |lens| && sp.1 - sp.0 == lens[sp.0]
    decreases n
  {
    if n > 0 {
      SpansBounded(lens, n - 1);
      var before := Spans(lens, n - 1);
      var tail := if lens[n - 1] != 0 then [(n - 1, n - 1 + lens[n - 1])] else [];
      var r := Spans(lens, n);
      assert r == before + tail;
      forall sp | sp in r
        ensures sp.0 < n && sp.0 < sp.1 <= |lens| && sp.1 - sp.0 == lens[sp.0]
      {
        if sp in before {
        } else {
          assert sp in tail;
        }
      }
    }
  }

  lemma {:induction false} SpansIncreasing(lens: seq<nat>, n: nat)
    requires n <= |lens|
    requires forall s :: 0 <= s < |lens| ==> lens[s] <= |lens| - s
    ensures forall i, j :: 0 <= i < j < |Spans(lens, n)| ==> Spans(lens, n)[i].0 < Spans(lens, n)[j].0
    decreases n
  {
    if n > 0 {
      SpansIncreasing(lens, n - 1);
      SpansBounded(lens, n - 1);
      var before := Spans(lens, n - 1);
      var tail := if lens[n - 1] != 0 then [(n - 1, n - 1 + lens[n - 1])] else [];
      var r := Spans(lens, n);
      assert r == before + tail;
      forall i, j | 0 <= i < j < |r|
        ensures r[i].0 < r[j].0
      {
        assert r[i] == before[i];
        assert r[i] in before;
        if j < |before| {
          assert r[j] == before[j];
        } else {
          assert r[j] == tail[0];
        }
      }
    }
  }

  /** Some span in `r` starts at `s`. */
  ghost predicate HasSpan(r: seq<(nat, nat)>, s: nat)
  {
    exists i :: 0 <= i < |r| && r[i].0 == s
  }

  lemma {:induction false} SpansComplete(lens: seq<nat>, n: nat)
    requires n <= |lens|
    ensures forall s :: 0 <= s < n && lens[s] != 0 ==> HasSpan(Spans(lens, n), s)
    decreases n
  {
    if n > 0 {
      SpansComplete(lens, n - 1);
      var before := Spans(lens, n - 1);
      var tail := if lens[n - 1] != 0 then [(n - 1, n - 1 + lens[n - 1])] else [];
      var r := Spans(lens, n);
      assert r == before + tail;
      forall s | 0 <= s < n && lens[s] != 0
        ensures HasSpan(r, s)
      {
        if s < n - 1 {
          var i :| 0 <= i < |before| && before[i].0 == s;
          assert r[i].0 == s;
        } else {
          assert r[|before|].0 == s;
        }
      }
    }
  }

  /** One more start offset: findall appends the span found there, if it is not empty. */
  lemma {:induction false} SpansStep(nfa: Nfa, words: seq<Token>, counter: nat, best: nat)
    requires counter < |words| && best == Longest(nfa.states, nfa.start, words[counter..], |words[counter..]|)
    ensures Spans(MatchLengths(nfa, words), counter + 1) ==
      Spans(MatchLengths(nfa, words), counter) + (if best != 0 then [(counter, counter + best)] else [])
  {
    var lens := MatchLengths(nfa, words);
    assert lens[counter] == best;
  }

  /**
   * The match length at offset `s` is that of the longest non-empty run of
   * tokens from `s` the automaton accepts, and 0 exactly when it accepts none.
   */
  lemma {:induction false} MatchAtIsLongest(nfa: Nfa, words: seq<Token>, s: nat)
    requires s <= |words|
    ensures var k := MatchAt(nfa, words, s);
      s + k <= |words| &&
      (k == 0 || Accepts(nfa.states, nfa.start, words[s..s + k])) &&
      (forall j :: s + k < j <= |words| ==> !Accepts(nfa.states, nfa.start, words[s..j])) &&
      (k == 0 <==> forall j :: s < j <= |words| ==> !Accepts(nfa.states, nfa.start, words[s..j]))
  {
    var rest := words[s..];
    var k := MatchAt(nfa, words, s);
    LongestIsLargest(nfa.states, nfa.start, rest, |rest|);
    assert rest[..k] == words[s..s + k];
    forall j | s < j <= |words|
      ensures rest[..j - s] == words[s..j]
    {
    }
  }

  /**
   * findall: try every start offset in order and keep the span of the
   * longest match there, if it is not empty.
   */
  method FindAll(nfa: Nfa, words: seq<Token>) returns (coords: seq<(nat, nat)>)
    requires ValidArena(nfa.states) && nfa.start < |nfa.states|
    ensures coords == Spans(MatchLengths(nfa, words), |words|)
    ensures |words| == 0 ==> coords == []
  {
    coords := [];
    var counter := 0;
    while counter < |words|
      invariant counter <= |words|
      invariant coords == Spans(MatchLengths(nfa, words), counter)
    {
      var bestMatch := ExtractBestMatch(nfa, words[counter..]);
      SpansStep(nfa, words, counter, bestMatch);
      if bestMatch != 0 {
        coords := coords + [(counter, counter + bestMatch)];
      }
      counter := counter + 1;
    }
  }

  // ---------------------------------------------------------------------------
  // The constructor.
  // ---------------------------------------------------------------------------

  /** A compiled pattern: its text and the automaton built from it. */
  datatype Matcher = Matcher(pattern: string, nfa: Nfa)

  /** Why PatternMatcher(pattern) raises: the lexer found nothing, the parser failed, or the builder failed. */
  datatype CompileError = LexFailed(lex: LexError) | ParseFailed(parse: ParseError) | BuildFailed(build: BuildError)

  /** What PatternMatcher(pattern) builds or raises, as a function of the pattern. */
  function CompileResult(pattern: string): Result<Nfa, CompileError>
  {
    var found := PatternLexer.FindAll(pattern, 0);
    if found == [] then Failure(LexFailed(NoTokens)) else CompileTokens(InsertConcat(found))
  }

  /** Parse the token list, then build. */
  function CompileTokens(ts: seq<Lexeme>): Result<Nfa, CompileError>
  {
    match ParsePattern(ts)
    case Failure(e) => Failure(ParseFailed(e))
    case Success(postfix) => CompilePostfix(postfix)
  }

  /** Build the automaton from a postfix list. */
  function CompilePostfix(postfix: seq<Lexeme>): Result<Nfa, CompileError>
  {
    match BuildResult(postfix)
    case Failure(e) => Failure(BuildFailed(e))
    case Success(nfa) => Success(nfa)
  }

  /** PatternMatcher.__init__: tokenize, parse to postfix, build the automaton. */
  method NewMatcher(pattern: string) returns (r: Result<Matcher, CompileError>)
    ensures r.Success? <==> CompileResult(pattern).Success?
    ensures r.Success? ==> r.value == Matcher(pattern, CompileResult(pattern).value)
    ensures r.Failure? ==> r.error == CompileResult(pattern).error
  {
    var lexed := TokenizePattern(pattern);
    if lexed.Failure? {
      return Failure(LexFailed(lexed.error));
    }
    var ts := lexed.value;
    assert CompileResult(pattern) == CompileTokens(ts);
    var parser := new Parser(ts);
    ghost var expected := ParseExp(ts, 0);
    var parsed := parser.Parse();
    if expected.Success? {
      assert [] + expected.value.out == expected.value.out;
    }
    assert parsed == ParsePattern(ts);
    if parsed.Failure? {
      return Failure(ParseFailed(parsed.error));
    }
    assert CompileTokens(ts) == CompilePostfix(parsed.value);
    var built := BuildNfa(parsed.value);
    if built.Failure? {
      return Failure(BuildFailed(built.error));
    }
    r := Success(Matcher(pattern, built.value));
  }

  /**
   * The builder never fails on what the parser accepts: a pattern is
   * rejected only by the lexer or the parser, and an accepted pattern gives
   * an automaton with exactly one accepting state that the simulation can run.
   */
  lemma {:induction false} CompileNeverFailsInBuilder(pattern: string)
    ensures !CompileResult(pattern).Failure? || !CompileResult(pattern).error.BuildFailed?
    ensures CompileResult(pattern).Success? ==> exists e :: WellBuilt(CompileResult(pattern).value, e)
    ensures CompileResult(pattern).Success? ==>
      ValidArena(CompileResult(pattern).value.states) && CompileResult(pattern).value.start < |CompileResult(pattern).value.states|
  {
    var found := PatternLexer.FindAll(pattern, 0);
    if found != [] {
      var ts := InsertConcat(found);
      ParsePatternSound(ts);
      if ParsePattern(ts).Success? {
        var postfix := ParsePattern(ts).value;
        BuildResultErrors(postfix);
        BuildResultWellBuilt(postfix);
        var e :| WellBuilt(BuildResult(postfix).value, e);
        WellBuiltValid(BuildResult(postfix).value, e);
      }
    }
  }

  /** A WellBuilt automaton's edges all stay in its arena. */
  lemma {:induction false} WellBuiltValid(nfa: Nfa, e: nat)
    requires WellBuilt(nfa, e)
    ensures ValidArena(nfa.states) && nfa.start < |nfa.states|
  {
    var g := nfa.states;
    forall q | 0 <= q < |g|
      ensures (forall j :: 0 <= j < |g[q].epsilon| ==> g[q].epsilon[j] < |g|) &&
              (forall j :: 0 <= j < |g[q].transitions| ==> g[q].transitions[j].target < |g|)
    {
      assert forall t :: t in Targets(g[q]) ==> t < |g|;
      forall j | 0 <= j < |g[q].epsilon|
        ensures g[q].epsilon[j] < |g|
      {
        assert g[q].epsilon[j] in Targets(g[q]);
      }
      forall j | 0 <= j < |g[q].transitions|
        ensures g[q].transitions[j].target < |g|
      {
        assert g[q].transitions[j].target in Targets(g[q]);
      }
    }
  }
}
