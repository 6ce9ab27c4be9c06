/**
 * extract_best_match's set-of-states simulation, read as walks: after the
 * tokens `w` the simulation holds exactly the states some walk from the
 * start state reaches while consuming `w`.
 */
module NfaSimulation {
  import opened Schemes
  import opened PatternMatcher
  import opened NfaLanguage

  /** An epsilon path of states is a walk of epsilon edges that consumes nothing. */
  lemma {:induction false} PathToEdges(g: seq<State>, path: seq<nat>) returns (es: seq<Edge>)
    requires EpsWalk(g, path)
    ensures Walk(g, 0, |g|, path[0], es, path[|path| - 1]) && Word(es) == []
    decreases |path|
  {
    if |path| == 1 {
      es := [];
    } else {
      var rest := path[1..];
      assert EpsWalk(g, rest) by {
        forall i | 0 <= i < |rest| - 1
          ensures rest[i + 1] in g[rest[i]].epsilon
        {
          assert rest[i] == path[i + 1] && rest[i + 1] == path[i + 2];
        }
      }
      var tail := PathToEdges(g, rest);
      var e := Eps(path[0], path[1]);
      assert IsEdge(g, 0, |g|, e);
      Prepend(g, 0, |g|, e, tail, path[|path| - 1]);
      es := [e] + tail;
    }
  }

  /** A walk that consumes nothing uses epsilon edges only. */
  lemma {:induction false} EdgesToReach(g: seq<State>, p: nat, es: seq<Edge>, q: nat)
    requires Walk(g, 0, |g|, p, es, q) && Word(es) == []
    ensures EpsReach(g, p, q)
    decreases |es|
  {
    if es == [] {
      ReachSelf(g, p);
    } else {
      var e := es[0];
      WalkEnds(g, 0, |g|, e.to, es[1..], q);
      Prepend(g, 0, |g|, e, es[1..], q);
      assert [e] + es[1..] == es;
      EdgesToReach(g, e.to, es[1..], q);
      ReachPrepend(g, p, e.to, q);
    }
  }

  /** A non-empty walk is a shorter walk followed by its last edge. */
  lemma {:induction false} WalkLast(g: seq<State>, lo: nat, hi: nat, p: nat, es: seq<Edge>, q: nat)
    requires Walk(g, lo, hi, p, es, q) && es != []
    ensures Walk(g, lo, hi, p, es[..|es| - 1], es[|es| - 1].from)
    ensures IsEdge(g, lo, hi, es[|es| - 1]) && es[|es| - 1].to == q
    ensures Word(es) == Word(es[..|es| - 1]) + (if es[|es| - 1].Sym? then [es[|es| - 1].token] else [])
    decreases |es|
  {
    var init, e := es[..|es| - 1], es[|es| - 1];
    assert es == init + [e];
    WordAppend(init, [e]);
    assert Word([e]) == (if e.Sym? then [e.token] else []) + Word([]);
    if |es| == 1 {
      assert init == [];
    } else {
      WalkLast(g, lo, hi, es[0].to, es[1..], q);
      assert es[1..][..|es| - 2] == init[1..];
      assert init == [es[0]] + init[1..];
      Prepend(g, lo, hi, es[0], init[1..], e.from);
    }
  }

  /** A walk is still a walk when it ends in `q`, and `q` is then in range. */
  lemma {:induction false} WalkEnds(g: seq<State>, lo: nat, hi: nat, p: nat, es: seq<Edge>, q: nat)
    requires Walk(g, lo, hi, p, es, q)
    ensures lo <= q < hi && lo <= p < hi
    decreases |es|
  {
    if es != [] {
      WalkEnds(g, lo, hi, es[0].to, es[1..], q);
    }
  }

  /**
   * A walk that consumes `v + [t]` splits at the transition that consumes
   * the last token: a walk consuming `v` before it, an epsilon-only walk after.
   */
  lemma {:induction false} LastSym(g: seq<State>, p: nat, es: seq<Edge>, q: nat, v: seq<Token>, t: Token) returns (i: nat)
    requires Walk(g, 0, |g|, p, es, q) && Word(es) == v + [t]
    ensures i < |es| && es[i].Sym? && es[i].token == t && IsEdge(g, 0, |g|, es[i])
    ensures Walk(g, 0, |g|, p, es[..i], es[i].from) && Word(es[..i]) == v
    ensures Walk(g, 0, |g|, es[i].to, es[i + 1..], q) && Word(es[i + 1..]) == []
    decreases |es|
  {
    assert es != [];
    WalkLast(g, 0, |g|, p, es, q);
    var init, e := es[..|es| - 1], es[|es| - 1];
    if e.Sym? {
      assert Word(init) + [e.token] == v + [t];
      assert Word(init) == (v + [t])[..|v|] == v;
      i := |es| - 1;
      assert es[..i] == init && es[i + 1..] == [];
    } else {
      assert Word(init) == v + [t];
      i := LastSym(g, p, init, e.from, v, t);
      assert es[..i] == init[..i];
      assert es[i + 1..] == init[i + 1..] + [e];
      WalkEnds(g, 0, |g|, es[i].to, init[i + 1..], e.from);
      Prepend(g, 0, |g|, e, [], q);
      assert [e] + [] == [e];
      WalkAppend(g, 0, |g|, es[i].to, init[i + 1..], e.from, [e], q);
      WordAppend(init[i + 1..], [e]);
    }
  }

  /** Every state the simulation holds after `w` is reached from the start by a walk consuming `w`. */
  lemma {:induction false} SimSound(g: seq<State>, start: nat, w: seq<Token>, q: nat) returns (es: seq<Edge>)
    requires ValidArena(g) && q in Sim(g, start, w)
    ensures q < |g| && Walk(g, 0, |g|, start, es, q) && Word(es) == w
    decreases |w|
  {
    if w == [] {
      var path :| EpsWalk(g, path) && path[0] == start && path[|path| - 1] == q;
      es := PathToEdges(g, path);
    } else {
      var v, t := w[..|w| - 1], w[|w| - 1];
      var e := MovedFrom(g, Sim(g, start, v), t, q);
      var a := SimSound(g, start, v, e.from);
      es := SymThenEps(g, start, a, e, q);
      assert v + [t] == w;
    }
  }

  /** A state after reading `t` from `s` is reached by a transition out of `s` consuming `t`, then epsilon edges. */
  lemma {:induction false} MovedFrom(g: seq<State>, s: set<nat>, t: Token, q: nat) returns (e: Edge)
    requires ValidArena(g) && q in Next(g, s, t)
    ensures e.Sym? && e.token == t && e.from in s && IsEdge(g, 0, |g|, e) && EpsReach(g, e.to, q)
  {
    var m :| m in Moves(g, s, t) && EpsReach(g, m, q);
    var p, j :| p in s && 0 <= p < |g| && 0 <= j < |g[p].transitions| &&
      IsCorrectToken(g[p].transitions[j].pred, t) && g[p].transitions[j].target == m;
    e := Sym(p, m, t);
  }

  /** A walk, then a transition consuming a token, then epsilon edges. */
  lemma {:induction false} SymThenEps(g: seq<State>, start: nat, a: seq<Edge>, e: Edge, q: nat) returns (es: seq<Edge>)
    requires Walk(g, 0, |g|, start, a, e.from) && e.Sym? && IsEdge(g, 0, |g|, e) && EpsReach(g, e.to, q)
    ensures q < |g| && Walk(g, 0, |g|, start, es, q) && Word(es) == Word(a) + [e.token]
  {
    var path :| EpsWalk(g, path) && path[0] == e.to && path[|path| - 1] == q;
    var b := PathToEdges(g, path);
    Prepend(g, 0, |g|, e, b, q);
    WalkAppend(g, 0, |g|, start, a, e.from, [e] + b, q);
    WordAppend(a, [e] + b);
    es := a + ([e] + b);
    WalkEnds(g, 0, |g|, start, es, q);
  }

  /** Every state reached from the start by a walk consuming `w` is held by the simulation after `w`. */
  lemma {:induction false} SimComplete(g: seq<State>, start: nat, w: seq<Token>, es: seq<Edge>, q: nat)
    requires Walk(g, 0, |g|, start, es, q) && Word(es) == w
    ensures q in Sim(g, start, w)
    decreases |w|
  {
    WalkEnds(g, 0, |g|, start, es, q);
    if w == [] {
      EdgesToReach(g, start, es, q);
      assert ReachFrom(g, {start}, q);
    } else {
      var v, t := w[..|w| - 1], w[|w| - 1];
      assert w == v + [t];
      var i := LastSym(g, start, es, q, v, t);
      var p, m := es[i].from, es[i].to;
      SimComplete(g, start, v, es[..i], p);
      var j :| 0 <= j < |g[p].transitions| && g[p].transitions[j].target == m && IsCorrectToken(g[p].transitions[j].pred, t);
      assert m in Moves(g, Sim(g, start, v), t);
      EdgesToReach(g, m, es[i + 1..], q);
      assert ReachFrom(g, Moves(g, Sim(g, start, v), t), q);
    }
  }

  /** The simulation after `w` holds exactly the states some walk from the start reaches while consuming `w`. */
  lemma {:induction false} SimIsWalks(g: seq<State>, start: nat, w: seq<Token>, q: nat)
    requires ValidArena(g)
    ensures q in Sim(g, start, w) <==> q < |g| && Lang(g, 0, |g|, start, q, w)
  {
    if q in Sim(g, start, w) {
      var es := SimSound(g, start, w, q);
    }
    if q < |g| && Lang(g, 0, |g|, start, q, w) {
      var es :| Walk(g, 0, |g|, start, es, q) && Word(es) == w;
      SimComplete(g, start, w, es, q);
    }
  }

  /** The automaton accepts `w` exactly when a walk from the start to an accepting state consumes `w`. */
  lemma {:induction false} AcceptsIsWalk(g: seq<State>, start: nat, w: seq<Token>)
    requires ValidArena(g)
    ensures Accepts(g, start, w) <==> exists q :: 0 <= q < |g| && g[q].isEnd && Lang(g, 0, |g|, start, q, w)
  {
    if Accepts(g, start, w) {
      var q :| q in Sim(g, start, w) && 0 <= q < |g| && g[q].isEnd;
      SimIsWalks(g, start, w, q);
    }
    if exists q :: 0 <= q < |g| && g[q].isEnd && Lang(g, 0, |g|, start, q, w) {
      var q :| 0 <= q < |g| && g[q].isEnd && Lang(g, 0, |g|, start, q, w);
      SimIsWalks(g, start, w, q);
    }
  }
}
