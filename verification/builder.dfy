/**
 * Thompson's construction (build_nfa). The State objects the source links by
 * reference live here in an arena: a sequence of State records that refer to
 * one another by index. A new State is appended to the arena; changing a
 * State in place replaces its slot.
 *
 * The construction is specified as a left fold of `Step` over the postfix
 * tokens; BuildNfa performs the same updates in a loop and is proved equal to
 * the fold. The fold also records, for the proofs, the arena range each
 * fragment on the stack occupies.
 */
module NfaBuilder {
  import opened Wrappers
  import opened Schemes
  import opened PatternLexer
  import opened Postfix

  /** The two ways build_nfa fails: a pop on an empty stack, and a final stack that is not one fragment. */
  datatype BuildError = StackUnderflow | BadStackSize(size: nat)

  /** The automaton build_nfa returns: the arena and the index of the start state. */
  datatype Nfa = Nfa(states: seq<State>, start: nat)

  /**
   * The builder's state between tokens: the arena, the fragment stack, and
   * the arena offsets where the fragments' states begin (`bounds[k]` for
   * fragment k, with `|states|` last).
   */
  datatype Build = Build(states: seq<State>, stack: seq<Fragment>, bounds: seq<nat>)

  /** Every fragment's start and end index the arena, and there is one bound per fragment plus one. */
  predicate Indexed(b: Build)
  {
    |b.bounds| == |b.stack| + 1 &&
    forall k :: 0 <= k < |b.stack| ==> b.stack[k].start < |b.states| && b.stack[k].end < |b.states|
  }

  /** `s.epsilon.append(j)` on the state in slot `i`. */
  function AddEpsilon(st: seq<State>, i: nat, j: nat): (r: seq<State>)
    requires i < |st|
    ensures |r| == |st| && r[i].epsilon == st[i].epsilon + [j]
    ensures r[i].transitions == st[i].transitions && r[i].isEnd == st[i].isEnd
    ensures forall q :: 0 <= q < |st| && q != i ==> r[q] == st[q]
  {
    st[i := st[i].(epsilon := st[i].epsilon + [j])]
  }

  /** `s.is_end = flag` on the state in slot `i`. */
  function SetEnd(st: seq<State>, i: nat, flag: bool): (r: seq<State>)
    requires i < |st|
    ensures |r| == |st| && r[i].isEnd == flag
    ensures r[i].epsilon == st[i].epsilon && r[i].transitions == st[i].transitions
    ensures forall q :: 0 <= q < |st| && q != i ==> r[q] == st[q]
  {
    st[i := st[i].(isEnd := flag)]
  }

  /** One iteration of build_nfa's loop; None where `stack.pop()` meets an empty stack. */
  function Step(b: Build, tok: Lexeme): (r: Option<Build>)
    requires Indexed(b)
    ensures r.Some? ==> Indexed(r.value)
    ensures r.None? <==> |b.stack| < Pops(tok)
    ensures r.Some? ==> |r.value.stack| == |b.stack| - Pops(tok) + 1
  {
    if IsBinary(tok) && |b.stack| < 2 then None
    else if IsUnary(tok) && |b.stack| < 1 then None
    else if tok == Op('&') then Some(ConcatStep(b))
    else if tok == Op('|') then Some(AltStep(b))
    else if tok == Op('*') || tok == Op('+') then Some(RepeatStep(b, tok == Op('*')))
    else if tok == Op('?') then Some(OptStep(b))
    else Some(AtomStep(b, tok))
  }

  /** `&`: the first fragment's end stops accepting and gets an epsilon edge to the second's start. */
  function ConcatStep(b: Build): (r: Build)
    requires Indexed(b) && |b.stack| >= 2
    ensures Indexed(r) && |r.stack| == |b.stack| - 1 && |r.states| == |b.states|
    ensures r.stack == b.stack[..|b.stack| - 2] + [StartEndPair(b.stack[|b.stack| - 2].start, b.stack[|b.stack| - 1].end)]
    ensures r.bounds == b.bounds[..|b.stack| - 1] + [b.bounds[|b.stack|]]
  {
    var st, sk, bd := b.states, b.stack, b.bounds;
    var n1, n2 := sk[|sk| - 2], sk[|sk| - 1];
    var st1 := SetEnd(st, n1.end, false);
    var st2 := AddEpsilon(st1, n1.end, n2.start);
    var st3 := SetEnd(st2, n2.end, true);
    Build(st3, sk[..|sk| - 2] + [StartEndPair(n1.start, n2.end)], bd[..|bd| - 2] + [bd[|bd| - 1]])
  }

  /** `|`: a new start with epsilon edges to both fragments, and a new accepting end both lead to. */
  function AltStep(b: Build): (r: Build)
    requires Indexed(b) && |b.stack| >= 2
    ensures Indexed(r) && |r.stack| == |b.stack| - 1 && |r.states| == |b.states| + 2
    ensures r.stack == b.stack[..|b.stack| - 2] + [StartEndPair(|b.states|, |b.states| + 1)]
    ensures r.bounds == b.bounds[..|b.stack| - 1] + [|b.states| + 2]
  {
    var st, sk, bd, c := b.states, b.stack, b.bounds, |b.states|;
    var n1, n2 := sk[|sk| - 2], sk[|sk| - 1];
    var st0 := st + [NewState([n1.start, n2.start], []), NewState([], [])];
    var st1 := AddEpsilon(st0, n1.end, c + 1);
    var st2 := AddEpsilon(st1, n2.end, c + 1);
    var st3 := SetEnd(st2, n1.end, false);
    var st4 := SetEnd(st3, n2.end, false);
    var st5 := SetEnd(st4, c + 1, true);
    Build(st5, sk[..|sk| - 2] + [StartEndPair(c, c + 1)], bd[..|bd| - 2] + [c + 2])
  }

  /**
   * `*` and `+`: a new start and a new accepting end; the fragment's end
   * loops back to its start and leads to the new end, and for `*` the new
   * start also skips straight to the new end.
   */
  function RepeatStep(b: Build, star: bool): (r: Build)
    requires Indexed(b) && |b.stack| >= 1
    ensures Indexed(r) && |r.stack| == |b.stack| && |r.states| == |b.states| + 2
    ensures r.stack == b.stack[..|b.stack| - 1] + [StartEndPair(|b.states|, |b.states| + 1)]
    ensures r.bounds == b.bounds[..|b.stack|] + [|b.states| + 2]
  {
    var st, sk, bd, c := b.states, b.stack, b.bounds, |b.states|;
    var n1 := sk[|sk| - 1];
    var st0 := st + [NewState([n1.start], []), NewState([], [])];
    var st1 := if star then AddEpsilon(st0, c, c + 1) else st0;
    var st2 := AddEpsilon(AddEpsilon(st1, n1.end, c + 1), n1.end, n1.start);
    var st3 := SetEnd(st2, n1.end, false);
    var st4 := SetEnd(st3, c + 1, true);
    Build(st4, sk[..|sk| - 1] + [StartEndPair(c, c + 1)], bd[..|bd| - 1] + [c + 2])
  }

  /** `?`: an epsilon edge from the fragment's start to its end. */
  function OptStep(b: Build): (r: Build)
    requires Indexed(b) && |b.stack| >= 1
    ensures Indexed(r) && |r.stack| == |b.stack| && |r.states| == |b.states|
    ensures r.stack == b.stack && r.bounds == b.bounds
  {
    var n1 := b.stack[|b.stack| - 1];
    Build(AddEpsilon(b.states, n1.start, n1.end), b.stack, b.bounds)
  }

  /** An atom: an accepting end, and a start whose one transition tests the token and leads to it. */
  function AtomStep(b: Build, tok: Lexeme): (r: Build)
    requires Indexed(b)
    ensures Indexed(r) && |r.stack| == |b.stack| + 1 && |r.states| == |b.states| + 2
    ensures r.stack == b.stack + [StartEndPair(|b.states| + 1, |b.states|)] && r.bounds == b.bounds + [|b.states| + 2]
  {
    var st, sk, bd, c := b.states, b.stack, b.bounds, |b.states|;
    var st0 := st + [NewState([], []), NewState([], [Transition(NewPatternToken(Text(tok)), c)])];
    var st1 := SetEnd(st0, c, true);
    Build(st1, sk + [StartEndPair(c + 1, c)], bd + [c + 2])
  }

  /** The builder's state after the tokens `ts`, or None once a pop has failed. */
  function BuildPrefix(ts: seq<Lexeme>): (r: Option<Build>)
    ensures r.Some? ==> Indexed(r.value)
  {
    if ts == [] then Some(Build([], [], [0]))
    else
      match BuildPrefix(ts[..|ts| - 1])
      case None => None
      case Some(b) => Step(b, ts[|ts| - 1])
  }

  /** What build_nfa returns or raises for the postfix tokens `ts`. */
  function BuildResult(ts: seq<Lexeme>): Result<Nfa, BuildError>
  {
    match BuildPrefix(ts)
    case None => Failure(StackUnderflow)
    case Some(b) =>
      if |b.stack| != 1 then Failure(BadStackSize(|b.stack|))
      else Success(Nfa(b.states, b.stack[0].start))
  }

  /** The fold and the stack discipline agree: the fold fails exactly on underflow, and otherwise has the stack height Run computes. */
  lemma {:induction false} BuildPrefixHeight(ts: seq<Lexeme>)
    ensures BuildPrefix(ts).Some? <==> Run(ts, 0).Some?
    ensures BuildPrefix(ts).Some? ==> |BuildPrefix(ts).value.stack| == Run(ts, 0).value
    decreases |ts|
  {
    if ts != [] {
      var init, last := ts[..|ts| - 1], ts[|ts| - 1];
      assert ts == init + [last];
      BuildPrefixHeight(init);
      RunAppend(init, [last], 0);
    }
  }

  /** build_nfa fails with an empty pop exactly when the tokens are not a valid stack program, and with a size error exactly when they leave other than one fragment. */
  lemma {:induction false} BuildResultErrors(ts: seq<Lexeme>)
    ensures BuildResult(ts) == Failure(StackUnderflow) <==> Run(ts, 0).None?
    ensures forall n: nat :: BuildResult(ts) == Failure(BadStackSize(n)) <==> Run(ts, 0) == Some(n) && n != 1
    ensures BuildResult(ts).Success? <==> WellFormed(ts)
  {
    BuildPrefixHeight(ts);
  }

  /**
   * build_nfa: the loop performs each token's updates on the arena and the
   * stack in the order the source does, and the result is the fold's.
   */
  method BuildNfa(tokens: seq<Lexeme>) returns (r: Result<Nfa, BuildError>)
    ensures r == BuildResult(tokens)
  {
    var states: seq<State> := [];
    var stack: seq<Fragment> := [];
    ghost var bounds: seq<nat> := [0];
    for i := 0 to |tokens|
      invariant BuildPrefix(tokens[..i]) == Some(Build(states, stack, bounds))
    {
      assert tokens[..i + 1][..i] == tokens[..i];
      var token := tokens[i];
      if |stack| < Pops(token) {
        r := Failure(StackUnderflow);
        BuildPrefixUnderflow(tokens, i + 1);
        return;
      }
      if token == Op('&') {
        states, stack, bounds := Concatenate(states, stack, bounds);
      } else if token == Op('|') {
        states, stack, bounds := Alternate(states, stack, bounds);
      } else if token == Op('*') || token == Op('+') {
        states, stack, bounds := Repeat(states, stack, bounds, token == Op('*'));
      } else if token == Op('?') {
        states := Optional(states, stack, bounds);
      } else {
        states, stack, bounds := PushAtom(states, stack, bounds, token);
      }
    }
    assert tokens[..|tokens|] == tokens;
    if |stack| != 1 {
      return Failure(BadStackSize(|stack|));
    }
    r := Success(Nfa(states, stack[|stack| - 1].start));
  }

  /** The `&` branch: the first fragment's end leads on to the second's start. */
  method Concatenate(states: seq<State>, stack: seq<Fragment>, ghost bounds: seq<nat>)
    returns (states': seq<State>, stack': seq<Fragment>, ghost bounds': seq<nat>)
    requires Indexed(Build(states, stack, bounds)) && |stack| >= 2
    ensures Step(Build(states, stack, bounds), Op('&')) == Some(Build(states', stack', bounds'))
  {
    var n2 := stack[|stack| - 1];
    var n1 := stack[|stack| - 2];
    stack' := stack[..|stack| - 2];
    states' := SetEnd(states, n1.end, false);
    states' := AddEpsilon(states', n1.end, n2.start);
    states' := SetEnd(states', n2.end, true);
    stack' := stack' + [StartEndPair(n1.start, n2.end)];
    bounds' := bounds[..|bounds| - 2] + [bounds[|bounds| - 1]];
  }

  /** The `|` branch: a new start forks into both fragments, whose ends join in a new end. */
  method Alternate(states: seq<State>, stack: seq<Fragment>, ghost bounds: seq<nat>)
    returns (states': seq<State>, stack': seq<Fragment>, ghost bounds': seq<nat>)
    requires Indexed(Build(states, stack, bounds)) && |stack| >= 2
    ensures Step(Build(states, stack, bounds), Op('|')) == Some(Build(states', stack', bounds'))
  {
    var c := |states|;
    var n2 := stack[|stack| - 1];
    var n1 := stack[|stack| - 2];
    stack' := stack[..|stack| - 2];
    var s0 := NewState([n1.start, n2.start], []);
    var s3 := NewState([], []);
    states' := states + [s0, s3];
    states' := AddEpsilon(states', n1.end, c + 1);
    states' := AddEpsilon(states', n2.end, c + 1);
    states' := SetEnd(states', n1.end, false);
    states' := SetEnd(states', n2.end, false);
    states' := SetEnd(states', c + 1, true);
    stack' := stack' + [StartEndPair(c, c + 1)];
    bounds' := bounds[..|bounds| - 2] + [c + 2];
  }

  /**
   * The `*` and `+` branches: a new start enters the fragment, whose end
   * loops back to its start or leaves to a new end; for `*` the new start
   * may also skip straight to the new end.
   */
  method Repeat(states: seq<State>, stack: seq<Fragment>, ghost bounds: seq<nat>, star: bool)
    returns (states': seq<State>, stack': seq<Fragment>, ghost bounds': seq<nat>)
    requires Indexed(Build(states, stack, bounds)) && |stack| >= 1
    ensures Step(Build(states, stack, bounds), if star then Op('*') else Op('+')) == Some(Build(states', stack', bounds'))
  {
    var c := |states|;
    var n1 := stack[|stack| - 1];
    stack' := stack[..|stack| - 1];
    var s0 := NewState([n1.start], []);
    var s1 := NewState([], []);
    states' := states + [s0, s1];
    if star {
      states' := AddEpsilon(states', c, c + 1);
    }
    states' := AddEpsilon(AddEpsilon(states', n1.end, c + 1), n1.end, n1.start);
    states' := SetEnd(states', n1.end, false);
    states' := SetEnd(states', c + 1, true);
    stack' := stack' + [StartEndPair(c, c + 1)];
    bounds' := bounds[..|bounds| - 1] + [c + 2];
  }

  /** The `?` branch: the fragment's start may skip straight to its end. */
  method Optional(states: seq<State>, stack: seq<Fragment>, ghost bounds: seq<nat>) returns (states': seq<State>)
    requires Indexed(Build(states, stack, bounds)) && |stack| >= 1
    ensures Step(Build(states, stack, bounds), Op('?')) == Some(Build(states', stack, bounds))
  {
    var n1 := stack[|stack| - 1];
    states' := AddEpsilon(states, n1.start, n1.end);
  }

  /** The atom branch: a new start with one transition, guarded by the token's PatternToken, to a new end. */
  method PushAtom(states: seq<State>, stack: seq<Fragment>, ghost bounds: seq<nat>, token: Lexeme)
    returns (states': seq<State>, stack': seq<Fragment>, ghost bounds': seq<nat>)
    requires Indexed(Build(states, stack, bounds)) && !IsBinary(token) && !IsUnary(token)
    ensures Step(Build(states, stack, bounds), token) == Some(Build(states', stack', bounds'))
  {
    var c := |states|;
    var s1 := NewState([], []);
    var s0 := NewState([], [Transition(NewPatternToken(Text(token)), c)]);
    states' := states + [s1, s0];
    states' := SetEnd(states', c, true);
    stack' := stack + [StartEndPair(c + 1, c)];
    bounds' := bounds + [c + 2];
  }

  /** Once a pop fails, the fold stays failed. */
  lemma {:induction false} BuildPrefixUnderflow(ts: seq<Lexeme>, i: nat)
    requires 0 < i <= |ts| && BuildPrefix(ts[..i]).None?
    ensures BuildPrefix(ts).None?
    decreases |ts| - i
  {
    if i < |ts| {
      assert ts[..i + 1][..i] == ts[..i];
      BuildPrefixUnderflow(ts, i + 1);
    } else {
      assert ts[..i] == ts;
    }
  }

  // ---------------------------------------------------------------------------
  // The shape every fragment on the stack keeps.
  // ---------------------------------------------------------------------------

  /** Where a state's edges lead: its epsilon successors, then its transitions' targets. */
  function Targets(s: State): (r: seq<nat>)
    ensures forall t :: t in r <==> t in s.epsilon || exists j :: 0 <= j < |s.transitions| && s.transitions[j].target == t
  {
    var tt := seq(|s.transitions|, j requires 0 <= j < |s.transitions| => s.transitions[j].target);
    assert forall j :: 0 <= j < |s.transitions| ==> tt[j] == s.transitions[j].target;
    s.epsilon + tt
  }

  predicate NoEdges(s: State) { s.epsilon == [] && s.transitions == [] }

  /**
   * Fragment `f` occupies the arena slots `lo..hi`: its start and end are
   * two of them, every edge from them stays among them, the end has no
   * edges yet, nothing leads back into the start, and the end is the only
   * accepting state among them.
   */
  ghost predicate FragmentOk(st: seq<State>, lo: nat, hi: nat, f: Fragment)
  {
    lo <= f.start < hi && lo <= f.end < hi && f.start != f.end && hi <= |st| &&
    NoEdges(st[f.end]) &&
    (forall q :: lo <= q < hi ==> forall t :: t in Targets(st[q]) ==> lo <= t < hi) &&
    (forall q :: lo <= q < hi ==> f.start !in Targets(st[q])) &&
    (forall q :: lo <= q < hi ==> (st[q].isEnd <==> q == f.end))
  }

  /** The fragments on the stack tile the arena, in order, and each keeps its shape. */
  ghost predicate Inv(b: Build)
  {
    Indexed(b) && b.bounds[0] == 0 && b.bounds[|b.stack|] == |b.states| &&
    (forall i, j :: 0 <= i <= j <= |b.stack| ==> b.bounds[i] <= b.bounds[j]) &&
    forall k :: 0 <= k < |b.stack| ==> FragmentOk(b.states, b.bounds[k], b.bounds[k + 1], b.stack[k])
  }

  /** A fragment's shape depends only on its own slots. */
  lemma {:induction false} FragmentFrame(st: seq<State>, st': seq<State>, lo: nat, hi: nat, f: Fragment)
    requires FragmentOk(st, lo, hi, f) && hi <= |st'|
    requires forall q :: lo <= q < hi ==> st'[q] == st[q]
    ensures FragmentOk(st', lo, hi, f)
  {
  }

  /**
   * A step that replaces the fragments from position `m` up by one fragment
   * over the slots from `bounds[m]` to the end of the new arena, and leaves
   * the slots below `bounds[m]` alone, keeps the invariant.
   */
  lemma {:induction false} ReplaceTop(b: Build, m: nat, st': seq<State>, f: Fragment)
    requires Inv(b) && m <= |b.stack| && |st'| >= |b.states|
    requires FragmentOk(st', b.bounds[m], |st'|, f)
    requires forall q :: 0 <= q < b.bounds[m] ==> st'[q] == b.states[q]
    ensures Inv(Build(st', b.stack[..m] + [f], b.bounds[..m + 1] + [|st'|]))
  {
    var b' := Build(st', b.stack[..m] + [f], b.bounds[..m + 1] + [|st'|]);
    forall k | 0 <= k < m
      ensures FragmentOk(st', b'.bounds[k], b'.bounds[k + 1], b'.stack[k])
    {
      assert b.bounds[k + 1] <= b.bounds[m];
      FragmentFrame(b.states, st', b.bounds[k], b.bounds[k + 1], b.stack[k]);
    }
  }

  lemma {:induction false} ConcatenateInv(b: Build)
    requires Inv(b) && |b.stack| >= 2
    ensures Inv(ConcatStep(b))
  {
    var b' := ConcatStep(b);
    var m := |b.stack| - 2;
    var n1, n2 := b.stack[m], b.stack[m + 1];
    var l1, l2, c := b.bounds[m], b.bounds[m + 1], |b.states|;
    var st, st' := b.states, b'.states;
    assert FragmentOk(st, l1, l2, n1) && FragmentOk(st, l2, c, n2);
    assert forall q :: 0 <= q < c && q != n1.end && q != n2.end ==> st'[q] == st[q];
    assert Targets(st'[n1.end]) == [n2.start];
    assert Targets(st'[n2.end]) == Targets(st[n2.end]);
    assert FragmentOk(st', l1, c, b'.stack[m]);
    ReplaceTop(b, m, st', b'.stack[m]);
  }

  lemma {:induction false} AlternateInv(b: Build)
    requires Inv(b) && |b.stack| >= 2
    ensures Inv(AltStep(b))
  {
    var b' := AltStep(b);
    var m := |b.stack| - 2;
    var n1, n2 := b.stack[m], b.stack[m + 1];
    var st, st' := b.states, b'.states;
    assert FragmentOk(st, b.bounds[m], b.bounds[m + 1], n1) && FragmentOk(st, b.bounds[m + 1], |st|, n2);
    AlternateStates(b);
    AlternateFragment(st, st', b.bounds[m], b.bounds[m + 1], n1, n2);
    assert b' == Build(st', b.stack[..m] + [StartEndPair(|st|, |st| + 1)], b.bounds[..m + 1] + [|st'|]);
    ReplaceTop(b, m, st', StartEndPair(|st|, |st| + 1));
  }

  /** The arena after `|`: the two old ends lead to the new end, and the new start forks. */
  lemma {:induction false} AlternateStates(b: Build)
    requires Inv(b) && |b.stack| >= 2
    ensures var st, st', c := b.states, AltStep(b).states, |b.states|;
      var n1, n2 := b.stack[|b.stack| - 2], b.stack[|b.stack| - 1];
      |st'| == c + 2 &&
      (forall q :: 0 <= q < c && q != n1.end && q != n2.end ==> st'[q] == st[q]) &&
      st'[n1.end] == State([c + 1], [], false) && st'[n2.end] == State([c + 1], [], false) &&
      st'[c] == State([n1.start, n2.start], [], false) && st'[c + 1] == State([], [], true)
  {
    var m := |b.stack| - 2;
    assert FragmentOk(b.states, b.bounds[m], b.bounds[m + 1], b.stack[m]);
    assert FragmentOk(b.states, b.bounds[m + 1], b.bounds[m + 2], b.stack[m + 1]);
  }

  /** The fragment `|` builds from two neighbouring fragments keeps the shape. */
  lemma {:induction false} AlternateFragment(st: seq<State>, st': seq<State>, l1: nat, l2: nat, n1: Fragment, n2: Fragment)
    requires FragmentOk(st, l1, l2, n1) && FragmentOk(st, l2, |st|, n2) && |st'| == |st| + 2
    requires forall q :: 0 <= q < |st| && q != n1.end && q != n2.end ==> st'[q] == st[q]
    requires st'[n1.end] == State([|st| + 1], [], false) && st'[n2.end] == State([|st| + 1], [], false)
    requires st'[|st|] == State([n1.start, n2.start], [], false) && st'[|st| + 1] == State([], [], true)
    ensures FragmentOk(st', l1, |st| + 2, StartEndPair(|st|, |st| + 1))
  {
    var c := |st|;
    forall q | l1 <= q < c + 2
      ensures (forall t :: t in Targets(st'[q]) ==> l1 <= t < c + 2) && c !in Targets(st'[q])
      ensures st'[q].isEnd <==> q == c + 1
    {
      if q == n1.end || q == n2.end || q >= c {
      } else if q < l2 {
        assert st'[q] == st[q];
      } else {
        assert st'[q] == st[q];
      }
    }
  }

  lemma {:induction false} RepeatInv(b: Build, star: bool)
    requires Inv(b) && |b.stack| >= 1
    ensures Inv(RepeatStep(b, star))
  {
    var b' := RepeatStep(b, star);
    var m := |b.stack| - 1;
    var st, st' := b.states, b'.states;
    assert FragmentOk(st, b.bounds[m], |st|, b.stack[m]);
    RepeatStates(b, star);
    RepeatFragment(st, st', b.bounds[m], b.stack[m], star);
    assert b' == Build(st', b.stack[..m] + [StartEndPair(|st|, |st| + 1)], b.bounds[..m + 1] + [|st'|]);
    ReplaceTop(b, m, st', StartEndPair(|st|, |st| + 1));
  }

  /** The arena after `*` or `+`: the old end loops back or leaves, and the new start enters. */
  lemma {:induction false} RepeatStates(b: Build, star: bool)
    requires Inv(b) && |b.stack| >= 1
    ensures var st, st', c := b.states, RepeatStep(b, star).states, |b.states|;
      var n1 := b.stack[|b.stack| - 1];
      |st'| == c + 2 &&
      (forall q :: 0 <= q < c && q != n1.end ==> st'[q] == st[q]) &&
      st'[n1.end] == State([c + 1, n1.start], [], false) &&
      st'[c] == State(if star then [n1.start, c + 1] else [n1.start], [], false) &&
      st'[c + 1] == State([], [], true)
  {
    var m := |b.stack| - 1;
    assert FragmentOk(b.states, b.bounds[m], b.bounds[m + 1], b.stack[m]);
  }

  /** The fragment `*` or `+` builds around the top fragment keeps the shape. */
  lemma {:induction false} RepeatFragment(st: seq<State>, st': seq<State>, l1: nat, n1: Fragment, star: bool)
    requires FragmentOk(st, l1, |st|, n1) && |st'| == |st| + 2
    requires forall q :: 0 <= q < |st| && q != n1.end ==> st'[q] == st[q]
    requires st'[n1.end] == State([|st| + 1, n1.start], [], false)
    requires st'[|st|] == State(if star then [n1.start, |st| + 1] else [n1.start], [], false)
    requires st'[|st| + 1] == State([], [], true)
    ensures FragmentOk(st', l1, |st| + 2, StartEndPair(|st|, |st| + 1))
  {
    var c := |st|;
    forall q | l1 <= q < c + 2
      ensures (forall t :: t in Targets(st'[q]) ==> l1 <= t < c + 2) && c !in Targets(st'[q])
      ensures st'[q].isEnd <==> q == c + 1
    {
      if q == n1.end || q >= c {
      } else {
        assert st'[q] == st[q];
      }
    }
  }

  lemma {:induction false} OptionalInv(b: Build)
    requires Inv(b) && |b.stack| >= 1
    ensures Inv(OptStep(b))
    ensures forall q :: 0 <= q < |b.states| ==> OptStep(b).states[q].isEnd == b.states[q].isEnd
  {
    var m := |b.stack| - 1;
    var n1 := b.stack[m];
    var l1, c := b.bounds[m], |b.states|;
    var st := b.states;
    var st' := AddEpsilon(st, n1.start, n1.end);
    assert FragmentOk(st, l1, c, n1);
    OptionalFragment(st, st', l1, n1);
    assert b.stack == b.stack[..m] + [n1] && b.bounds == b.bounds[..m + 1] + [c];
    ReplaceTop(b, m, st', n1);
  }

  /** The start of a fragment that gains an epsilon edge to its own end keeps the shape. */
  lemma {:induction false} OptionalFragment(st: seq<State>, st': seq<State>, l1: nat, n1: Fragment)
    requires FragmentOk(st, l1, |st|, n1) && st' == AddEpsilon(st, n1.start, n1.end)
    ensures FragmentOk(st', l1, |st|, n1)
  {
    forall q | l1 <= q < |st|
      ensures (forall t :: t in Targets(st'[q]) ==> l1 <= t < |st|) && n1.start !in Targets(st'[q])
      ensures st'[q].isEnd <==> q == n1.end
    {
      if q != n1.start {
        assert st'[q] == st[q];
      } else {
        forall t | t in Targets(st'[q])
          ensures t in Targets(st[q]) || t == n1.end
        {
        }
      }
    }
  }

  lemma {:induction false} PushAtomInv(b: Build, tok: Lexeme)
    requires Inv(b)
    ensures Inv(AtomStep(b, tok))
  {
    var m, c := |b.stack|, |b.states|;
    var p := NewPatternToken(Text(tok));
    var st, st' := b.states, AtomStep(b, tok).states;
    AtomStates(b, tok);
    AtomFragment(st, st', p);
    assert b.stack[..m] == b.stack && b.bounds[..m + 1] == b.bounds;
    ReplaceTop(b, m, st', StartEndPair(c + 1, c));
  }

  /** The arena after an atom: an accepting end with no edges, and a start whose one transition leads to it. */
  lemma {:induction false} AtomStates(b: Build, tok: Lexeme)
    requires Indexed(b)
    ensures var st, st', c := b.states, AtomStep(b, tok).states, |b.states|;
      |st'| == c + 2 && st'[..c] == st && st'[c] == State([], [], true) &&
      st'[c + 1] == State([], [Transition(NewPatternToken(Text(tok)), c)], false)
  {
  }

  /** The two states an atom appends form a fragment. */
  lemma {:induction false} AtomFragment(st: seq<State>, st': seq<State>, p: PatternToken)
    requires |st'| == |st| + 2 && st'[..|st|] == st
    requires st'[|st|] == State([], [], true) && st'[|st| + 1] == State([], [Transition(p, |st|)], false)
    ensures FragmentOk(st', |st|, |st| + 2, StartEndPair(|st| + 1, |st|))
    ensures forall q :: 0 <= q < |st| ==> st'[q] == st[q]
  {
    var c := |st|;
    assert Targets(st'[c]) == [];
    assert Targets(st'[c + 1]) == [c];
    forall q | 0 <= q < c
      ensures st'[q] == st[q]
    {
      assert st'[..c][q] == st'[q];
    }
  }

  /** Every step of the fold keeps the fragments' shape. */
  lemma {:induction false} StepInv(b: Build, tok: Lexeme)
    requires Inv(b) && Step(b, tok).Some?
    ensures Inv(Step(b, tok).value)
  {
    if tok == Op('&') {
      ConcatenateInv(b);
    } else if tok == Op('|') {
      AlternateInv(b);
    } else if tok == Op('*') || tok == Op('+') {
      RepeatInv(b, tok == Op('*'));
    } else if tok == Op('?') {
      OptionalInv(b);
    } else {
      PushAtomInv(b, tok);
    }
  }

  lemma {:induction false} BuildPrefixInv(ts: seq<Lexeme>)
    ensures BuildPrefix(ts).Some? ==> Inv(BuildPrefix(ts).value)
    decreases |ts|
  {
    if ts != [] {
      BuildPrefixInv(ts[..|ts| - 1]);
      if BuildPrefix(ts[..|ts| - 1]).Some? {
        var b := BuildPrefix(ts[..|ts| - 1]).value;
        if Step(b, ts[|ts| - 1]).Some? {
          StepInv(b, ts[|ts| - 1]);
        }
      }
    }
  }

  /**
   * The shape of a successful build_nfa result: every edge stays in the
   * arena, no edge leads back into the start, and exactly one state, other
   * than the start and without edges, is accepting.
   */
  ghost predicate WellBuilt(nfa: Nfa, accept: nat)
  {
    FragmentOk(nfa.states, 0, |nfa.states|, StartEndPair(nfa.start, accept))
  }

  /** build_nfa on well-formed postfix returns a WellBuilt automaton whose accepting state is the last fragment's end. */
  lemma {:induction false} BuildResultWellBuilt(ts: seq<Lexeme>)
    ensures BuildResult(ts).Success? ==> WellBuilt(BuildResult(ts).value, BuildPrefix(ts).value.stack[0].end)
    ensures BuildResult(ts).Success? ==> exists e :: WellBuilt(BuildResult(ts).value, e)
    ensures BuildResult(ts).Success? ==> var nfa := BuildResult(ts).value;
      exists e :: 0 <= e < |nfa.states| && nfa.states[e].isEnd &&
        forall q :: 0 <= q < |nfa.states| && nfa.states[q].isEnd ==> q == e
  {
    BuildPrefixInv(ts);
    if BuildResult(ts).Success? {
      var b := BuildPrefix(ts).value;
      assert FragmentOk(b.states, b.bounds[0], b.bounds[1], b.stack[0]);
      assert WellBuilt(BuildResult(ts).value, b.stack[0].end);
    }
  }
}
