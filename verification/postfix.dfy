/**
 * The stack discipline of a postfix token list, as the automaton builder
 * evaluates it: an atom pushes one fragment, `&` and `|` pop two and push
 * one, `*`, `+` and `?` pop one and push one. Every other token is treated as
 * an atom, as the builder's final `else` branch does.
 */
module Postfix {
  import opened Wrappers
  import opened PatternLexer

  predicate IsBinary(l: Lexeme) { l == Op('&') || l == Op('|') }

  predicate IsUnary(l: Lexeme) { l == Op('*') || l == Op('+') || l == Op('?') }

  /** How many fragments the builder pops for this token. */
  function Pops(l: Lexeme): nat
  {
    if IsBinary(l) then 2 else if IsUnary(l) then 1 else 0
  }

  /**
   * The stack height after evaluating `s` from height `d`, or None when some
   * token pops more fragments than the stack holds.
   */
  function Run(s: seq<Lexeme>, d: nat): Option<nat>
  {
    if s == [] then Some(d)
    else if d < Pops(s[0]) then None
    else Run(s[1..], d - Pops(s[0]) + 1)
  }

  /** A well-formed postfix list leaves exactly one fragment. */
  ghost predicate WellFormed(s: seq<Lexeme>)
  {
    Run(s, 0) == Some(1)
  }

  /** Evaluating a concatenation is evaluating its halves one after the other. */
  lemma {:induction false} RunAppend(a: seq<Lexeme>, b: seq<Lexeme>, d: nat)
    ensures Run(a + b, d) == if Run(a, d).None? then None else Run(b, Run(a, d).value)
    decreases |a|
  {
    if a == [] {
      assert a + b == b;
    } else if d >= Pops(a[0]) {
      assert (a + b)[1..] == a[1..] + b;
      RunAppend(a[1..], b, d - Pops(a[0]) + 1);
    }
  }

  /** Fragments below the ones a list works on are never touched. */
  lemma {:induction false} RunShift(s: seq<Lexeme>, d: nat, k: nat)
    requires Run(s, d).Some?
    ensures Run(s, d + k) == Some(Run(s, d).value + k)
    decreases |s|
  {
    if s != [] {
      RunShift(s[1..], d - Pops(s[0]) + 1, k);
    }
  }

  /** `a b op` is well-formed when `a` and `b` are and `op` is binary. */
  lemma {:induction false} BinaryWellFormed(a: seq<Lexeme>, b: seq<Lexeme>, op: Lexeme)
    requires WellFormed(a) && WellFormed(b) && IsBinary(op)
    ensures WellFormed(a + b + [op])
  {
    RunAppend(a + b, [op], 0);
    RunAppend(a, b, 0);
    RunShift(b, 0, 1);
  }

  /** `a op` is well-formed when `a` is and `op` is unary. */
  lemma {:induction false} UnaryWellFormed(a: seq<Lexeme>, op: Lexeme)
    requires WellFormed(a) && IsUnary(op)
    ensures WellFormed(a + [op])
  {
    RunAppend(a, [op], 0);
  }
}
