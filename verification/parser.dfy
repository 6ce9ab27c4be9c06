/**
 * The recursive-descent parser that turns the lexer's token list into
 * reverse Polish (postfix) order, following the grammar
 *
 *   exp     ::= term ( '|' exp )?
 *   term    ::= factor ( '&' term )?
 *   factor  ::= primary ( '?' | '*' | '+' )?
 *   primary ::= '(' exp ')' | atom
 *
 * The Parser class keeps the source's state (the token stream, the current
 * token and the output list) and its four mutually recursive methods are
 * proved against the functional reading of the grammar below.
 */
module RecursiveDescentParser {
  import opened Wrappers
  import opened PatternLexer
  import opened Postfix

  /** The two ValueErrors the parser raises, with the offending token. */
  datatype ParseError = ExpectedClose(got: Lexeme) | ExpectedAtom(got: Lexeme)

  /**
   * The parser's view of the stream `ts + [Sentinel]`: the token at `p`,
   * or the end sentinel once the input is used up.
   */
  function Cur(ts: seq<Lexeme>, p: nat): (l: Lexeme)
    ensures p >= |ts| ==> l == Sentinel
    ensures p < |ts| ==> l == ts[p]
  {
    if p < |ts| then ts[p] else Sentinel
  }

  /** A successful parse of a phrase: the postfix it emits and where the next token is. */
  datatype Parsed = Parsed(out: seq<Lexeme>, next: nat)

  predicate IsPostfixOp(l: Lexeme) { l.Op? && l.op in "?*+" }

  /** The tokens the parser copies to its output: atoms by VARS_RE, and operators. */
  predicate Emittable(l: Lexeme) { IsVar(l) || IsBinary(l) || IsUnary(l) }

  // ---------------------------------------------------------------------------
  // The grammar, read as functions of the input and the current position.
  // ---------------------------------------------------------------------------

  /** exp: a term, then optionally `|` and an exp; emits `a b |`. */
  function ParseExp(ts: seq<Lexeme>, p: nat): (r: Result<Parsed, ParseError>)
    requires p <= |ts|
    ensures r.Success? ==> p < r.value.next <= |ts|
    decreases |ts| - p, 3
  {
    match ParseTerm(ts, p)
    case Failure(e) => Failure(e)
    case Success(a) =>
      if Cur(ts, a.next) == Op('|') then
        match ParseExp(ts, a.next + 1)
        case Failure(e) => Failure(e)
        case Success(b) => Success(Parsed(a.out + b.out + [Op('|')], b.next))
      else Success(a)
  }

  /** term: a factor, then optionally `&` and a term; emits `a b &`. */
  function ParseTerm(ts: seq<Lexeme>, p: nat): (r: Result<Parsed, ParseError>)
    requires p <= |ts|
    ensures r.Success? ==> p < r.value.next <= |ts|
    decreases |ts| - p, 2
  {
    match ParseFactor(ts, p)
    case Failure(e) => Failure(e)
    case Success(a) =>
      if Cur(ts, a.next) == Op('&') then
        match ParseTerm(ts, a.next + 1)
        case Failure(e) => Failure(e)
        case Success(b) => Success(Parsed(a.out + b.out + [Op('&')], b.next))
      else Success(a)
  }

  /** factor: a primary, then at most one of `?`, `*`, `+`; emits `a op`. */
  function ParseFactor(ts: seq<Lexeme>, p: nat): (r: Result<Parsed, ParseError>)
    requires p <= |ts|
    ensures r.Success? ==> p < r.value.next <= |ts|
    decreases |ts| - p, 1
  {
    match ParsePrimary(ts, p)
    case Failure(e) => Failure(e)
    case Success(a) =>
      if IsPostfixOp(Cur(ts, a.next)) then Success(Parsed(a.out + [ts[a.next]], a.next + 1))
      else Success(a)
  }

  /** primary: a parenthesised exp, or one atom copied to the output. */
  function ParsePrimary(ts: seq<Lexeme>, p: nat): (r: Result<Parsed, ParseError>)
    requires p <= |ts|
    ensures r.Success? ==> p < r.value.next <= |ts|
    decreases |ts| - p, 0
  {
    if Cur(ts, p) == Op('(') then
      match ParseExp(ts, p + 1)
      case Failure(e) => Failure(e)
      case Success(a) =>
        if Cur(ts, a.next) == Op(')') then Success(Parsed(a.out, a.next + 1))
        else Failure(ExpectedClose(Cur(ts, a.next)))
    else if !IsVar(Cur(ts, p)) then Failure(ExpectedAtom(Cur(ts, p)))
    else
      NotVar(Sentinel);
      Success(Parsed([ts[p]], p + 1))
  }

  /** parse(): one expression from the start; whatever follows it is ignored. */
  function ParsePattern(ts: seq<Lexeme>): Result<seq<Lexeme>, ParseError>
  {
    match ParseExp(ts, 0)
    case Success(a) => Success(a.out)
    case Failure(e) => Failure(e)
  }

  // ---------------------------------------------------------------------------
  // What the parser emits.
  // ---------------------------------------------------------------------------

  /** The elements of `s` that satisfy `keep`, in order. */
  function Filter<T>(s: seq<T>, keep: T -> bool): seq<T>
  {
    if s == [] then [] else (if keep(s[0]) then [s[0]] else []) + Filter(s[1..], keep)
  }

  lemma {:induction false} FilterAppend<T>(a: seq<T>, b: seq<T>, keep: T -> bool)
    ensures Filter(a + b, keep) == Filter(a, keep) + Filter(b, keep)
    decreases |a|
  {
    if a == [] {
      assert a + b == b;
    } else {
      var c := a + b;
      assert c[0] == a[0] && c[1..] == a[1..] + b;
      FilterAppend(a[1..], b, keep);
      var head := if keep(a[0]) then [a[0]] else [];
      assert Filter(c, keep) == head + Filter(a[1..] + b, keep);
      assert Filter(a, keep) == head + Filter(a[1..], keep);
    }
  }

  /** Every element of `s` satisfies `f`. */
  ghost predicate All<T>(s: seq<T>, f: T -> bool)
  {
    forall i :: 0 <= i < |s| ==> f(s[i])
  }

  /** The atoms of a token list (the tokens VARS_RE accepts), in order. */
  function Vars(s: seq<Lexeme>): seq<Lexeme>
  {
    Filter(s, IsVar)
  }

  /**
   * A phrase parsed from `ts[p..a.next]` is sound when it consumed at least
   * one token and never the sentinel, its output is well-formed postfix,
   * holds exactly the phrase's atoms in their original order, and holds
   * nothing but atoms and operators: no parenthesis survives.
   */
  ghost predicate Sound(ts: seq<Lexeme>, p: nat, a: Parsed)
  {
    p < a.next <= |ts| && WellFormed(a.out) && Vars(a.out) == Vars(ts[p..a.next]) &&
    All(a.out, Emittable)
  }

  /** Joining two sound phrases around a binary operator token gives a sound phrase. */
  lemma {:induction false} BinarySound(ts: seq<Lexeme>, p: nat, a: Parsed, b: Parsed, op: Lexeme)
    requires Sound(ts, p, a) && Sound(ts, a.next + 1, b) && IsBinary(op) && !IsVar(op) && ts[a.next] == op
    ensures Sound(ts, p, Parsed(a.out + b.out + [op], b.next))
  {
    BinaryWellFormed(a.out, b.out, op);
    BinaryVars(ts, p, a, b, op);
    BinaryEmittable(a.out, b.out, op);
  }

  lemma {:induction false} BinaryVars(ts: seq<Lexeme>, p: nat, a: Parsed, b: Parsed, op: Lexeme)
    requires p < a.next < b.next <= |ts| && ts[a.next] == op && !IsVar(op)
    requires Vars(a.out) == Vars(ts[p..a.next]) && Vars(b.out) == Vars(ts[a.next + 1..b.next])
    ensures Vars(a.out + b.out + [op]) == Vars(ts[p..b.next])
  {
    var x, y := ts[p..a.next], ts[a.next + 1..b.next];
    SliceAround(ts, p, a.next, b.next);
    assert ts[p..b.next] == x + [op] + y;
    FilterAround(x, a.out, op, y, b.out, IsVar);
  }

  lemma {:induction false} SliceAround<T>(s: seq<T>, i: nat, j: nat, k: nat)
    requires i <= j < k <= |s|
    ensures s[i..k] == s[i..j] + [s[j]] + s[j + 1..k]
  {
  }

  lemma {:induction false} BinaryEmittable(x: seq<Lexeme>, y: seq<Lexeme>, op: Lexeme)
    requires All(x, Emittable) && All(y, Emittable) && IsBinary(op)
    ensures All(x + y + [op], Emittable)
  {
    assert Emittable(op);
    AllAppend(x, y, Emittable);
    AllAppend(x + y, [op], Emittable);
  }

  /** Two phrases and a dropped token between them: what they keep concatenates. */
  lemma {:induction false} FilterAround<T>(x: seq<T>, xo: seq<T>, op: T, y: seq<T>, yo: seq<T>, keep: T -> bool)
    requires Filter(xo, keep) == Filter(x, keep) && Filter(yo, keep) == Filter(y, keep) && !keep(op)
    ensures Filter(xo + yo + [op], keep) == Filter(x + [op] + y, keep)
  {
    FilterSingle(op, keep);
    FilterAppend(xo, yo, keep);
    FilterAppend(xo + yo, [op], keep);
    FilterAppend(x, [op], keep);
    FilterAppend(x + [op], y, keep);
  }

  lemma {:induction false} AllAppend<T>(a: seq<T>, b: seq<T>, f: T -> bool)
    requires All(a, f) && All(b, f)
    ensures All(a + b, f)
  {
  }

  lemma {:induction false} ExpSound(ts: seq<Lexeme>, p: nat)
    requires p <= |ts|
    ensures ParseExp(ts, p).Success? ==> Sound(ts, p, ParseExp(ts, p).value)
    decreases |ts| - p, 3
  {
    TermSound(ts, p);
    match ParseTerm(ts, p)
    case Failure(_) =>
    case Success(a) =>
      if Cur(ts, a.next) == Op('|') {
        ExpSound(ts, a.next + 1);
        match ParseExp(ts, a.next + 1)
        case Failure(_) =>
        case Success(b) =>
          NotVar(Op('|'));
          BinarySound(ts, p, a, b, Op('|'));
      }
  }

  lemma {:induction false} TermSound(ts: seq<Lexeme>, p: nat)
    requires p <= |ts|
    ensures ParseTerm(ts, p).Success? ==> Sound(ts, p, ParseTerm(ts, p).value)
    decreases |ts| - p, 2
  {
    FactorSound(ts, p);
    match ParseFactor(ts, p)
    case Failure(_) =>
    case Success(a) =>
      if Cur(ts, a.next) == Op('&') {
        TermSound(ts, a.next + 1);
        match ParseTerm(ts, a.next + 1)
        case Failure(_) =>
        case Success(b) =>
          NotVar(Op('&'));
          BinarySound(ts, p, a, b, Op('&'));
      }
  }

  lemma {:induction false} FactorSound(ts: seq<Lexeme>, p: nat)
    requires p <= |ts|
    ensures ParseFactor(ts, p).Success? ==> Sound(ts, p, ParseFactor(ts, p).value)
    decreases |ts| - p, 1
  {
    PrimarySound(ts, p);
    match ParsePrimary(ts, p)
    case Failure(_) =>
    case Success(a) =>
      if IsPostfixOp(Cur(ts, a.next)) {
        var op := ts[a.next];
        assert op == Op('?') || op == Op('*') || op == Op('+');
        NotVar(op);
        UnarySound(ts, p, a, op);
      }
  }

  /** A sound phrase followed by a postfix operator token is a sound phrase. */
  lemma {:induction false} UnarySound(ts: seq<Lexeme>, p: nat, a: Parsed, op: Lexeme)
    requires Sound(ts, p, a) && a.next < |ts| && ts[a.next] == op && IsUnary(op) && !IsVar(op)
    ensures Sound(ts, p, Parsed(a.out + [op], a.next + 1))
  {
    UnaryWellFormed(a.out, op);
    UnaryVars(ts, p, a.next, a.out, op);
    UnaryEmittable(a.out, op);
  }

  lemma {:induction false} UnaryVars(ts: seq<Lexeme>, p: nat, q: nat, out: seq<Lexeme>, op: Lexeme)
    requires p < q < |ts| && ts[q] == op && !IsVar(op) && Vars(out) == Vars(ts[p..q])
    ensures Vars(out + [op]) == Vars(ts[p..q + 1])
  {
    SliceSnoc(ts, p, q);
    FilterSnoc(ts[p..q], out, op, IsVar);
  }

  lemma {:induction false} UnaryEmittable(x: seq<Lexeme>, op: Lexeme)
    requires All(x, Emittable) && IsUnary(op)
    ensures All(x + [op], Emittable)
  {
    assert Emittable(op);
    AllAppend(x, [op], Emittable);
  }

  lemma {:induction false} PrimarySound(ts: seq<Lexeme>, p: nat)
    requires p <= |ts|
    ensures ParsePrimary(ts, p).Success? ==> Sound(ts, p, ParsePrimary(ts, p).value)
    decreases |ts| - p, 0
  {
    if Cur(ts, p) == Op('(') {
      ExpSound(ts, p + 1);
      match ParseExp(ts, p + 1)
      case Failure(_) =>
      case Success(a) =>
        if Cur(ts, a.next) == Op(')') {
          ParenSound(ts, p, a);
        }
    } else if IsVar(Cur(ts, p)) {
      NotVar(Sentinel);
      AtomSound(ts, p);
    }
  }

  /** Parentheses around a sound phrase are dropped: the result is still sound. */
  lemma {:induction false} ParenSound(ts: seq<Lexeme>, p: nat, a: Parsed)
    requires p < |ts| && Sound(ts, p + 1, a) && a.next < |ts|
    requires ts[p] == Op('(') && ts[a.next] == Op(')')
    ensures Sound(ts, p, Parsed(a.out, a.next + 1))
  {
    ParenVars(ts, p, a.next, a.out);
    assert WellFormed(a.out) && All(a.out, Emittable);
  }

  lemma {:induction false} ParenVars(ts: seq<Lexeme>, p: nat, q: nat, out: seq<Lexeme>)
    requires p < q < |ts| && Vars(out) == Vars(ts[p + 1..q])
    requires ts[p] == Op('(') && ts[q] == Op(')')
    ensures Vars(out) == Vars(ts[p..q + 1])
  {
    var x := ts[p + 1..q];
    SliceParens(ts, p, q);
    FilterParens(x, out, ts[p], ts[q], IsVar);
  }

  lemma {:induction false} SliceSnoc<T>(s: seq<T>, p: nat, q: nat)
    requires p <= q < |s|
    ensures s[p..q + 1] == s[p..q] + [s[q]]
  {
  }

  lemma {:induction false} SliceParens<T>(s: seq<T>, p: nat, q: nat)
    requires p < q < |s|
    ensures s[p..q + 1] == [s[p]] + s[p + 1..q] + [s[q]]
  {
  }

  /** A single atom is a sound phrase. */
  lemma {:induction false} AtomSound(ts: seq<Lexeme>, p: nat)
    requires p < |ts| && IsVar(ts[p])
    ensures Sound(ts, p, Parsed([ts[p]], p + 1))
  {
    assert ts[p..p + 1] == [ts[p]];
    FilterSingle(ts[p], IsVar);
    assert Run([ts[p]], 0) == Run([], 1);
  }

  lemma {:induction false} FilterSingle<T>(x: T, keep: T -> bool)
    ensures Filter([x], keep) == if keep(x) then [x] else []
  {
    assert [x][1..] == [];
  }

  lemma {:induction false} FilterSnoc<T>(x: seq<T>, xo: seq<T>, op: T, keep: T -> bool)
    requires Filter(xo, keep) == Filter(x, keep) && !keep(op)
    ensures Filter(xo + [op], keep) == Filter(x + [op], keep)
  {
    FilterSingle(op, keep);
    FilterAppend(xo, [op], keep);
    FilterAppend(x, [op], keep);
  }

  lemma {:induction false} FilterParens<T>(x: seq<T>, xo: seq<T>, l: T, r: T, keep: T -> bool)
    requires Filter(xo, keep) == Filter(x, keep) && !keep(l) && !keep(r)
    ensures Filter(xo, keep) == Filter([l] + x + [r], keep)
  {
    FilterSingle(l, keep);
    FilterSingle(r, keep);
    FilterAppend([l], x, keep);
    FilterAppend([l] + x, [r], keep);
  }

  /** Whatever parse() returns is well-formed postfix over the pattern's atoms, without parentheses. */
  lemma {:induction false} ParsePatternSound(ts: seq<Lexeme>)
    ensures ParsePattern(ts).Success? ==> WellFormed(ParsePattern(ts).value)
    ensures ParsePattern(ts).Success? ==> All(ParsePattern(ts).value, Emittable)
    ensures ParsePattern(ts).Success? ==> exists n :: 0 < n <= |ts| && Vars(ParsePattern(ts).value) == Vars(ts[..n])
  {
    ExpSound(ts, 0);
    if ParseExp(ts, 0).Success? {
      var n := ParseExp(ts, 0).value.next;
      assert ts[0..n] == ts[..n];
    }
  }

  /** A primary at the end of the input meets the sentinel, which is no atom, and fails. */
  lemma {:induction false} PrimaryAtEnd(ts: seq<Lexeme>)
    ensures ParsePrimary(ts, |ts|) == Failure(ExpectedAtom(Sentinel))
  {
    NotVar(Sentinel);
  }

  /**
   * A factor is its primary and at most one postfix operator: it succeeds
   * exactly when the primary does, and either emits the primary's postfix
   * unchanged or that followed by the one operator it consumed.
   */
  lemma {:induction false} FactorAtMostOneOperator(ts: seq<Lexeme>, p: nat)
    requires p <= |ts|
    ensures ParseFactor(ts, p).Success? <==> ParsePrimary(ts, p).Success?
    ensures ParseFactor(ts, p).Success? ==>
      var a, f := ParsePrimary(ts, p).value, ParseFactor(ts, p).value;
      (f == a && !IsPostfixOp(Cur(ts, a.next))) ||
      (a.next < |ts| && IsPostfixOp(ts[a.next]) && f == Parsed(a.out + [ts[a.next]], a.next + 1))
  {
  }

  // Worked examples.

  /** `|` nests to the right: `<A>|<B>|<C>` becomes `<A> <B> <C> | |`. */
  lemma {:induction false} AlternationNestsRight()
    ensures ParsePattern([Tag("A"), Op('|'), Tag("B"), Op('|'), Tag("C")]) == Success([Tag("A"), Tag("B"), Tag("C"), Op('|'), Op('|')])
  {
    var ts := [Tag("A"), Op('|'), Tag("B"), Op('|'), Tag("C")];
    IsVarIsAtom(Tag("A")); IsVarIsAtom(Tag("B")); IsVarIsAtom(Tag("C"));
    assert ParseTerm(ts, 4) == Success(Parsed([Tag("C")], 5));
    assert ParseExp(ts, 4) == Success(Parsed([Tag("C")], 5));
    assert ParseTerm(ts, 2) == Success(Parsed([Tag("B")], 3));
    assert Cur(ts, 3) == Op('|');
    assert [Tag("B")] + [Tag("C")] + [Op('|')] == [Tag("B"), Tag("C"), Op('|')];
    assert ParseExp(ts, 2) == Success(Parsed([Tag("B"), Tag("C"), Op('|')], 5));
    assert [Tag("A")] + [Tag("B"), Tag("C"), Op('|')] + [Op('|')] == [Tag("A"), Tag("B"), Tag("C"), Op('|'), Op('|')];
    assert ParseTerm(ts, 0) == Success(Parsed([Tag("A")], 1));
  }
  /** A factor takes at most one postfix operator: the second `*` of `<A>**` is left unread. */
  lemma {:induction false} FactorTakesOneOperator()
    ensures ParsePattern([Tag("A"), Op('*'), Op('*')]) == Success([Tag("A"), Op('*')])
  {
    var ts := [Tag("A"), Op('*'), Op('*')];
    IsVarIsAtom(Tag("A"));
    assert ParsePrimary(ts, 0) == Success(Parsed([Tag("A")], 1));
    assert IsPostfixOp(Cur(ts, 1)) && ts[1] == Op('*');
    assert [Tag("A")] + [Op('*')] == [Tag("A"), Op('*')];
    assert ParseFactor(ts, 0) == Success(Parsed([Tag("A"), Op('*')], 2));
    assert ParseTerm(ts, 0) == Success(Parsed([Tag("A"), Op('*')], 2));
  }
  /** Parsing stops after one expression: a stray `)` after it is ignored without error. */
  lemma {:induction false} TrailingTokensIgnored()
    ensures ParsePattern([Tag("A"), Op(')')]) == Success([Tag("A")])
  {
    var ts := [Tag("A"), Op(')')];
    IsVarIsAtom(Tag("A"));
    assert ParseTerm(ts, 0) == Success(Parsed([Tag("A")], 1));
  }
  /** A primary at the end of the input meets the sentinel, which is no atom: `<A>&(` fails. */
  lemma {:induction false} SentinelIsNoAtom()
    ensures ParsePattern([Tag("A"), Op('&'), Op('(')]) == Failure(ExpectedAtom(Sentinel))
  {
    var ts := [Tag("A"), Op('&'), Op('(')];
    IsVarIsAtom(Tag("A"));
    NotVar(Sentinel);
    assert ParsePrimary(ts, 3) == Failure(ExpectedAtom(Sentinel));
    assert ParseExp(ts, 3) == Failure(ExpectedAtom(Sentinel));
    assert ParseTerm(ts, 2) == Failure(ExpectedAtom(Sentinel));
  }
  /** A parenthesis that is never closed: `(<A>` fails on the sentinel. */
  lemma {:induction false} UnclosedParenthesis()
    ensures ParsePattern([Op('('), Tag("A")]) == Failure(ExpectedClose(Sentinel))
  {
    var ts := [Op('('), Tag("A")];
    IsVarIsAtom(Tag("A"));
    assert ParseExp(ts, 1) == Success(Parsed([Tag("A")], 2));
  }

  // ---------------------------------------------------------------------------
  // The parser object.
  // ---------------------------------------------------------------------------

  class Parser {
    /** The pattern's tokens; the stream the source iterates is these followed by the sentinel. */
    const tokens: seq<Lexeme>
    /** How many tokens of the stream precede the current one. */
    var pos: nat
    var currentToken: Lexeme
    var reversePolishTokens: seq<Lexeme>

    ghost predicate Valid()
      reads this
    {
      pos <= |tokens| && currentToken == Cur(tokens, pos)
    }

    /** The state a phrase leaves behind: its postfix appended and the stream advanced, or its error. */
    ghost predicate Outcome(r: Result<Parsed, ParseError>, out0: seq<Lexeme>, err: Option<ParseError>)
      reads this
    {
      match r
      case Success(a) => err.None? && pos == a.next && reversePolishTokens == out0 + a.out
      case Failure(e) => err == Some(e)
    }

    constructor(tokens: seq<Lexeme>)
      ensures Valid()
      ensures this.tokens == tokens && pos == 0 && reversePolishTokens == []
    {
      this.tokens := tokens;
      pos := 0;
      currentToken := Cur(tokens, 0);
      reversePolishTokens := [];
    }

    /** `next(self.tokens)`: only ever called before the sentinel is reached. */
    method Next()
      requires Valid() && pos < |tokens|
      modifies this
      ensures Valid() && pos == old(pos) + 1
      ensures reversePolishTokens == old(reversePolishTokens)
    {
      pos := pos + 1;
      currentToken := Cur(tokens, pos);
    }

    method Parse() returns (r: Result<seq<Lexeme>, ParseError>)
      requires Valid()
      modifies this
      ensures ParseExp(tokens, old(pos)).Success? ==>
        r == Success(old(reversePolishTokens) + ParseExp(tokens, old(pos)).value.out)
      ensures ParseExp(tokens, old(pos)).Failure? ==> r == Failure(ParseExp(tokens, old(pos)).error)
    {
      var err := Exp();
      match err
      case None => r := Success(reversePolishTokens);
      case Some(e) => r := Failure(e);
    }

    method Exp() returns (err: Option<ParseError>)
      requires Valid()
      modifies this
      ensures Valid()
      ensures Outcome(ParseExp(tokens, old(pos)), old(reversePolishTokens), err)
      decreases |tokens| - pos, 3
    {
      err := Term();
      if err.None? && currentToken == Op('|') {
        var t := currentToken;
        Next();
        err := Exp();
        if err.None? {
          reversePolishTokens := reversePolishTokens + [t];
        }
      }
    }

    method Term() returns (err: Option<ParseError>)
      requires Valid()
      modifies this
      ensures Valid()
      ensures Outcome(ParseTerm(tokens, old(pos)), old(reversePolishTokens), err)
      decreases |tokens| - pos, 2
    {
      err := Factor();
      if err.None? && currentToken == Op('&') {
        var t := currentToken;
        Next();
        err := Term();
        if err.None? {
          reversePolishTokens := reversePolishTokens + [t];
        }
      }
    }

    method Factor() returns (err: Option<ParseError>)
      requires Valid()
      modifies this
      ensures Valid()
      ensures Outcome(ParseFactor(tokens, old(pos)), old(reversePolishTokens), err)
      decreases |tokens| - pos, 1
    {
      err := Primary();
      if err.None? && IsPostfixOp(currentToken) {
        reversePolishTokens := reversePolishTokens + [currentToken];
        Next();
      }
    }

    method Primary() returns (err: Option<ParseError>)
      requires Valid()
      modifies this
      ensures Valid()
      ensures Outcome(ParsePrimary(tokens, old(pos)), old(reversePolishTokens), err)
      decreases |tokens| - pos, 0
    {
      if currentToken == Op('(') {
        Next();
        err := Exp();
        if err.None? {
          if currentToken == Op(')') {
            Next();
          } else {
            err := Some(ExpectedClose(currentToken));
          }
        }
      } else if !IsVar(currentToken) {
        err := Some(ExpectedAtom(currentToken));
      } else {
        NotVar(Sentinel);
        reversePolishTokens := reversePolishTokens + [currentToken];
        Next();
        err := None;
      }
    }
  }
}
