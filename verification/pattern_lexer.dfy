/**
 * The pattern lexer (tokenize_pattern): TOKENS_RE.findall splits the pattern
 * into atoms (`<TAG>`, `"word"`, `.`) and operators (`* + ? ( ) | &`),
 * silently skipping every character at which none of them matches, and an
 * explicit `&` is then inserted wherever concatenation is implicit.
 */
module PatternLexer {
  import opened Wrappers
  import opened Schemes

  /**
   * One token of the pattern language. `Sentinel` is the parser's end marker
   * `##NONE##`; the lexer never produces it.
   */
  datatype Lexeme = Tag(name: string) | Word(body: string) | Wildcard | Op(op: char) | Sentinel

  /** The pattern text of a token, as the source keeps it. */
  function Text(l: Lexeme): string
  {
    match l
    case Tag(n) => "<" + n + ">"
    case Word(b) => "\"" + b + "\""
    case Wildcard => "."
    case Op(c) => [c]
    case Sentinel => "##NONE##"
  }

  /** The operator class `[*+?()|&]`. */
  const Operators: string := "*+?()|&"

  /** The tokens TOKENS_RE can produce. */
  ghost predicate ValidLexeme(l: Lexeme)
  {
    match l
    case Tag(n) => |n| >= 1 && forall j :: 0 <= j < |n| ==> IsUpper(n[j])
    case Word(b) =>
      |b| >= 1 && (forall j :: 0 <= j < |b| ==> IsWordChar(b[j])) &&
      forall j :: 1 <= j < |b| ==> b[j] != '"'
    case Wildcard => true
    case Op(c) => c in Operators
    case Sentinel => false
  }

  datatype LexError = NoTokens

  /**
   * The token TOKENS_RE matches at `i`, with the index just past it: the first
   * alternative that matches wins (tag, word, operator, wildcard).
   */
  function MatchAt(s: string, i: nat): (r: Option<(Lexeme, nat)>)
    requires i < |s|
    ensures r.Some? ==> i < r.value.1 <= |s|
    ensures r.Some? ==> Text(r.value.0) == s[i..r.value.1] && ValidLexeme(r.value.0)
    ensures r.None? ==> s[i] !in Operators && s[i] != '.' && TagMatch(s, i).None? && WordMatch(s, i).None?
  {
    match TagMatch(s, i)
    case Some(k) =>
      TagLexeme(s, i, k);
      Some((Tag(s[i + 1..k - 1]), k))
    case None =>
      match WordMatch(s, i)
      case Some(k) =>
        WordLexeme(s, i, k);
        Some((Word(s[i + 1..k - 1]), k))
      case None =>
        if s[i] in Operators then Some((Op(s[i]), i + 1))
        else if s[i] == '.' then Some((Wildcard, i + 1))
        else None
  }

  /** A POS_TAGS_PATTERN match is the text of the tag it names. */
  lemma {:induction false} TagLexeme(s: string, i: nat, k: nat)
    requires TagShape(s, i, k)
    ensures Text(Tag(s[i + 1..k - 1])) == s[i..k] && ValidLexeme(Tag(s[i + 1..k - 1]))
  {
    assert s[i..k] == "<" + s[i + 1..k - 1] + ">";
  }

  /** The shortest WORD_PATTERN match is the text of the word it quotes. */
  lemma {:induction false} WordLexeme(s: string, i: nat, k: nat)
    requires i < |s| && WordMatch(s, i) == Some(k)
    ensures Text(Word(s[i + 1..k - 1])) == s[i..k] && ValidLexeme(Word(s[i + 1..k - 1]))
  {
    assert s[i..k] == "\"" + s[i + 1..k - 1] + "\"";
    NoInnerQuote(s, i, k);
  }

  /** The shortest quoted word has no quote inside it past its first character. */
  lemma {:induction false} NoInnerQuote(s: string, i: nat, k: nat)
    requires i < |s| && WordMatch(s, i) == Some(k)
    ensures forall j :: i + 2 <= j < k - 1 ==> s[j] != '"'
  {
    forall j | i + 2 <= j < k - 1
      ensures s[j] != '"'
    {
      if s[j] == '"' {
        assert WordShape(s, i, j + 1);
        assert false;
      }
    }
  }

  /** TOKENS_RE.findall(s[i..]): every match, left to right, skipping unmatched characters. */
  function FindAll(s: string, i: nat): (r: seq<Lexeme>)
    requires i <= |s|
    ensures forall l :: l in r ==> ValidLexeme(l)
    decreases |s| - i
  {
    if i == |s| then []
    else match MatchAt(s, i)
      case Some((l, k)) => [l] + FindAll(s, k)
      case None => FindAll(s, i + 1)
  }

  /** VARS_RE.match on a text: it starts with a tag, a quoted word or a dot. */
  predicate VarText(t: string)
  {
    TagMatch(t, 0).Some? || WordMatch(t, 0).Some? || (|t| > 0 && t[0] == '.')
  }

  /**
   * VARS_RE.match on a token's text, decided by the token's kind where the
   * text is a single known character or the sentinel (IsVarMatchesText).
   */
  predicate IsVar(l: Lexeme)
  {
    match l
    case Op(c) => c == '.'
    case Wildcard => true
    case Sentinel => false
    case _ => VarText(Text(l))
  }

  /** IsVar is VARS_RE.match on the token's text, for every token. */
  lemma {:induction false} IsVarMatchesText(l: Lexeme)
    ensures IsVar(l) == VarText(Text(l))
  {
    var t := Text(l);
    match l
    case Op(c) =>
      assert !TagShape(t, 0, 3) && !WordShape(t, 0, 3);
    case Wildcard =>
    case Sentinel =>
      assert t[0] == '#';
    case _ =>
  }

  predicate IsAtom(l: Lexeme) { l.Tag? || l.Word? || l.Wildcard? }

  /** For the tokens the lexer produces, VARS_RE.match recognises exactly the atoms. */
  lemma {:induction false} IsVarIsAtom(l: Lexeme)
    requires ValidLexeme(l) || l == Sentinel
    ensures IsVar(l) <==> IsAtom(l)
  {
    var t := Text(l);
    match l
    case Tag(n) =>
      assert t[0] == '<' && t[|t| - 1] == '>';
      assert TagShape(t, 0, |t|);
    case Word(b) =>
      assert WordShape(t, 0, |t|);
    case Wildcard =>
    case Op(c) =>
    case Sentinel =>
  }

  /** The operator characters and the sentinel never start an atom. */
  lemma {:induction false} NotVar(l: Lexeme)
    requires (l.Op? && l.op != '.') || l == Sentinel
    ensures !IsVar(l)
  {
  }

  /** The concatenation rule: `&` goes between t1 and t2 exactly when this holds. */
  predicate NeedsConcat(t1: Lexeme, t2: Lexeme)
  {
    (IsVar(t1) || (t1.Op? && t1.op in ")*+?")) && (IsVar(t2) || t2 == Op('('))
  }

  /**
   * `ts` with `sep` inserted between every adjacent pair that `needs`; the
   * lexer uses it with NeedsConcat and `&`.
   */
  function Interleave<T>(ts: seq<T>, needs: (T, T) -> bool, sep: T): seq<T>
  {
    if |ts| <= 1 then ts
    else
      var n := |ts|;
      Interleave(ts[..n - 1], needs, sep) + (if needs(ts[n - 2], ts[n - 1]) then [sep] else []) + [ts[n - 1]]
  }

  /** Interleaving one more element appends the separator it needs, then the element. */
  lemma {:induction false} InterleaveSnoc<T>(ts: seq<T>, needs: (T, T) -> bool, sep: T, i: nat)
    requires 1 <= i < |ts|
    ensures Interleave(ts[..i + 1], needs, sep) ==
      Interleave(ts[..i], needs, sep) + (if needs(ts[i - 1], ts[i]) then [sep] else []) + [ts[i]]
  {
    assert ts[..i + 1][..i] == ts[..i];
  }

  /** The token list with the implicit concatenations made explicit. */
  function InsertConcat(ts: seq<Lexeme>): seq<Lexeme>
  {
    Interleave(ts, NeedsConcat, Op('&'))
  }

  /** The number of separators inserted before ts[i]. */
  function Inserted<T>(ts: seq<T>, needs: (T, T) -> bool, i: nat): nat
    requires i < |ts|
  {
    if i == 0 then 0 else Inserted(ts, needs, i - 1) + (if needs(ts[i - 1], ts[i]) then 1 else 0)
  }

  /** Where ts[i] ends up once the separators are inserted. */
  function Pos<T>(ts: seq<T>, needs: (T, T) -> bool, i: nat): nat
    requires i < |ts|
  {
    i + Inserted(ts, needs, i)
  }

  lemma {:induction false} PosPrefix<T>(ts: seq<T>, needs: (T, T) -> bool, m: nat, i: nat)
    requires i < m <= |ts|
    ensures Pos(ts[..m], needs, i) == Pos(ts, needs, i)
  {
    if i > 0 { PosPrefix(ts, needs, m, i - 1); }
  }

  lemma {:induction false} PosMonotone<T>(ts: seq<T>, needs: (T, T) -> bool, i: nat, j: nat)
    requires i <= j < |ts|
    ensures Pos(ts, needs, i) + (j - i) <= Pos(ts, needs, j)
    decreases j - i
  {
    if i < j { PosMonotone(ts, needs, i, j - 1); }
  }
  lemma {:induction false} PosStep<T>(ts: seq<T>, needs: (T, T) -> bool, i: nat)
    requires i + 1 < |ts|
    ensures Pos(ts, needs, i + 1) == Pos(ts, needs, i) + (if needs(ts[i], ts[i + 1]) then 2 else 1)
  {
  }

  /** The interleaved list ends right after the last element of `ts`. */
  lemma {:induction false} InterleaveLength<T>(ts: seq<T>, needs: (T, T) -> bool, sep: T)
    requires |ts| > 0
    ensures |Interleave(ts, needs, sep)| == Pos(ts, needs, |ts| - 1) + 1
  {
    var n := |ts|;
    if n > 1 {
      var init := ts[..n - 1];
      InterleaveLength(init, needs, sep);
      PosPrefix(ts, needs, n - 1, n - 2);
      PosStep(ts, needs, n - 2);
    }
  }
  lemma {:induction false} PosBound<T>(ts: seq<T>, needs: (T, T) -> bool, sep: T, i: nat)
    requires i < |ts|
    ensures Pos(ts, needs, i) < |Interleave(ts, needs, sep)|
  {
    InterleaveLength(ts, needs, sep);
    PosMonotone(ts, needs, i, |ts| - 1);
  }

  /** ts[i] sits at Pos(ts, needs, i) of the interleaved list. */
  lemma {:induction false} InterleaveAt<T>(ts: seq<T>, needs: (T, T) -> bool, sep: T, i: nat)
    requires i < |ts|
    ensures Pos(ts, needs, i) < |Interleave(ts, needs, sep)|
    ensures Interleave(ts, needs, sep)[Pos(ts, needs, i)] == ts[i]
  {
    PosBound(ts, needs, sep, i);
    var n := |ts|;
    if n > 1 {
      var init := ts[..n - 1];
      InterleaveLength(ts, needs, sep);
      InterleaveLength(init, needs, sep);
      PosPrefix(ts, needs, n - 1, n - 2);
      PosStep(ts, needs, n - 2);
      if i < n - 1 {
        InterleaveAt(init, needs, sep, i);
        PosPrefix(ts, needs, n - 1, i);
      }
    }
  }

  /**
   * When `needs` holds of ts[i] and ts[i + 1], the slot right after ts[i]
   * holds the separator. With PosStep and InterleaveAt this accounts for every
   * slot: deleting the inserted separators gives back `ts`.
   */
  lemma {:induction false} InterleaveSepAt<T>(ts: seq<T>, needs: (T, T) -> bool, sep: T, i: nat)
    requires i + 1 < |ts| && needs(ts[i], ts[i + 1])
    ensures Pos(ts, needs, i) + 1 < |Interleave(ts, needs, sep)|
    ensures Interleave(ts, needs, sep)[Pos(ts, needs, i) + 1] == sep
  {
    PosBound(ts, needs, sep, i + 1);
    PosStep(ts, needs, i);
    var n := |ts|;
    var init := ts[..n - 1];
    InterleaveLength(init, needs, sep);
    PosPrefix(ts, needs, n - 1, n - 2);
    PosStep(ts, needs, n - 2);
    if i < n - 2 {
      InterleaveSepAt(init, needs, sep, i);
      PosPrefix(ts, needs, n - 1, i);
    }
  }

  /** tokenize_pattern: the findall split with the implicit concatenations made explicit. */
  method TokenizePattern(pattern: string) returns (r: Result<seq<Lexeme>, LexError>)
    ensures r.Failure? <==> FindAll(pattern, 0) == []
    ensures r.Success? ==> r.value == InsertConcat(FindAll(pattern, 0))
  {
    var found := FindAll(pattern, 0);
    if |found| == 0 {
      // `next` on the exhausted findall iterator
      return Failure(NoTokens);
    }
    var tokens := [found[0]];
    for i := 1 to |found|
      invariant tokens == Interleave(found[..i], NeedsConcat, Op('&'))
    {
      InterleaveSnoc(found, NeedsConcat, Op('&'), i);
      if NeedsConcat(found[i - 1], found[i]) {
        tokens := tokens + [Op('&')];
      }
      tokens := tokens + [found[i]];
    }
    assert found[..|found|] == found;
    return Success(tokens);
  }

  // ---------------------------------------------------------------------------
  // Skipped characters: the lexer only ever drops characters of the pattern.
  // ---------------------------------------------------------------------------

  /** `a` is obtained from `b` by deleting characters. */
  ghost predicate IsSubsequence(a: string, b: string)
    decreases |b|
  {
    a == [] || (b != [] && (IsSubsequence(a, b[1..]) || (a[0] == b[0] && IsSubsequence(a[1..], b[1..]))))
  }

  /** The pattern text of a token list, token after token. */
  function Texts(ls: seq<Lexeme>): string
  {
    if ls == [] then "" else Text(ls[0]) + Texts(ls[1..])
  }

  lemma {:induction false} SubsequenceCommonPrefix(t: string, a: string, b: string)
    requires IsSubsequence(a, b)
    ensures IsSubsequence(t + a, t + b)
    decreases |t|
  {
    if t != [] {
      SubsequenceCommonPrefix(t[1..], a, b);
      assert (t + a)[1..] == t[1..] + a && (t + b)[1..] == t[1..] + b;
      assert IsSubsequence((t + a)[1..], (t + b)[1..]);
    } else {
      assert t + a == a && t + b == b;
    }
  }

  /**
   * The texts of the tokens findall returns, put together, are a subsequence
   * of the pattern: characters are skipped, never invented or reordered.
   */
  lemma {:induction false} FindAllSubsequence(s: string, i: nat)
    requires i <= |s|
    ensures IsSubsequence(Texts(FindAll(s, i)), s[i..])
    decreases |s| - i
  {
    if i < |s| {
      match MatchAt(s, i)
      case Some((l, k)) =>
        var rest := FindAll(s, k);
        assert FindAll(s, i) == [l] + rest;
        assert Texts([l] + rest) == Text(l) + Texts(rest) by {
          assert ([l] + rest)[1..] == rest;
        }
        FindAllSubsequence(s, k);
        SubsequenceCommonPrefix(Text(l), Texts(rest), s[k..]);
        assert s[i..] == s[i..k] + s[k..];
      case None =>
        FindAllSubsequence(s, i + 1);
        assert s[i..][1..] == s[i + 1..];
    }
  }
}
