# birchnlp token-pattern matcher, modelled in Dafny

birchnlp finds phrases in text by matching patterns over tagged tokens. A
pattern such as `<ADJ>*<NOUN>("of"|"for")<NOUN>` is a regular expression
whose atoms match single tokens:

- `<TAG>` matches a token whose part-of-speech tag is `TAG`;
- `"word"` matches a token whose text starts with `word`;
- `.` matches any token.

This project models the matcher and the two components around it:

- **The pattern matcher** (`birchnlp/pattern_matcher`). It has four stages:
  - the pattern lexer `tokenize_pattern`, which makes implicit concatenation an explicit `&`;
  - the recursive-descent `Parser`, which emits postfix (reverse Polish) order;
  - `build_nfa`, Thompson's construction of a non-deterministic automaton;
  - the automaton simulation: `addstate` (epsilon closure), `extract_best_match` (the longest accepted prefix) and `findall` (the longest match at every start offset).
- **The text tokenizer** (`birchnlp/tokenizer/tokenizer.py`). It splits text into whitespace chunks, keeps placeholder tokens whole, and peels prefix, suffix and infix punctuation off each chunk (`prepare_token`).
- **The document container** `Birch` (`birchnlp/birch.py`). It covers:
  - token offsets, and rebuilding the text (`__str__`);
  - indexing and `bounds`;
  - sentence boundaries, and splitting into sentences;
  - pattern extraction, sentence by sentence.

## How the model works

**Automaton states.** The source links mutable `State` objects by reference. Here they live in an arena: a `seq<State>` whose slots refer to one another by index. A new `State()` is appended to the arena. Setting `is_end` or appending to `epsilon` replaces that slot.

**Building.** `build_nfa` is specified as a left fold of `NfaBuilder.Step` over the postfix tokens. The method `NfaBuilder.BuildNfa` runs the source's loop and is proved equal to that fold.

**Parsing.** The parser is a class with the source's fields: the token stream position, the current token and the output list. Its four mutually recursive methods are proved against a functional reading of the grammar.

**Simulation.** `addstate`, `extract_best_match` and `findall` are methods. Each is proved against a declarative definition:

- the epsilon closure;
- the simulation `Sim`, and the longest accepted prefix;
- the spans of the longest match at each offset.

**Headline result.** The automaton built from a pattern accepts exactly the token lists in the language of the regular expression (`NfaLanguage.Regex`) that the pattern's postfix list denotes. So the span `findall` reports at an offset is the longest non-empty run of tokens there that is in that language (`PatternLanguage.MatchAtInLanguage`). This holds in two steps:

- `BuildLanguage.BuildPrefixLang` shows that every fragment on the builder's stack accepts the language of the matching expression;
- `NfaSimulation.SimIsWalks` shows that the simulation holds exactly the states that walks consuming the input reach.

The tokenizer's regular expressions are all single-character classes, apart from two fixed patterns: the placeholder `~~specific_token_\d+~~` and the chunk separator `[ \t]+`. They appear as predicates of a `Tokenizer.Config`. The POS tagger is a parameter: a function from the token texts to tags.

**Tokenizing.** `prepare_token` is specified by `Tokenizer.PrepareSpec`, a recursive definition:
- it takes the longest leading run of prefix characters and the longest trailing run of whitespace and suffix characters, one piece per character;
- it splits the core between them at its infix characters, and runs `PrepareSpec` again on every segment between delimiters.

The method `Tokenizer.PrepareToken` runs the source's strip loop and infix loop. It is proved to return exactly `PrepareSpec`. `Tokenizer.StrippedSpec` shows that the order in which the strip loop peels characters cannot change the result.

## Model

| member | source | states |
|---|---|---|
| Schemes.UpperRunEnd | birchnlp/pattern_matcher/schemes.py:12 | The characters from `i` up to the result are upper-case letters, and the one at the result is not. |
| Schemes.QuoteEnd | birchnlp/pattern_matcher/schemes.py:10 | The characters up to the result are word characters other than a quote, and the one at the result is a quote or outside the class. |
| Schemes.TagMatch | birchnlp/pattern_matcher/schemes.py:12 | A result `k` means `s[i..k]` is a `<[A-Z]+?>` match. None means no end position gives one. |
| Schemes.WordMatch | birchnlp/pattern_matcher/schemes.py:10 | A result `k` means `s[i..k]` is a quoted-word match, and no shorter match exists (non-greedy). None means there is no match. |
| Schemes.NewPatternToken | birchnlp/pattern_matcher/schemes.py:30-39 | The token is `pos_tag` exactly when the tag pattern matches at the start. It is `regex` exactly when the tag pattern does not match and the word pattern does. Otherwise it is `unknown`. The tag and the regex keep the text between the delimiters; `unknown` keeps the whole text. |
| Schemes.PatternTokenAccepts | birchnlp/pattern_matcher/schemes.py:52-62 | `is_correct_token`, read from the pattern text: `<NN>` accepts exactly the tokens tagged NN, `"w"` the tokens whose text starts with w, and any other pattern token every token. |
| Schemes.NewState | birchnlp/pattern_matcher/schemes.py:69-75 | A fresh State is not accepting and holds exactly the epsilon list and the transitions it is given. |
| PatternLexer.MatchAt | birchnlp/pattern_matcher/pattern_matcher.py:15-16 | A match at `i` consumes a non-empty slice whose text is exactly the token's, and the token is one TOKENS_RE can produce. There is no match only when no alternative (tag, word, operator, `.`) matches at `i`. |
| PatternLexer.FindAll | birchnlp/pattern_matcher/pattern_matcher.py:141 | Every token `findall` returns is one that TOKENS_RE can produce. |
| PatternLexer.FindAllSubsequence | birchnlp/pattern_matcher/pattern_matcher.py:141 | The texts of the found tokens, joined in order, are a subsequence of the pattern. Unmatched characters are dropped silently; nothing is invented or reordered. |
| PatternLexer.IsVarMatchesText | birchnlp/pattern_matcher/pattern_matcher.py:144-145 | The kind test on a token agrees with `VARS_RE.match` on the token's text, for every token. |
| PatternLexer.IsVarIsAtom | birchnlp/pattern_matcher/pattern_matcher.py:12-13 | On lexer output and on the end sentinel, VARS_RE accepts exactly the atoms: tags, quoted words and `.`. |
| PatternLexer.InterleaveAt | birchnlp/pattern_matcher/pattern_matcher.py:143-147 | Each found token sits in the output at its shifted position `Pos`, so the found tokens keep their order. |
| PatternLexer.InterleaveSepAt | birchnlp/pattern_matcher/pattern_matcher.py:143-147 | When the `&` rule holds for two consecutive tokens, an `&` sits right after the first. |
| PatternLexer.PosStep | birchnlp/pattern_matcher/pattern_matcher.py:143-147 | The next token follows two slots later when the `&` rule holds, and one slot later otherwise. With InterleaveAt and InterleaveSepAt, `&` is inserted exactly where the rule holds. Deleting the inserted `&` gives back the findall list. |
| PatternLexer.InterleaveLength | birchnlp/pattern_matcher/pattern_matcher.py:143-148 | The output ends right after the last found token: it holds nothing else. |
| PatternLexer.TokenizePattern | birchnlp/pattern_matcher/pattern_matcher.py:140-148 | It fails exactly when `findall` finds nothing (`next` on an empty iterator). Otherwise it returns the findall list with `&` inserted by the concatenation rule. |
| RecursiveDescentParser.Cur | birchnlp/pattern_matcher/recursive_descent_parser.py:18-19 | Past the input, the current token is the `##NONE##` sentinel; before that, it is the input token. |
| RecursiveDescentParser.ParseExp | birchnlp/pattern_matcher/recursive_descent_parser.py:25-31 | A successful exp consumes at least one token and stays inside the input, so the sentinel is never consumed. |
| RecursiveDescentParser.ParseTerm | birchnlp/pattern_matcher/recursive_descent_parser.py:33-39 | A successful term consumes at least one token and stays inside the input. |
| RecursiveDescentParser.ParseFactor | birchnlp/pattern_matcher/recursive_descent_parser.py:41-45 | A successful factor consumes at least one token and stays inside the input. |
| RecursiveDescentParser.ParsePrimary | birchnlp/pattern_matcher/recursive_descent_parser.py:47-61 | A successful primary consumes at least one token and stays inside the input. |
| RecursiveDescentParser.ExpSound | birchnlp/pattern_matcher/recursive_descent_parser.py:25-31 | An exp's output is well-formed postfix. It holds exactly the atoms of the tokens consumed, in order, and nothing but atoms and operators. |
| RecursiveDescentParser.TermSound | birchnlp/pattern_matcher/recursive_descent_parser.py:33-39 | The same for a term. |
| RecursiveDescentParser.FactorSound | birchnlp/pattern_matcher/recursive_descent_parser.py:41-45 | The same for a factor. |
| RecursiveDescentParser.PrimarySound | birchnlp/pattern_matcher/recursive_descent_parser.py:47-61 | The same for a primary. |
| RecursiveDescentParser.BinarySound | birchnlp/pattern_matcher/recursive_descent_parser.py:25-39 | Two sound phrases around `|` or `&`, emitted as `a b op`, form a sound phrase. |
| RecursiveDescentParser.UnarySound | birchnlp/pattern_matcher/recursive_descent_parser.py:41-45 | A sound phrase followed by `?`, `*` or `+` forms a sound phrase. |
| RecursiveDescentParser.ParenSound | birchnlp/pattern_matcher/recursive_descent_parser.py:48-52 | A parenthesised phrase is sound, and its parentheses do not reach the output. |
| RecursiveDescentParser.AtomSound | birchnlp/pattern_matcher/recursive_descent_parser.py:57-61 | A single atom copied to the output is a sound phrase. |
| RecursiveDescentParser.ParsePatternSound | birchnlp/pattern_matcher/recursive_descent_parser.py:21-23 | `parse()` returns well-formed postfix (no stack underflow; one fragment left) made only of atoms and operators. Its atoms are, in order, those of some non-empty prefix of the input: trailing tokens are ignored. |
| RecursiveDescentParser.AlternationNestsRight | birchnlp/pattern_matcher/recursive_descent_parser.py:25-31 | `<A>\|<B>\|<C>` becomes `<A> <B> <C> \| \|`. |
| RecursiveDescentParser.PrimaryAtEnd | birchnlp/pattern_matcher/recursive_descent_parser.py:48-59 | Any primary at the end of the input meets the sentinel and fails with "Expected pos_tag or word". |
| RecursiveDescentParser.FactorAtMostOneOperator | birchnlp/pattern_matcher/recursive_descent_parser.py:41-45 | A factor succeeds exactly when its primary does. It emits the primary's postfix unchanged, or followed by the one postfix operator that comes next. |
| RecursiveDescentParser.FactorTakesOneOperator | birchnlp/pattern_matcher/recursive_descent_parser.py:41-45 | Example: `<A>**` gives `<A> *`; the second `*` is left unread. |
| RecursiveDescentParser.TrailingTokensIgnored | birchnlp/pattern_matcher/recursive_descent_parser.py:21-23 | Example: in `<A>)` the stray `)` after the complete expression is ignored without error. |
| RecursiveDescentParser.SentinelIsNoAtom | birchnlp/pattern_matcher/recursive_descent_parser.py:57-59 | Example: `<A>&(` fails with "Expected pos_tag or word" on the end sentinel. |
| RecursiveDescentParser.UnclosedParenthesis | birchnlp/pattern_matcher/recursive_descent_parser.py:48-55 | Example: `(<A>` fails with "Expected ')'" on the end sentinel. |
| RecursiveDescentParser.Parser.constructor | birchnlp/pattern_matcher/recursive_descent_parser.py:16-19 | The output starts empty, and the current token is the first token, or the sentinel. |
| RecursiveDescentParser.Parser.Next | birchnlp/pattern_matcher/recursive_descent_parser.py:18-19 | `next(self.tokens)` advances the stream by one and leaves the output alone. |
| RecursiveDescentParser.Parser.Parse | birchnlp/pattern_matcher/recursive_descent_parser.py:21-23 | It returns the exp's postfix appended to the output, or the exp's error. |
| RecursiveDescentParser.Parser.Exp | birchnlp/pattern_matcher/recursive_descent_parser.py:25-31 | It appends ParseExp's output and moves to ParseExp's next position, or reports its error. |
| RecursiveDescentParser.Parser.Term | birchnlp/pattern_matcher/recursive_descent_parser.py:33-39 | The same, against ParseTerm. |
| RecursiveDescentParser.Parser.Factor | birchnlp/pattern_matcher/recursive_descent_parser.py:41-45 | The same, against ParseFactor. |
| RecursiveDescentParser.Parser.Primary | birchnlp/pattern_matcher/recursive_descent_parser.py:47-61 | The same, against ParsePrimary. |
| NfaBuilder.AddEpsilon | birchnlp/pattern_matcher/pattern_matcher.py:92 | The state in slot `i` gains `j` at the end of its epsilon list. Nothing else in the arena changes. |
| NfaBuilder.SetEnd | birchnlp/pattern_matcher/pattern_matcher.py:91 | Only the accepting flag of slot `i` changes. |
| NfaBuilder.Step | birchnlp/pattern_matcher/pattern_matcher.py:87-132 | It fails exactly when the token pops more fragments than the stack holds. Otherwise the stack height changes by one minus the pops. |
| NfaBuilder.BuildPrefixHeight | birchnlp/pattern_matcher/pattern_matcher.py:87-132 | The build fails exactly when the postfix stack discipline underflows, and otherwise has the height it computes. |
| NfaBuilder.BuildResultErrors | birchnlp/pattern_matcher/pattern_matcher.py:134-137 | Three cases: an empty pop exactly when the stack discipline underflows; the size ValueError with `n` exactly when `n` ≠ 1 fragments remain; success exactly on well-formed postfix. |
| NfaBuilder.BuildNfa | birchnlp/pattern_matcher/pattern_matcher.py:78-137 | The loop returns or raises exactly what the fold does. |
| NfaBuilder.Concatenate | birchnlp/pattern_matcher/pattern_matcher.py:88-95 | The `&` branch performs the fold's step: the updates on the arena and the stack, in the source's order. |
| NfaBuilder.Alternate | birchnlp/pattern_matcher/pattern_matcher.py:97-108 | The `\|` branch performs the fold's step. |
| NfaBuilder.Repeat | birchnlp/pattern_matcher/pattern_matcher.py:110-120 | The `*` and `+` branches perform the fold's step. |
| NfaBuilder.Optional | birchnlp/pattern_matcher/pattern_matcher.py:122-125 | The `?` branch performs the fold's step and leaves the stack as it was. |
| NfaBuilder.PushAtom | birchnlp/pattern_matcher/pattern_matcher.py:127-132 | The atom branch performs the fold's step. |
| NfaBuilder.BuildPrefixUnderflow | birchnlp/pattern_matcher/pattern_matcher.py:89-90 | Once a pop has failed, the whole build fails. |
| NfaBuilder.AlternateStates | birchnlp/pattern_matcher/pattern_matcher.py:97-108 | After `\|`, the new start forks to both old starts. The old ends lead only to the new end and no longer accept. The new end accepts, and no other slot changes. |
| NfaBuilder.RepeatStates | birchnlp/pattern_matcher/pattern_matcher.py:110-120 | After `*` or `+`, the old end leads to the new end and back to the old start. The new start enters the fragment and, for `*` only, skips to the new end. |
| NfaBuilder.AtomStates | birchnlp/pattern_matcher/pattern_matcher.py:127-132 | An atom appends an accepting end without edges, and a start whose only transition, guarded by the token's PatternToken, leads to that end. |
| NfaBuilder.ConcatenateInv | birchnlp/pattern_matcher/pattern_matcher.py:88-95 | `&` keeps the fragment invariant. The fragments tile the arena. In each, edges stay inside, none leads back into the start, the end has no edges, and the end is the only accepting state. |
| NfaBuilder.AlternateInv | birchnlp/pattern_matcher/pattern_matcher.py:97-108 | `\|` keeps the fragment invariant. |
| NfaBuilder.RepeatInv | birchnlp/pattern_matcher/pattern_matcher.py:110-120 | `*` and `+` keep the fragment invariant. |
| NfaBuilder.OptionalInv | birchnlp/pattern_matcher/pattern_matcher.py:122-125 | `?` keeps the fragment invariant. It leaves every state's accepting flag unchanged. |
| NfaBuilder.PushAtomInv | birchnlp/pattern_matcher/pattern_matcher.py:127-132 | Pushing an atom keeps the fragment invariant. |
| NfaBuilder.StepInv | birchnlp/pattern_matcher/pattern_matcher.py:87-132 | Every token keeps the fragment invariant. |
| NfaBuilder.BuildPrefixInv | birchnlp/pattern_matcher/pattern_matcher.py:87-132 | Every fragment on the stack keeps its shape for the whole build: its end is its only accepting state. |
| NfaBuilder.BuildResultWellBuilt | birchnlp/pattern_matcher/pattern_matcher.py:134-137 | A successful build has exactly one accepting state: the last fragment's end, which differs from the start. |
| PatternMatcher.AddState | birchnlp/pattern_matcher/pattern_matcher.py:42-47 | It terminates on epsilon cycles. It adds `state` and only states epsilon-reachable from it. Starting from an epsilon-closed set, it returns exactly that set plus the closure of `state`. |
| PatternMatcher.FollowTransitions | birchnlp/pattern_matcher/pattern_matcher.py:58-61 | It adds the closure of the targets of the state's transitions that accept the token, and the result stays closed. |
| PatternMatcher.NextStates | birchnlp/pattern_matcher/pattern_matcher.py:56-61 | `next_states` is the closure of all moves on the token from the current set, whatever order the set is walked in. |
| PatternMatcher.Max | birchnlp/pattern_matcher/pattern_matcher.py:69 | The result is one of the two values and no less than either. |
| PatternMatcher.LongestIsLargest | birchnlp/pattern_matcher/pattern_matcher.py:49-72 | The specified best match is an accepted prefix length, or 0. No longer prefix up to `n` is accepted. It is 0 exactly when no non-empty prefix is accepted. |
| PatternMatcher.SimStaysEmpty | birchnlp/pattern_matcher/pattern_matcher.py:63-64 | Once the simulation holds no state, it holds none for any longer input. |
| PatternMatcher.LongestUnchanged | birchnlp/pattern_matcher/pattern_matcher.py:63-64 | Stopping at the first empty state set loses no match. |
| PatternMatcher.ExtractBestMatch | birchnlp/pattern_matcher/pattern_matcher.py:49-72 | It returns the largest `k` in 1..len(words) such that the automaton accepts `words[..k]`, or 0. The empty prefix never counts. |
| PatternMatcher.MatchLengths | birchnlp/pattern_matcher/pattern_matcher.py:35 | One length per offset: the best match of the suffix there, never running past the end. |
| PatternMatcher.SpansProperties | birchnlp/pattern_matcher/pattern_matcher.py:27-40 | The spans are in bounds and non-empty, and each has the match length of its start. Their starts strictly increase, so there is at most one span per offset. Every offset with a match has its span. |
| PatternMatcher.SpansBounded | birchnlp/pattern_matcher/pattern_matcher.py:36-37 | Every span `(s, s + k)` has `k ≥ 1` and `s + k ≤ len(words)`. |
| PatternMatcher.SpansIncreasing | birchnlp/pattern_matcher/pattern_matcher.py:34-38 | The span starts strictly increase. |
| PatternMatcher.SpansComplete | birchnlp/pattern_matcher/pattern_matcher.py:34-38 | Every start offset with a non-empty match has a span. |
| PatternMatcher.SpansStep | birchnlp/pattern_matcher/pattern_matcher.py:35-38 | One more offset appends its span exactly when the best match there is non-zero. |
| PatternMatcher.MatchAtIsLongest | birchnlp/pattern_matcher/pattern_matcher.py:35 | The length at an offset is that of the longest non-empty accepted run from there. It is 0 exactly when there is none. |
| PatternMatcher.FindAll | birchnlp/pattern_matcher/pattern_matcher.py:27-40 | It returns the spans of the longest match at every offset, in order. Empty input gives no spans. |
| PatternMatcher.NewMatcher | birchnlp/pattern_matcher/pattern_matcher.py:21-25 | It succeeds exactly when lexing, parsing and building all succeed, keeps the pattern, and otherwise raises their error. |
| PatternMatcher.CompileNeverFailsInBuilder | birchnlp/pattern_matcher/pattern_matcher.py:21-25 | The builder never rejects what the parser accepts. A compiled automaton has one accepting state, and its edges stay in the arena. |
| NfaLanguage.PlusInStar | birchnlp/pattern_matcher/pattern_matcher.py:110-120 | Every word of `r+` is a word of `r*`. |
| NfaLanguage.StarInPlus | birchnlp/pattern_matcher/pattern_matcher.py:110-120 | Every non-empty word of `r*` is a word of `r+`. |
| NfaLanguage.RegexStep | birchnlp/pattern_matcher/pattern_matcher.py:87-132 | On the expression stack, a token changes the height exactly as it changes the fragment stack. |
| NfaLanguage.AtomLang | birchnlp/pattern_matcher/pattern_matcher.py:127-132 | An atom fragment accepts exactly the one-token lists whose token the PatternToken accepts (`is_correct_token`). |
| NfaLanguage.CatLang | birchnlp/pattern_matcher/pattern_matcher.py:88-95 | The `&` fragment accepts exactly the concatenations of the two fragments' words. |
| NfaLanguage.AltLang | birchnlp/pattern_matcher/pattern_matcher.py:97-108 | The `\|` fragment accepts exactly the words of either fragment. |
| NfaLanguage.RepeatLang | birchnlp/pattern_matcher/pattern_matcher.py:110-120 | The `*` fragment accepts exactly the words of `r*`, and the `+` fragment those of `r+`. |
| NfaLanguage.OptLang | birchnlp/pattern_matcher/pattern_matcher.py:122-125 | The `?` fragment accepts exactly the empty word and the fragment's words. |
| BuildLanguage.ConcatenateLang | birchnlp/pattern_matcher/pattern_matcher.py:88-95 | After `&`, every fragment on the stack still accepts the language of its expression. |
| BuildLanguage.AlternateLang | birchnlp/pattern_matcher/pattern_matcher.py:97-108 | The same after `\|`. |
| BuildLanguage.RepeatLangStep | birchnlp/pattern_matcher/pattern_matcher.py:110-120 | The same after `*` or `+`. |
| BuildLanguage.OptionalLang | birchnlp/pattern_matcher/pattern_matcher.py:122-125 | The same after `?`. |
| BuildLanguage.PushAtomLang | birchnlp/pattern_matcher/pattern_matcher.py:127-132 | The same after an atom. |
| BuildLanguage.StepLang | birchnlp/pattern_matcher/pattern_matcher.py:87-132 | Every token keeps each fragment's language equal to its expression's. |
| BuildLanguage.BuildPrefixLang | birchnlp/pattern_matcher/pattern_matcher.py:87-132 | Along the build, the fragment stack and the expression stack agree, fragment by fragment. |
| NfaSimulation.SimSound | birchnlp/pattern_matcher/pattern_matcher.py:55-65 | Every state the simulation holds after `w` is reached from the start by a walk consuming `w`. |
| NfaSimulation.SimComplete | birchnlp/pattern_matcher/pattern_matcher.py:55-65 | Every state reached by a walk consuming `w` is held by the simulation after `w`. |
| NfaSimulation.SimIsWalks | birchnlp/pattern_matcher/pattern_matcher.py:49-72 | The simulation holds exactly the states some walk consuming `w` reaches. |
| NfaSimulation.AcceptsIsWalk | birchnlp/pattern_matcher/pattern_matcher.py:67-70 | The automaton accepts `w` exactly when a walk consuming `w` reaches an accepting state. |
| PatternLanguage.RegexesHeight | birchnlp/pattern_matcher/pattern_matcher.py:87-132 | Reading postfix as an expression stack fails exactly on underflow, and has the stack discipline's height. |
| PatternLanguage.BuildAccepts | birchnlp/pattern_matcher/pattern_matcher.py:78-137 | The automaton `build_nfa` returns accepts exactly the words of the expression its postfix input denotes. |
| PatternLanguage.CompiledAccepts | birchnlp/pattern_matcher/pattern_matcher.py:21-25 | A pattern compiles exactly when it denotes an expression, and its automaton accepts exactly that expression's words. |
| PatternLanguage.LongestInLanguage | birchnlp/pattern_matcher/pattern_matcher.py:49-72 | `extract_best_match` gives the longest non-empty prefix in the pattern's language, or 0 when there is none. |
| PatternLanguage.MatchAtInLanguage | birchnlp/pattern_matcher/pattern_matcher.py:27-40 | The span `findall` gives at an offset is the longest non-empty run there in the pattern's language. An offset gets a span exactly when such a run exists. |
| PatternLanguage.MatchAtOf | birchnlp/pattern_matcher/pattern_matcher.py:35-37 | The same, for any expression whose words are exactly the ones the automaton accepts. |
| Tokenizer.Reverse | birchnlp/tokenizer/tokenizer.py:66 | `suffixes[::-1]` has the same length, and element `i` is element `n-1-i` of the original. |
| Tokenizer.Strip | birchnlp/tokenizer/tokenizer.py:46-63 | It splits the token into three parts that join back to it: single prefix-class characters in order, the core, and single trailing whitespace or suffix-class characters restored to their original order. The core, if any, starts with no prefix character and ends with no whitespace or suffix character. |
| Tokenizer.StripRound | birchnlp/tokenizer/tokenizer.py:47-63 | One round keeps the text. Every round that does not break removes at least one character, so the loop terminates. Breaking leaves a core that neither end of the class tests would change. |
| Tokenizer.PrepareToken | birchnlp/tokenizer/tokenizer.py:43-86 | The pieces are, in order: the prefix characters peeled one by one; the pieces of the core (see SplitCore); and the trailing whitespace and suffix characters, one piece each, in their original order. They join back to the token. No piece is empty, and `prepare_token("")` returns no pieces. The pieces are `PrepareSpec(c, token)`, a recursive definition that runs the infix split on the core and prepares every segment again. |
| Tokenizer.PrefixRun | birchnlp/tokenizer/tokenizer.py:48-51 | The length of the longest leading run of prefix-class characters. |
| Tokenizer.TrailRun | birchnlp/tokenizer/tokenizer.py:52-60 | The length of the longest trailing run of whitespace or suffix-class characters. |
| Tokenizer.Chars | birchnlp/tokenizer/tokenizer.py:65-67 | Every character of the text as a piece of its own, in order. |
| Tokenizer.StrippedSpec | birchnlp/tokenizer/tokenizer.py:46-67 | Every way the strip loop can end peels exactly the longest prefix run and the longest trailing run. When the two runs cover the token, it becomes one piece per character. So prefixes, core pieces and suffixes give `PrepareSpec`, whatever order the loop peels in. |
| Tokenizer.PrepareSpecShape | birchnlp/tokenizer/tokenizer.py:46-67 | Let a token be prefix characters, then a core, then trailing characters. Let the core start with no prefix character and end with no trailing one. Then its pieces are those characters one by one around the core's pieces. |
| Tokenizer.PrefixRunOf | birchnlp/tokenizer/tokenizer.py:48-51 | A leading part made only of prefix characters lies inside the prefix run. The run ends right after it when the next character is not a prefix character. |
| Tokenizer.TrailRunOf | birchnlp/tokenizer/tokenizer.py:52-60 | A trailing part made only of whitespace and suffix characters lies inside the trailing run. The run ends right before it when the character before it is not trailing. |
| Tokenizer.PrepareSpecEmpty | birchnlp/tokenizer/tokenizer.py:65-67 | An empty token gives no pieces. |
| Tokenizer.PreparedIsSpec | birchnlp/tokenizer/tokenizer.py:43-86 | A division that the strip loop and the infix split can make is unique: it is `PrepareSpec(c, token)`. |
| Tokenizer.CharsConcat | birchnlp/tokenizer/tokenizer.py:65-67 | Single-character pieces are the characters of the text they join to. |
| Tokenizer.PrepareSpecPlain | birchnlp/tokenizer/tokenizer.py:43-86 | A single character that is neither a prefix character nor whitespace or a suffix character is one piece. |
| Tokenizer.PrepareSpecLead | birchnlp/tokenizer/tokenizer.py:46-67 | A prefix character followed by a plain character gives two pieces. |
| Tokenizer.PrepareSpecInfixSegment | birchnlp/tokenizer/tokenizer.py:69-80 | Example: a token shaped like `a(-b)c` gives six one-character pieces. The `-b` between the two infix characters is prepared again, so the leading prefix character is a piece of its own. |
| Tokenizer.SplitFromSegment | birchnlp/tokenizer/tokenizer.py:72-80 | Example: in that token, the segment after the first infix character gives `-`, `b`, `)` and `c`. |
| Tokenizer.PrepareSpecExample | birchnlp/tokenizer/tokenizer.py:69-80 | Example: with brackets and dashes as prefix and suffix characters and brackets as infix characters, `"a(-b)c"` gives `a ( - b ) c`. |
| Tokenizer.SplitCore | birchnlp/tokenizer/tokenizer.py:69-82 | The pieces join back to the core, and none is empty. A core of at most two characters, or one without infix characters, stays whole. In a longer core, every infix character is a piece of its own, at the place where the pieces before it join to the text before it. The pieces are `CoreSpec(c, core)`: every segment between delimiters, and the one after the last, is prepared again. |
| Tokenizer.SplitLong | birchnlp/tokenizer/tokenizer.py:69-82 | SplitCore on a core longer than two characters, with the same guarantees. |
| Tokenizer.InfixLoop | birchnlp/tokenizer/tokenizer.py:70-77 | After the loop, every infix character is a piece of its own. The loop ends at 0 exactly when there is no infix character. Its pieces followed by the preparation of the last segment are `CoreSpec(c, core)`. |
| Tokenizer.SplitFromDelim | birchnlp/tokenizer/tokenizer.py:72-77 | At an infix character, the segment before it is prepared again and the character becomes a piece. Appending both to the pieces so far leaves the rest of the split unchanged. |
| Tokenizer.SplitFromSkip | birchnlp/tokenizer/tokenizer.py:70-71 | A character that is not infix does not end the current segment. |
| Tokenizer.SplitFromEnd | birchnlp/tokenizer/tokenizer.py:79-82 | After the last delimiter, the rest of the core is prepared again. A core with no delimiter stays whole. |
| Tokenizer.AppendDelimited | birchnlp/tokenizer/tokenizer.py:72-77 | Preparing the text before a delimiter, then adding the delimiter, keeps the earlier pieces. The new pieces reach the text up to and including the delimiter, and the delimiter is the last piece. The new pieces are exactly `PrepareSpec` of the segment, followed by the delimiter. |
| Tokenizer.FirstSep | birchnlp/tokenizer/config.py:22 | The result is the first blank or tab at or after `i`, or the end of the text. |
| Tokenizer.SepEnd | birchnlp/tokenizer/config.py:22 | The result ends the run of blanks and tabs that starts at `i`. |
| Tokenizer.SplitSpaces | birchnlp/tokenizer/tokenizer.py:12 | There is at least one chunk, and no chunk holds a separator. The first chunk is empty exactly when the text is empty or starts with a separator. |
| Tokenizer.SplitSpacesKeepsText | birchnlp/tokenizer/tokenizer.py:12 | Joining the chunks gives the text without its blanks and tabs. |
| Tokenizer.PlaceholderAt | birchnlp/tokenizer/config.py:21 | A placeholder match at `i` is non-empty and stays in the text. |
| Tokenizer.Placeholders | birchnlp/tokenizer/tokenizer.py:15-16 | The placeholder matches are in bounds, left to right, and do not overlap. |
| Tokenizer.TokenizeChunk | birchnlp/tokenizer/tokenizer.py:13-35 | The pieces of a chunk join back to it, and none is empty. Only an empty chunk gives no pieces. Every placeholder match is one whole piece. The text before each placeholder, and after the last one, is divided exactly as `prepare_token` divides it: by PreparedIsSpec, the only such division is `PrepareSpec` of that text. A chunk without placeholders is prepared whole. |
| Tokenizer.PlaceholderRun | birchnlp/tokenizer/tokenizer.py:15-25 | After the loop over the placeholder matches, the pieces join to the chunk up to the end of the last match. Each match is one piece, after the prepared text that precedes it. |
| Tokenizer.PrepareRest | birchnlp/tokenizer/tokenizer.py:27-30 | The text after the last placeholder match is divided as `prepare_token` divides it, and nothing is added when the match ends the chunk. |
| Tokenizer.AppendPlaceholder | birchnlp/tokenizer/tokenizer.py:16-25 | It keeps the earlier pieces, then adds the text before the placeholder divided as `prepare_token` divides it, and ends with the placeholder as one piece. |
| Tokenizer.Tokenize | birchnlp/tokenizer/tokenizer.py:7-40 | It raises IndexError exactly when the sentence is empty or starts with a blank. Otherwise words and flags have equal length, and each word is its piece mapped through `key2equation`. The pieces divide chunk by chunk, and each chunk's run of pieces is how the chunk loop divides that chunk. A flag is set exactly on a piece that ends a chunk and is not the last piece. |
| Tokenizer.TokenizeChunks | birchnlp/tokenizer/tokenizer.py:12-36 | The chunk loop stops at `spaces[-1]` exactly when the first chunk is empty. Otherwise it divides the pieces chunk by chunk, each chunk as TokenizeChunk divides it, and flags exactly the chunk ends. |
| Tokenizer.FlagsExtend | birchnlp/tokenizer/tokenizer.py:33-36 | A chunk's pieces are appended unflagged, then the last piece is flagged: still exactly the chunk ends are flagged. |
| Tokenizer.FlagsLast | birchnlp/tokenizer/tokenizer.py:39 | Unflagging the last piece leaves exactly the chunk ends before it flagged. |
| Tokenizer.Lookup | birchnlp/tokenizer/tokenizer.py:38 | A word that is not a key of `key2equation` is kept unchanged. A key is replaced by one of the equations. |
| Tokenizer.ChunkedConcat | birchnlp/tokenizer/tokenizer.py:12-35 | Pieces divided chunk by chunk join to the chunks joined. |
| Tokenizer.KeepPairs | birchnlp/tokenizer/tokenizer.py:106-113 | The filtered lists have equal length, are no longer than the originals, and hold no skipped token. |
| Tokenizer.KeepPairsTogether | birchnlp/tokenizer/tokenizer.py:106-113 | A token and its flag are dropped or kept together, and order is kept. |
| Tokenizer.BlankIsStripEmpty | birchnlp/tokenizer/tokenizer.py:94 | `text.strip()` is empty exactly when every character is Python whitespace: the ASCII blanks and controls 9-13 and 28-31, and the Unicode spaces `str.isspace` accepts. |
| Tokenizer.TokenizeText | birchnlp/tokenizer/tokenizer.py:93-115 | Text that is blank by Python's `str.strip` gives `([], [])`. Otherwise it fails exactly when tokenize does. The result is tokenize's output, filtered pair-wise when a skip pattern is set. Before filtering, that output is divided chunk by chunk as tokenize divides each chunk; it joins back to the text without blanks and tabs; and its last flag is unset. |
| Document.StrPrefix | birchnlp/birch.py:81-83 | The text `__str__` builds from the tokens before `i` is exactly as long as token `i`'s offset. Each token adds its text and one space when its flag is set. |
| Document.Str | birchnlp/birch.py:81-83 | `str(b)` is exactly as long as the token texts plus one for every set space flag. |
| Document.StrSpansTokens | birchnlp/birch.py:24-29 | For a document laid out by `__init__`, `str(b)[tok.start:tok.end]` is the token's own text. |
| Document.Bounds | birchnlp/birch.py:54-56 | It raises IndexError exactly on an empty document. |
| Document.BoundsCoverText | birchnlp/birch.py:54-56 | For a laid-out document, the bounds run from 0 to the end of the rebuilt text, less a trailing space. |
| Document.GetSentencesOffsets | birchnlp/birch.py:86-93 | The offsets strictly increase, lie in `1..n`, and `i + 1` is among them exactly when token `i`'s text occurs in ".!?" and its space flag is set. |
| Document.SentenceEndTexts | birchnlp/birch.py:90 | `tok.token in '.!?'` holds exactly for the texts "", ".", "!", "?", ".!", "!?" and ".!?". |
| Document.LayOut | birchnlp/birch.py:26-29 | There is one token per zipped triple; the shortest list decides the count. Token `i` has the `i`-th text, tag and flag, and starts at the sum of `len(token_j) + int(space_j)` over `j < i`. |
| Document.LaidSnoc | birchnlp/birch.py:27-29 | Appending a token at the running offset keeps the layout, and advances the offset by its length plus its space. |
| Document.NewBirch | birchnlp/birch.py:17-31 | It fails exactly when tokenizing fails. Otherwise the tokens zip the tokenizer's texts and flags with the tagger's tags, laid out at their offsets, and the sentence offsets are exactly the sentence ends. For non-blank text, the texts and flags are the tokenizer's output: divided chunk by chunk as tokenize divides each chunk, joining back to the text without blanks and tabs, with the last flag unset, and filtered pair-wise when a skip pattern is set. |
| Document.PySlicePlain | birchnlp/birch.py:43 | A plain slice with bounds in range is the subsequence between them. |
| Document.GetItem | birchnlp/birch.py:39-46 | An int index succeeds exactly when it is in range, counting negatives from the end. An index that is neither an int nor a slice raises ValueError. |
| Document.GetItemSelects | birchnlp/birch.py:39-46 | An int in range selects that token, from the front or from the back. A plain slice gives a Birch over exactly those tokens, without sentence offsets. |
| Document.BuildFromTokensBehaves | birchnlp/birch.py:48-52 | A Birch from `build_from_tokens` has the list's length, its int items are the list's elements, and its bounds are those of the first and last token. |
| Document.SentencesTile | birchnlp/birch.py:58-65 | With increasing offsets in range, there is one more sentence than offsets, and the sentences joined are the tokens. |
| Document.Sentences | birchnlp/birch.py:58-65 | It yields a Birch over each sentence slice, in order. A Birch made by `build_from_tokens` has no offsets and raises AttributeError. |
| Document.SentenceSlicesAt | birchnlp/birch.py:60-65 | Sentence `k` is `tokens[last_offset:offset]` for the offsets around it, and the last one runs to the end. |
| Document.SentencesPartition | birchnlp/birch.py:58-65 | For a document made by `__init__`, there are `len(offsets) + 1` sentences, and together they are exactly its tokens. |
| Document.SentenceLengths | birchnlp/birch.py:36-37 | The `len` of a document made by `__init__` is the sum of the `len` of its sentences. |
| Document.MatchesWithinSentences | birchnlp/birch.py:67-76 | Every match is a non-empty run of consecutive tokens of one sentence, so no match crosses a sentence boundary. |
| Document.ExtractByPattern | birchnlp/birch.py:67-76 | A pattern that does not compile raises its error. Otherwise the result lists, sentence by sentence and then by increasing start, one Birch per `findall` span over the tokens of that span (see Left out for the nesting). |
| Document.AllMatches | birchnlp/birch.py:72-74 | The outer loop collects every sentence's matches, in sentence order. |
| Document.SentenceMatches | birchnlp/birch.py:73-74 | The inner loop gives the slice of every `findall` span of one sentence, in order. |
| Document.SliceAll | birchnlp/birch.py:73-74 | One Birch per span, in order, over the tokens of that span (see Left out for the nesting). |

## Left out

- POS tagging is left out. The tagger is a function parameter of `Document.NewBirch`. A tag is a wrapper of its name, so the `KeyError` that `POSTag[...]` raises for a name outside the tagger's enumeration is not modelled.
- Schemes.RegexMatchesAtStart: a quoted word is read as a literal prefix of the token text rather than compiled as a Python regular expression. Metacharacters in it match only themselves. A word that is not a valid regular expression, such as `"("`, `"*"` or `"[a"`, makes `re.compile` raise `re.error` (birchnlp/pattern_matcher/schemes.py:36) while the pattern is being built. The model builds the automaton for such a word anyway. So the "exactly when" of PatternMatcher.NewMatcher and PatternLanguage.CompiledAccepts holds only for words that are valid regular expressions.
- Tokenizer.Config: PREFIX_RE, SUFFIX_RE, SUFFIX_SPACE_RE and INFIX_RE are character predicates. The Unicode category tables they are built from are not modelled.
- Tokenizer.IsDigit: `\d` in the placeholder pattern is read as the ASCII digits only; Python's `\d` also accepts other Unicode digits.
- Tokenizer.TokenizeText: the `TOKENS_RE` substitution of placeholders into the text is not modelled. It is off by default (`TOKENS_RE = None`), so `key2equation` is empty.
- PatternMatcher.AddState: the source inserts into the caller's set in place. The model passes the set in and returns the enlarged set, with the same contents.
- PatternMatcher.NextStates: the source iterates a set of State objects in hash order. The model picks the members in an arbitrary order. The result does not depend on the order.
- NfaBuilder.BuildNfa: `State` objects linked by reference are arena slots linked by index. Object identity and aliasing between fragments are therefore not modelled beyond the slot indices.
- Document.Birch: `__iter__` and `__repr__` are not modelled. They only expose the token list and `__str__`.
- Document.Sentences: a Birch made by `build_from_tokens` has no `sentences_offsets_` attribute, so iterating its sentences raises AttributeError. It is modelled as an error result.
- Document.GetItem: a `bool` index, which Python treats as an `int`, is not distinguished from an int.
- Document.ExtractByPattern: the source wraps each match twice. `sent[start: fin]` already returns a Birch, and `build_from_tokens` wraps that Birch again, so each match's `tokens` is itself a Birch rather than a token list. The model gives each match a Birch directly over the span's tokens.
- PatternToken's `__str__`, `__repr__` and `__hash__` are debug and hashing helpers and are not modelled.
- Scoring (`birchnlp/scorer`), the legacy text utilities, file I/O and packaging are not part of this model.
