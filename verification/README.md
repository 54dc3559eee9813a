# Verification of the server's algorithmic cores

A Dafny model of the parts of the server that compute or coordinate something: the calculator
(linear algebra, expression parser, evaluator, polynomial extraction, closed-form solving,
integration, edit distance, loans, regression) and four stateful protocols (the rotating proxy
pool with its failover loop, the sliding-window rate limiter, the worker scheduler, the news
collector). Each component has its own modules; `dafny verify dfyconfig.toml` checks everything.

| component | files |
|---|---|
| LU decomposition, solve, inverse, determinant | `Vectors`, `Determinant`, `Permutations`, `Elimination`, `LinearAlgebra` |
| Tokenizer and parser | `Syntax`, `Numerals`, `Grammar`, `ParserSpec`, `Parser`, `Tokenizer`, `Tokenization`, `ParserTheorems`, `FactorialSigns`, `DepthLimit`, `SyntaxErrors`, `Expressions` |
| Evaluation, extraction, solving | `Evaluator`, `Meaning`, `Polynomials`, `Extraction`, `Equations`, `WrittenEquations` |
| Integration and derivative | `Calculus` |
| Edit distance | `EditDistance` |
| Loans, regression | `Finance`, `Regression` |
| Proxy pool and failover | `ProxyPool`, `PoolRuns`, `PoolHistory`, `Selection`, `Egress`, `Failover`, `FailoverReports`, `FailoverRequests`, `RoundRobinFailover`, `FailoverLimits` |
| Rate limiter | `RateLimiter`, `RateLimiterRuns`, `LimiterAnswers` |
| Scheduler | `Scheduler` |
| News collector | `Collector`, `CollectorRuns` |
| Shared | `Wrappers`, `Arithmetic`, `Sets` |

Code that updates fields, arrays or accumulators is modelled by methods (classes `Parser.Parser`,
`ProxyPool.Pool`, `RateLimiter.Limiter`, `Scheduler.Scheduler`, `Collector.Collector`, and methods
with the loops of the original), each proved equal to a specification function or against the
property itself; the theorems are then lemmas about the specification. Where specification and code share a
function, a lemma ties it to a definition of its own: the meaning of an expression to tokens and
digits (`Meaning`, `Numerals`), the tokens to the longest match (`Tokenization`), the polynomial trees to
their degree and value (`Extraction`), a proxy's state to the reports about it (`PoolHistory`), the limiter
to its answers (`LimiterAnswers`), the queue to the feeds (`Collector.HoldsTops`). Every method of the
scheduler and the collector keeps the invariant its theorems rest on.

## Conventions

- Numbers are exact reals. There is no rounding, NaN, infinity or minus zero; a division by zero
  that the code lets run into infinity is an error value (`Finance.NonFinite`), and a numeral too
  large for a double is refused as the parser does. The constants `inf` and `nan` are not among
  the constants.
- `sqrt` is a parameter with `sqrt(v) >= 0` and `sqrt(v)^2 = v` (for the solver only at the
  discriminant's size). `**` is interpreted for natural exponents, `0 ** 0 = 1`; other exponents are
  given by the environment. Built-in functions are parameters of the environment.
- Integrands are total functions: an integrand that throws, or a non-finite sample, ends the
  original's call with an error and is not modelled.
- Strings are sequences of characters; the edit distance works on code units as the original does.
  A parse error carries how many tokens were unread, from which `Expressions.Position` computes the
  reported position.
- Rows of a matrix are values held in an array that the decomposition updates in place.
- Time is an integer that never goes back. Redis and the limiter read the same clock, and Redis may
  drop a key at any moment from its expiry on. Limits and windows are integers and stay fixed.
- Network replies, handlers, timers and random draws are choices of the environment.
- Concurrency is modelled by steps: one step runs from one suspension point to the next.

## What the proofs say about the documentation

Where comment and code differ the model follows the code.

- `parser.ts:13` documents an optional `!`; the code repeats it. So `x!!` is accepted although the rules
  as written derive no tree for it (`FactorialSigns.DoubleSignAccepted`). Of the accepted token lists
  they derive exactly those whose canonical derivation puts at most one sign on a base plus one for each
  unparenthesised power that the base comes last in (`FactorialSigns.AcceptsAsWritten`), so `x^y!!` is
  one of them (`FactorialSigns.AdjacentSignsMayBeDerived`). With repeatable `!` the rules are ambiguous
  for `x^y!`; the parser takes `x^(y!)` (`ParserTheorems.DocumentedGrammarIsAmbiguous`), and
  `ParserTheorems.ReturnsTreeIffCanonical` says for every derivation whether its tree is returned.
- `parser.ts:254-263`: the depth check throws before its `try`, so after a too-deep error each
  level but the failing one has restored the depth: `depth` ends one higher (`Parser.Parser.DepthAfter`,
  part of every method's contract). For a sentence that happens iff its derivation costs more than 100
  (`DepthLimit.SentenceAcceptedIff`), for instance with 100 signs before a name (`DepthLimit.ManySigns`);
  for any token list, iff some higher limit would have changed the answer (`DepthLimit.RefusedDeepIff`).
  The parser object is not reused after an error.
- `pool.ts:41-43` claims the retry budget will still try the whole set. For given clock readings and
  strategy it does, for every pool and draw, iff the budget allows one attempt per proxy and
  `FailoverLimits.NeverRepeats` holds (`FailoverLimits.TriesWholeSetIff`): no earlier failure in the
  millisecond of the first one, and the last pick before the first failed proxy leaves its cooldown; or,
  under the default round robin, every earlier failure out of its cooldown by the first pick, however long
  the request lasts (`RoundRobinFailover.PriorCooldownOver`). The ways it fails, on pools reached from a
  fresh one (`FailoverRequests.UniformReachable`): a budget below the pool size, such as the default of
  three with four proxies (`Failover.BudgetBelowSizeMisses`, `FailoverLimits.DefaultBudgetMisses`); a
  failure in the same millisecond (`FailoverLimits.SameMillisecondRepeats`); a request that outlasts the
  cooldown, under `random` on any pool (`FailoverLimits.OutlastingCooldownRepeats`), under round robin
  on one with proxies still parked at its start (`RoundRobinFailover.RoundRobinRepeats`).
- `pool.ts:39-40` says `random` falls back to a uniform choice when nothing is healthy. The code takes
  the first earliest deadline whatever is drawn (`Selection.FallbackIgnoresDraw`), so some entry is never
  reached unless the pool has only one (`Selection.FallbackReachesAllIff`); two proxies that failed in
  the same millisecond are an example (`FailoverLimits.RandomFallbackNotUniform`). The uniform choice
  among healthy entries holds (`Selection.RandomUniform`).
- `egress.ts:44` says other errors bubble as they are. The code rethrows an error iff the signal fired or
  the error has an abort name, and every attempt before it threw something else
  (`Failover.ErrorRethrownIff`, `Egress.AbortedIff`). Every other error, such as a `TypeError` without a
  code, cools the proxy and is retried (`Failover.OtherErrorsRetried`, `FailoverLimits.TypeErrorDoesNotBubble`).
- The pool's bookkeeping (parked iff failed often enough) holds on every run iff the threshold is at
  least 1 (`PoolRuns.BookedOnAllRunsIff`); nothing in the code enforces that.
- `rate-limiter.ts:35` makes a member from the millisecond and one of a million random numbers. Two
  equal draws in one millisecond overwrite each other and one request goes uncounted, so the window
  bound holds for all draws iff the limit is 1 (`LimiterAnswers.BoundedForAllDrawsIff`); with distinct
  members it always holds (`LimiterAnswers.AllowedCallsBounded`).
- `scheduler.ts:92`: a handler that throws before returning a promise is counted under no status. The
  counts add up without it iff no handler did that (`Scheduler.FiresAddUp`). If `stop()` is called before
  the microtask that releases such a run, the promise it waits for is rejected, and only then
  (`Scheduler.RejectingIff`); `Scheduler.ThrowRejectsStop` is a run that ends in the outcome `Rejected`.
- `statistics.ts:219` computes the correlation unconditionally, so a regression with constant y is
  refused although a perfect line exists (`Regression.ConstantYOnLine`).
- `calculus.ts:28-29` speaks of combining two difference quotients for an extra order of accuracy; the
  code returns the last one. On a quintic that is off by exactly 4 c[5] h^4, where the combination would
  be exact (`Calculus.DerivativeErrorOnQuintics`).
- `finance.ts:84`: a payment exists for every rate except -200% over an even number of periods
  (`Finance.PaymentExistsIff`).

## Model

Source paths are relative to the repository root.

| member | source | states |
|---|---|---|
| `LinearAlgebra.DecomposeLU` | src/shared/math/linear-algebra.ts:124-168 | In place, with partial pivoting: sign is 0 iff some non-zero vector is sent to 0; otherwise perm is a permutation, every row perm[i] of the input is rebuilt from the factors, multipliers lie in [-1, 1], pivots are non-zero and sign is the parity of perm |
| `LinearAlgebra.FindPivot` | src/shared/math/linear-algebra.ts:133-141 | The first row holding the largest magnitude of the column on or below the diagonal |
| `LinearAlgebra.ReduceRow` | src/shared/math/linear-algebra.ts:157-164 | One row reduced in place: multiplier stored, rest reduced, all other rows untouched |
| `LinearAlgebra.ReduceBelow` | src/shared/math/linear-algebra.ts:156-164 | The array becomes the one with column k eliminated below the pivot |
| `LinearAlgebra.FactorsMultiply` | src/shared/math/linear-algebra.ts:121-168 | L times U, read off the array, is the input with its rows in permuted order |
| `LinearAlgebra.SolveLU` | src/shared/math/linear-algebra.ts:182-200 | The result solves the original system for the given right-hand side |
| `LinearAlgebra.ForwardSubstitute` | src/shared/math/linear-algebra.ts:186-191 | In place: the permuted right-hand side becomes the solution of the unit lower system |
| `LinearAlgebra.BackSubstitute` | src/shared/math/linear-algebra.ts:192-198 | In place: the vector becomes the solution of the upper system |
| `LinearAlgebra.Solve` | src/shared/math/linear-algebra.ts:221-237 | Succeeds iff the matrix is well-formed, square, non-singular and the lengths agree; returns the unique x with A x = b; each refusal has its own error |
| `LinearAlgebra.Inverse` | src/shared/math/linear-algebra.ts:202-219 | Succeeds iff non-singular; the result X satisfies A X = X A = I |
| `LinearAlgebra.LeftInverse` | src/shared/math/linear-algebra.ts:202-219 | A right inverse of a matrix with trivial kernel is a left inverse |
| `LinearAlgebra.Determinant` | src/shared/math/linear-algebra.ts:170-180 | Equals the Laplace determinant and is 0 exactly for singular matrices |
| `LinearAlgebra.DetZeroIffSingular` | src/shared/math/linear-algebra.ts:142-145 | For every square matrix the determinant is 0 iff there is a kernel vector |
| `LinearAlgebra.EliminationDecides` | src/shared/math/linear-algebra.ts:131-167 | From any stage elimination either completes with a non-zero determinant or gets stuck on a singular matrix |
| `LinearAlgebra.NonsingularInjective` | src/shared/math/linear-algebra.ts:233-236 | With a trivial kernel a system has at most one solution |
| `LinearAlgebra.Multiply` | src/shared/math/linear-algebra.ts:79-100 | Succeeds iff both are well-formed and the inner sizes agree; every entry is row times column |
| `LinearAlgebra.EnsureWellFormed` | src/shared/math/linear-algebra.ts:25-49 | Accepts exactly non-empty rectangular matrices of at most 50 by 50, and names the first violation |
| `Elimination.EliminateKeepsFactored` | src/shared/math/linear-algebra.ts:155-164 | Eliminating a column keeps every input row rebuildable |
| `Elimination.SwapKeepsFactored` | src/shared/math/linear-algebra.ts:146-153 | A row exchange with its permutation entry keeps every input row rebuildable |
| `Elimination.EliminateKeepsPivoted` | src/shared/math/linear-algebra.ts:133-164 | Multipliers stay within [-1, 1] because the pivot is the largest entry |
| `Elimination.EliminateKeepsSign` | src/shared/math/linear-algebra.ts:155-164 | Elimination leaves the determinant alone |
| `Elimination.SwapFlipsSign` | src/shared/math/linear-algebra.ts:153 | A row exchange flips both the determinant's sign and the permutation's parity |
| `Elimination.FactoredNonsingular` | src/shared/math/linear-algebra.ts:167 | Complete factors imply a trivial kernel |
| `Elimination.StuckSingular` | src/shared/math/linear-algebra.ts:142-145 | A column without pivot yields a non-zero kernel vector |
| `Elimination.StuckDeterminant` | src/shared/math/linear-algebra.ts:142-145 | A column without pivot means determinant 0 |
| `Permutations.SwapFlips` | src/shared/math/linear-algebra.ts:150-153 | Exchanging any two entries flips the inversion parity |
| `Determinants.DetSwap` | src/shared/math/linear-algebra.ts:146-153 | Exchanging two rows negates the Laplace determinant |
| `Determinants.DetAddMultiple` | src/shared/math/linear-algebra.ts:162 | Adding a multiple of another row keeps the Laplace determinant |
| `Determinants.DetTriangular` | src/shared/math/linear-algebra.ts:175-179 | The Laplace determinant of a triangular matrix is the product of its diagonal |
| `Parser.Parser.ParseExpression` | src/shared/math/expr/parser.ts:292-299 | On the field pos and depth: consumes, returns and fails exactly as the specification does on the unread tokens; depth restored unless the nesting was too deep |
| `Parser.Parser.ParseAdditive` | src/shared/math/expr/parser.ts:301-312 | Same, for the left-associative sum loop |
| `Parser.Parser.ParseMultiplicative` | src/shared/math/expr/parser.ts:314-326 | Same, for the left-associative product loop |
| `Parser.Parser.ParseUnary` | src/shared/math/expr/parser.ts:328-341 | Same, for signs, each costing one level |
| `Parser.Parser.ParsePostfix` | src/shared/math/expr/parser.ts:343-349 | Same, for any number of factorial signs |
| `Parser.Parser.ParsePower` | src/shared/math/expr/parser.ts:351-363 | Same, for the right-associative power, costing one level |
| `Parser.Parser.ParseAtom` | src/shared/math/expr/parser.ts:365-422 | Same, for numbers, names, calls and parentheses |
| `Parser.Parser.ParseArguments` | src/shared/math/expr/parser.ts:398-413 | Same, for an argument list |
| `Parser.Parser.ParseProgram` | src/shared/math/expr/parser.ts:241-252 | Same, with every token consumed; depth is restored iff no higher limit would change the answer, for a sentence iff its cost is at most 100; otherwise it ends at 1 |
| `Parser.Parser.Enter` | src/shared/math/expr/parser.ts:254-263 | The depth goes up by one even when the limit is exceeded |
| `ParserTheorems.ParserDecidesGrammar` | src/shared/math/expr/parser.ts:8-18 | Accepted with tree t iff t has a canonical derivation with finite literals and nesting cost within the limit |
| `ParserTheorems.AcceptsDocumentedLanguage` | src/shared/math/expr/parser.ts:8-18 | Accepted iff some derivation by the documented rules (with repeatable factorial sign) is within the limit |
| `ParserTheorems.CanonicalTreeUnique` | src/shared/math/expr/parser.ts:8-18 | A token list has at most one canonical tree |
| `ParserTheorems.ReturnsTreeIffCanonical` | src/shared/math/expr/parser.ts:343-363 | The tree of a derivation is returned iff no factorial sign in it applies to an unparenthesised power |
| `ParserTheorems.DocumentedGrammarIsAmbiguous` | src/shared/math/expr/parser.ts:8-18 | x^y! derives two trees; the parser returns x^(y!) |
| `ParserTheorems.AcceptedTreeIsSmall` | src/shared/math/expr/parser.ts:292-422 | An accepted tree has no more nodes than there are tokens |
| `FactorialSigns.AcceptsAsWritten` | src/shared/math/expr/parser.ts:13 | The rules as written derive a token list iff its canonical derivation fits: each run of signs at most one longer than the number of unparenthesised powers its base comes last in; the parser accepts all of these |
| `FactorialSigns.AcceptsWithoutAdjacentSigns` | src/shared/math/expr/parser.ts:13 | Without adjacent factorial signs the parser accepts exactly what the rules as written derive, and returns one of their trees |
| `FactorialSigns.DoubleSignAccepted` | src/shared/math/expr/parser.ts:343-349 | x!! is accepted although the rules as written derive no tree for it |
| `FactorialSigns.AdjacentSignsMayBeDerived` | src/shared/math/expr/parser.ts:343-349 | x^y!! is derived by the rules as written, with a tree other than the one returned |
| `DepthLimit.SentenceAcceptedIff` | src/shared/math/expr/parser.ts:254-263 | A sentence with finite literals is accepted if any documented derivation of it costs at most the limit, and otherwise refused as too deep, for no other reason |
| `DepthLimit.RefusedDeepIff` | src/shared/math/expr/parser.ts:254-263 | Any token list is refused as too deep iff some higher limit would have changed the answer |
| `DepthLimit.HigherProgram` | src/shared/math/expr/parser.ts:241-263 | Below a limit of two levels per token a higher limit changes no answer but a too-deep one; from there on none is too deep |
| `DepthLimit.ManySigns` | src/shared/math/expr/parser.ts:5-6 | A name after fewer than 100 signs is accepted, after 100 or more refused as too deep |
| `SyntaxErrors.ErrorAtFirstBadToken` | src/shared/math/expr/parser.ts:241-252 | A syntax error is reported at the first token that cannot stand there: the tokens before it begin a sentence within the limit, together with it they begin none of any nesting |
| `SyntaxErrors.DeepErrorAfterNestingToken` | src/shared/math/expr/parser.ts:254-263 | A nesting error is reported right after the token that nests too deeply: the tokens before that one begin a sentence within the limit, those up to the reported one begin none |
| `ParserSpec.CompleteExpr` | src/shared/math/expr/parser.ts:292-299 | Every canonical derivation within the limit is parsed, whatever follows it |
| `ParserSpec.SoundExpr` | src/shared/math/expr/parser.ts:292-299 | What is parsed has a canonical derivation within the limit |
| `Tokenizer.Tokenize` | src/shared/math/expr/parser.ts:70-141 | The loop computes the token list or the first lexical error of the scanner specification |
| `Tokenizer.ScanNumber` | src/shared/math/expr/parser.ts:192-226 | The index loops find the end of the numeral, or the exponent without digits |
| `Tokenizer.TokensCoverSource` | src/shared/math/expr/parser.ts:70-141 | Tokens spell the source in order, without overlap, only blanks between them |
| `Tokenizer.WrittenTokensReadBack` | src/shared/math/expr/parser.ts:70-141 | Writing any tokens separated by blanks and tokenizing gives the same tokens |
| `Tokenization.TokenizerDecides` | src/shared/math/expr/parser.ts:70-141 | A source has these tokens iff it is at most 2000 characters, they are at most 1000, and from left to right each is the longest token text at its place, only blanks between, no numeral left dangling before an exponent letter |
| `Tokenization.TokenizerFailsAt` | src/shared/math/expr/parser.ts:70-141 | Every lexical error comes after a stretch that tokenizes: one token too many, a character at which no token starts, or the longest numeral followed by an exponent without digits |
| `Numerals.SpelledNumeral` | src/shared/math/expr/parser.ts:192-226 | A numeral spelled from whole digits, fraction and exponent is accepted and has the value of its digits by place, moved by the exponent |
| `Numerals.NumeralHasParts` | src/shared/math/expr/parser.ts:192-226 | Every numeral is spelled from such parts |
| `Numerals.LiteralDenotes` | src/shared/math/expr/parser.ts:374-381 | A literal gets a value iff it is a numeral below the overflow bound, and then the number its digits denote |
| `Numerals.OverflowIsMidpoint` | src/shared/math/expr/parser.ts:376-379 | The bound is halfway between the largest double and 2^1024 |
| `Expressions.Parse` | src/shared/math/expr/parser.ts:425-432 | Tokenizes, refuses the empty source, parses, and reports the character position |
| `Expressions.SourceAcceptedIff` | src/shared/math/expr/parser.ts:425-432 | A source is accepted iff it tokenizes into a sentence of the documented grammar of cost at most 100 |
| `Expressions.WrittenExpressionReadBack` | src/shared/math/expr/parser.ts:425-432 | Writing out a canonical derivation and parsing the text returns its tree |
| `Expressions.SourceErrorLocated` | src/shared/math/expr/parser.ts:425-432 | The character position of a syntax error is that of the first token that cannot stand there, or the end of the source |
| `Expressions.SourceMeans` | src/shared/math/expr/evaluator.ts:30-88 | The tree of an accepted source evaluates to what the tokens mean, value or error |
| `Meaning.MeansExpr` | src/shared/math/expr/evaluator.ts:30-115 | For every derivation the tree evaluates to its meaning read off the tokens: sums and products from left to right by their operator tokens, right-associative powers, factorials, calls with their arity, numerals by their digits, the same errors in the same order |
| `Meaning.AcceptedTokensMean` | src/shared/math/expr/parser.ts:292-422 | Every accepted token list has a canonical derivation with exactly the meaning the parsed tree evaluates to |
| `Meaning.RemainderIff` | src/shared/math/expr/evaluator.ts:102-104 | The remainder is the one number of the dividend's sign, smaller than the divisor, that differs from the dividend by a multiple |
| `Meaning.FactorialIsProduct` | src/shared/math/expr/builtins.ts:151-153 | The factorial is the product of 2 up to n |
| `Polynomials.ExtractCoeffs` | src/tools/calculator.ts:680-732 | The recursion with its coefficient loops computes the extraction; which trees it accepts is `Extraction.ExtractedIff` |
| `Polynomials.AddCoeffsLoop` | src/tools/calculator.ts:734-741 | The loop adds coefficients, shorter list padded with zeros |
| `Polynomials.SubtractCoeffsLoop` | src/tools/calculator.ts:743-750 | The loop subtracts coefficients, shorter list padded with zeros |
| `Polynomials.MulCoeffsLoop` | src/tools/calculator.ts:752-760 | The nested loops compute the convolution |
| `Polynomials.CombineLoop` | src/tools/calculator.ts:699-724 | Operators on coefficients, division and powers of constants included |
| `Polynomials.PolyMul` | src/tools/calculator.ts:752-760 | Convolution multiplies the polynomials' values at every x |
| `Polynomials.PolyPow` | src/tools/calculator.ts:714-721 | Repeated convolution raises the value to the power |
| `Polynomials.PolyDivide` | src/tools/calculator.ts:707-713 | Dividing the coefficients divides the value |
| `Polynomials.CombinePreserves` | src/shared/math/expr/evaluator.ts:91-115 | On values, each operator the extractor accepts evaluates to the combined polynomial's value |
| `Polynomials.ExtractionPreservesMeaning` | src/shared/math/expr/evaluator.ts:30-115 | If extraction succeeds, evaluating the tree at any x does not throw and equals the polynomial, provided no variable redefines a constant |
| `Polynomials.PreservesMeaningIff` | src/tools/calculator.ts:686-689 | That proviso is exact: it holds iff extraction preserves the meaning of every tree |
| `Extraction.ExtractedIff` | src/tools/calculator.ts:680-732 | Exactly the trees built from numbers, constants and the unknown by signs, sums, differences, products, division by a constant of non-zero value and constant powers 0 to 8 are extracted, with one coefficient per degree |
| `Extraction.OperatorsExtractedIff` | src/tools/calculator.ts:697-706 | A sum, difference or product is extracted iff both sides are, a sign iff its operand is, a remainder never |
| `Extraction.QuotientExtractedIff` | src/tools/calculator.ts:707-713 | A quotient iff the divisor comes out as one non-zero coefficient |
| `Extraction.PowerExtractedIff` | src/tools/calculator.ts:714-721 | A power iff the exponent comes out as one coefficient, a natural number up to 8 |
| `Extraction.WrittenExtracted` | src/tools/calculator.ts:680-732 | Every list of one to nine coefficients, written as a sum of terms, is extracted as it is |
| `Equations.GuardsProtectConstants` | src/tools/calculator.ts:565-577 | The reserved-name checks establish the proviso |
| `Equations.TryExtractPolynomial` | src/tools/calculator.ts:660-678 | The loop drops trailing zeros and reverses; absent when a side is no polynomial or nothing is left |
| `Equations.CoefficientsMean` | src/tools/calculator.ts:660-678 | lhs minus rhs evaluates at every x to the returned polynomial, whose lead is not 0 |
| `Equations.SolvePolynomial` | src/shared/math/solver.ts:46-69 | The loop strips leading zeros and dispatches on the degree; degrees 3 to 8 return a marker |
| `Equations.SolverFindsRealRoots` | src/shared/math/solver.ts:71-110 | Degree 1 or 2: the roots, in ascending order, are exactly the real zeros; none when the discriminant is negative |
| `Equations.EquationSolved` | src/tools/calculator.ts:660-678 | End to end: the reported roots are exactly the x with lhs(x) = rhs(x) |
| `Equations.ComplexRootsVanish` | src/shared/math/solver.ts:101-109 | With a negative discriminant the two reported numbers are conjugate zeros over the complex numbers |
| `Equations.ComplexRootsFactor` | src/shared/math/solver.ts:79-109 | For any discriminant the two reported complex roots split the quadratic into linear factors over the complex numbers; they are the real roots when those exist |
| `Equations.StripMeans` | src/shared/math/solver.ts:46-50 | Stripping removes exactly the leading zeros and keeps the polynomial |
| `Equations.AnyListSolved` | src/shared/math/solver.ts:46-69 | For any coefficient list: refused as a constant iff all but the last are zero, as of too high degree iff one above the eighth is not, solved in closed form iff the degree is 1 or 2, and then exactly |
| `Equations.DegenerateEquations` | src/tools/calculator.ts:674-675 | Nothing left means every x solves the equation; a lone constant means none does |
| `WrittenEquations.QuadraticEquationSolved` | src/tools/calculator.ts:623-635 | a*x^2 + b*x + c = d for any numbers: absent iff every x solves it, refused iff none can, otherwise the roots in ascending order are exactly the solutions |
| `WrittenEquations.WrittenEquationAnswered` | src/tools/calculator.ts:660-678 | Any two written polynomials of degree at most 2 set equal are answered exactly |
| `WrittenEquations.ExtractedEquation` | src/tools/calculator.ts:660-678 | The coefficients are those of the difference down from the first that is not zero; absent iff all agree |
| `Calculus.IntegrateExactOnQuintics` | src/shared/math/calculus.ts:76-103 | For any tolerance, splitting and bound order the result on a polynomial of degree at most 5 is F(b) - F(a) |
| `Calculus.AdaptExact` | src/shared/math/calculus.ts:109-143 | Same for any span at any depth |
| `Calculus.LeafIsBoole` | src/shared/math/calculus.ts:128-134 | The Richardson-corrected leaf is Boole's rule on five samples, for any integrand |
| `Calculus.BooleMonomial` | src/shared/math/calculus.ts:128-134 | Boole's rule is exact on powers up to 5 |
| `Calculus.LeavesAccount` | src/shared/math/calculus.ts:109-143 | For any integrand the leaves tile the interval, their tolerances sum to the requested one, values and errors are the sums |
| `Calculus.LeavesStopReason` | src/shared/math/calculus.ts:132-138 | Each leaf converged or sits at depth 24 |
| `Calculus.LeavesNeeded` | src/shared/math/calculus.ts:109-143 | For any integrand each leaf carries Boole's value and, as error, how far that is from Simpson's rule on both halves; an interval was split only when this was not below its tolerance |
| `Calculus.ErrorBelowTolerance` | src/shared/math/calculus.ts:76-143 | Unless a leaf was cut off at depth 24 unconverged, the reported error is strictly below the tolerance |
| `Calculus.CubicErrorZero` | src/shared/math/calculus.ts:109-143 | Cubics are accepted without splitting, with error 0 |
| `Calculus.IntegrateCubics` | src/shared/math/calculus.ts:76-103 | On cubics the whole result is F(b) - F(a) with error estimate 0, equal bounds included |
| `Calculus.LeafErrorExact` | src/shared/math/calculus.ts:129-134 | On quintics the error estimate of a leaf is the exact error of Simpson's rule on both halves |
| `Calculus.Derivative` | src/shared/math/calculus.ts:30-54 | The halving loop returns the first quotient close to its predecessor, or the one after 12 halvings, with their distance |
| `Calculus.DerivativeExactOnQuartics` | src/shared/math/calculus.ts:30-67 | On polynomials of degree at most 4 the result is the derivative with error 0, whatever step and tolerance |
| `Calculus.DerivativeErrorOnQuintics` | src/shared/math/calculus.ts:26-54 | On quintics the result is off by exactly 4 c[5] h^4 for the last step h: exact iff there is no fifth power; combining the last two quotients would be exact |
| `EditDistance.EditDistance` | src/shared/math/units.ts:601-623 | The two-row loops compute the Levenshtein recurrence |
| `EditDistance.FillRow` | src/shared/math/units.ts:611-620 | One inner pass overwrites the row with the next row of the table |
| `EditDistance.DistanceIsLeastEdits` | src/shared/math/units.ts:601-623 | The distance is the least length of a chain of single insertions, deletions and replacements |
| `EditDistance.ChainAtLeast` | src/shared/math/units.ts:601-623 | No chain of single edits is shorter |
| `EditDistance.ScriptAtLeast` | src/shared/math/units.ts:601-623 | No edit script is cheaper |
| `EditDistance.BestScript` | src/shared/math/units.ts:601-623 | Some edit script costs exactly the distance |
| `EditDistance.ZeroIffEqual` | src/shared/math/units.ts:601-623 | Distance 0 iff equal |
| `EditDistance.Symmetric` | src/shared/math/units.ts:601-623 | Symmetric |
| `EditDistance.TriangleInequality` | src/shared/math/units.ts:601-623 | Triangle inequality |
| `EditDistance.LengthBounds` | src/shared/math/units.ts:601-623 | Between the length difference and the larger length |
| `Finance.PaymentExistsIff` | src/shared/math/finance.ts:84-102 | A finite payment exists iff n > 0 and not (rate -200% and n even) |
| `Finance.PaymentReachesFuture` | src/shared/math/finance.ts:43-102 | Paying the payment leads to the target future value |
| `Finance.PaymentOfFuture` | src/shared/math/finance.ts:43-102 | The payment is recovered from the future value it leads to |
| `Finance.FutureOfPresent` | src/shared/math/finance.ts:43-78 | futureValue inverts presentValue |
| `Finance.PresentOfFuture` | src/shared/math/finance.ts:43-78 | presentValue inverts futureValue |
| `Finance.PresentOfPayment` | src/shared/math/finance.ts:63-102 | The present value of the payments computed for an amount is that amount |
| `Finance.PaymentOfPresent` | src/shared/math/finance.ts:63-102 | The payment is recovered from the present value it has |
| `Finance.BalanceIsFutureValue` | src/shared/math/finance.ts:236-238 | The balance the loop runs is, after every k payments, minus the closed-form future value |
| `Finance.Amortize` | src/shared/math/finance.ts:227-249 | Every row follows the recurrence and the last balance is 0: the final snap changes nothing |
| `Finance.LastBalanceZero` | src/shared/math/finance.ts:239 | The balance before the snap is already 0 |
| `Finance.AmortizationCloses` | src/shared/math/finance.ts:227-249 | Principal portions sum to the loan, interest to n payments minus the loan |
| `Finance.Npv` | src/shared/math/finance.ts:106-117 | The loop computes the discounted sum; the two refusals exactly |
| `Finance.LoanIsFair` | src/shared/math/finance.ts:106-117 | Discounted at the loan rate, minus the loan followed by n payments is worth 0 |
| `Regression.Mean` | src/shared/math/statistics.ts:60-63 | Fails iff empty; otherwise times the count it gives the sum |
| `Regression.Correlation` | src/shared/math/statistics.ts:156-184 | Refusals exactly (a constant series included); otherwise the sign of the covariance and its share of the variances |
| `Regression.LinearRegression` | src/shared/math/statistics.ts:195-228 | Succeeds iff two or more points, equal lengths and neither series constant; returns the line of the normal equations and the correlation |
| `Regression.LeastSquares` | src/shared/math/statistics.ts:210-219 | The fitted line has a strictly smaller squared error than every other line |
| `Regression.ResidualsOrthogonalIff` | src/shared/math/statistics.ts:217-218 | A line satisfies the normal equations iff its residuals sum to 0 and are orthogonal to x |
| `Regression.ExplainedVariance` | src/shared/math/statistics.ts:219-227 | 0 <= r_squared <= 1; the error is (1 - r_squared) of the variance of y; it is 1 iff all points lie on the line |
| `Regression.CorrelationBounded` | src/shared/math/statistics.ts:156-184 | -1 <= r <= 1, and |r| = 1 iff the points lie on one line |
| `Regression.CorrelationUnique` | src/shared/math/statistics.ts:183 | The contract determines r, and the series may be exchanged |
| `Regression.VarianceZeroIff` | src/shared/math/statistics.ts:214-216 | The sum of squared deviations is 0 iff the series is constant |
| `Regression.ConstantYOnLine` | src/shared/math/statistics.ts:219 | A constant y lies on a line that the normal equations give, although the call refuses it |
| `ProxyPool.Pool.constructor` | src/shared/net/proxy/pool.ts:48-68 | All entries fresh, cursor at 0 |
| `ProxyPool.Pool.NextIndex` | src/shared/net/proxy/pool.ts:120-138 | State and choice are those of the specification: healthy ones first by strategy, else the earliest deadline |
| `ProxyPool.Pool.HealthyIndices` | src/shared/net/proxy/pool.ts:75-82 | The healthy indices in order |
| `ProxyPool.Pool.EarliestCooldownIndex` | src/shared/net/proxy/pool.ts:86-99 | The first index with the least deadline |
| `ProxyPool.Pool.PickRoundRobin` | src/shared/net/proxy/pool.ts:101-113 | The first healthy index from the cursor around the ring; the cursor moves past it; the fallthrough is unreachable |
| `ProxyPool.Pool.ReportById` | src/shared/net/proxy/pool.ts:140-162 | Success clears, an abort changes nothing, a failure counts and parks from the threshold on; unknown ids change nothing |
| `PoolRuns.BookedOnAllRunsIff` | src/shared/net/proxy/pool.ts:140-162 | On every run an entry is parked iff its failure counter has reached the threshold, until last failure plus cooldown: holds iff the threshold is at least 1 or the pool is empty |
| `PoolRuns.RunKeepsBooked` | src/shared/net/proxy/pool.ts:140-162 | That bookkeeping is kept by every run from any state that has it |
| `PoolHistory.EntriesTellHistory` | src/shared/net/proxy/pool.ts:140-162 | On every run from a fresh pool an entry's counter is the number of failure reports for its id since the last success, aborts and other ids ignored; it is parked iff that is at least 1 and at least the threshold, until its last failure plus cooldown |
| `PoolHistory.UnhealthyIff` | src/shared/net/proxy/pool.ts:70-73 | An entry is skipped at exactly the clock readings that follow from its reports |
| `PoolHistory.SuccessClears` | src/shared/net/proxy/pool.ts:144-150 | After a success an entry is healthy at every time until its next failure |
| `PoolRuns.BoundedWaiting` | src/shared/net/proxy/pool.ts:101-113 | Round robin: an entry healthy throughout is chosen within as many next() calls as there are entries, whatever is reported |
| `PoolRuns.ChosenWithinDistance` | src/shared/net/proxy/pool.ts:101-113 | More precisely, within its distance from the cursor |
| `Selection.HealthyOrderPreserved` | src/shared/net/proxy/pool.ts:37-38 | Round robin with a fixed healthy set: as many next() calls as it has members return each of them once, in ring order, parked entries skipped |
| `Selection.RandomUniform` | src/shared/net/proxy/pool.ts:39-40 | With the random strategy the k-th of n healthy entries is chosen for exactly the draws in [k/n, (k+1)/n) |
| `Selection.RandomPickUniform` | src/shared/net/proxy/pool.ts:115-118 | Same for any list of distinct candidates |
| `Selection.FallbackIgnoresDraw` | src/shared/net/proxy/pool.ts:86-99 | When nothing is healthy the choice is the first earliest deadline and the cursor stays, under either strategy and for every draw |
| `Selection.FallbackReachesAllIff` | src/shared/net/proxy/pool.ts:39-40 | When nothing is healthy every entry is reached by some draw iff the pool has one entry |
| `FailoverLimits.RandomFallbackNotUniform` | src/shared/net/proxy/pool.ts:39-40 | Two proxies that failed in the same millisecond, reached from a fresh pool: every draw takes the first |
| `Egress.FetchExternal` | src/shared/net/egress.ts:96-174 | Direct iff bypassed or no pool; otherwise pool and result are those of the failover loop with budget min(retries, size) |
| `Failover.NoProxyTwice` | src/shared/net/egress.ts:128-168 | Under the timing condition one request, whether it ends in a response, an abort or exhaustion, tries pairwise distinct proxies, under either strategy and any draws |
| `Failover.LoopFollowsPicks` | src/shared/net/egress.ts:128-173 | Whatever the attempts come back with, the loop tries exactly those proxies up to the first attempt that is no failure, and ends with the last one's response, its abort, or exhaustion with exactly the tried ids |
| `FailoverReports.LoopReportsEachAttempt` | src/shared/net/egress.ts:128-168 | The pool a request leaves behind is what one next() and one report() per attempt make of it: success on a response, nothing on an abort, else the failure |
| `FailoverLimits.NoProxyTwiceIff` | src/shared/net/egress.ts:128-168 | For given clock readings and strategy, no pool, draw or outcome of the last attempt repeats a proxy iff the timing condition holds; round robin also meets it when nothing is parked at the first pick |
| `RoundRobinFailover.FreePoolDistinct` | src/shared/net/proxy/pool.ts:101-113 | Round robin: when the next entries on the ring, one per attempt, are healthy at the first pick, a request tries each of them once, however long it lasts |
| `RoundRobinFailover.PriorCooldownOver` | src/shared/net/egress.ts:128-168 | That is so when every earlier failure has left its cooldown by the first pick |
| `RoundRobinFailover.RoundRobinRepeats` | src/shared/net/proxy/pool.ts:101-113 | Round robin: a request that starts with proxies parked and outlasts its first cooldown repeats a proxy on some pool, whatever its other clock readings |
| `FailoverLimits.TriesWholeSetIff` | src/shared/net/proxy/pool.ts:41-43 | For given clock readings and strategy, every all-failing request on every pool and draw ends with the whole set tried iff there is one attempt per proxy and the timing condition of that strategy holds |
| `Failover.BudgetBelowSizeMisses` | src/shared/net/egress.ts:124 | A budget below the pool size leaves some proxy untried, whatever the clock |
| `FailoverLimits.DefaultBudgetMisses` | src/config.ts:138-140 | Four proxies, the default strategy and budget of three, three quick failures: the timing condition holds and one proxy is never tried |
| `FailoverLimits.SameMillisecondRepeats` | src/shared/net/proxy/pool.ts:41-43 | A failure in the millisecond of an earlier one: the fallback picks one proxy twice, under either strategy |
| `FailoverLimits.OutlastingCooldownRepeats` | src/shared/net/proxy/pool.ts:115-118 | Random strategy, fresh pool: a request outlasting the first cooldown can draw its first proxy again |
| `FailoverRequests.UniformReachable` | src/shared/net/proxy/pool.ts:120-162 | The pools of these counterexamples, with any cursor, are a fresh pool and what calls and failure reports at one time make of it |
| `Failover.ExhaustionTriedAll` | src/shared/net/egress.ts:124-173 | With a budget of the pool size, exhaustion within the cooldown means every proxy was tried |
| `Failover.LoopExhausts` | src/shared/net/egress.ts:128-173 | If all attempts fail the loop ends exhausted with exactly the picked ids |
| `Failover.ErrorRethrownIff` | src/shared/net/egress.ts:34-49 | An error reaches the caller as it is iff its attempt found the signal fired or the error carries an abort name, and every attempt before it threw something else |
| `Failover.OtherErrorsRetried` | src/shared/net/egress.ts:154-166 | Any other error parks the proxy it came through and the loop goes on |
| `FailoverLimits.TypeErrorDoesNotBubble` | src/shared/net/egress.ts:44 | A TypeError without a code, on a pool of one, ends in exhaustion with the proxy parked |
| `Failover.AttemptParks` | src/shared/net/egress.ts:154-156 | With threshold 1 a failed attempt parks exactly the entry it used |
| `RateLimiter.Limiter.Script` | src/core/rate-limiter.ts:26-42 | The stored set is trimmed, extended and given its expiry as the script does; other scopes unchanged |
| `RateLimiter.Limiter.Check` | src/core/rate-limiter.ts:66-101 | Refuses limits or windows below 1 without touching the store; otherwise allowed iff fewer than limit members are left in the window, remaining, reset time and least waiting time accordingly, and the new member stored iff allowed |
| `RateLimiter.OldestScore` | src/core/rate-limiter.ts:39 | The least score of a non-empty set |
| `RateLimiterRuns.RunTracks` | src/core/rate-limiter.ts:26-42 | On every run the set holds exactly the accepted requests still in the window, and never expires before they leave it |
| `RateLimiterRuns.FoundIsRecent` | src/core/rate-limiter.ts:32-33 | Trimmed, possibly dropped, the set equals the recent part of the full history |
| `RateLimiterRuns.DecidesAsFullHistory` | src/core/rate-limiter.ts:32-41 | At any call of any run the decision is the one the full history gives, when members in the window are distinct; it never over-counts |
| `RateLimiterRuns.SlidingWindowSafety` | src/core/rate-limiter.ts:26-42 | With fresh members every window (t - w, t] of every run holds at most limit accepted calls |
| `RateLimiterRuns.SafeForAllDrawsIff` | src/core/rate-limiter.ts:35 | For all random draws the bound holds iff the limit is 1 |
| `RateLimiterRuns.HintExact` | src/core/rate-limiter.ts:82-93 | After a denial and with nothing accepted since, a call succeeds iff it comes at or after resetAtMs |
| `RateLimiterRuns.RetryExact` | src/core/rate-limiter.ts:39-41 | One retry after a denial succeeds iff the oldest request has left the window |
| `RateLimiterRuns.SecondsSuffice` | src/core/rate-limiter.ts:91-100 | retryAfterSec is at least 1, reaches the reset time, and is the least such number |
| `RateLimiterRuns.WaitingSucceeds` | src/core/rate-limiter.ts:82-100 | After a denial and with nothing accepted since, a call retryAfterSec seconds later or more is allowed |
| `LimiterAnswers.AnswersCountAllowed` | src/core/rate-limiter.ts:66-101 | Each answer of a run: allowed and remaining are those given by the number of calls answered allowed in (now - window, now], for members that differ; never stricter otherwise |
| `LimiterAnswers.AllowedCallsBounded` | src/core/rate-limiter.ts:66-101 | With draws that differ no window of the configured length holds more than limit calls answered allowed |
| `LimiterAnswers.BoundedForAllDrawsIff` | src/core/rate-limiter.ts:35 | For all draws that holds on every run iff the limit is 1 |
| `LimiterAnswers.RefusalHintExact` | src/core/rate-limiter.ts:82-101 | After an answer that refuses and as long as none allows, a call is allowed iff it reaches the reported reset time; a caller that waits the reported seconds, the least that suffice, is let in |
| `Scheduler.Scheduler.RunOnce` | src/shared/workers/scheduler.ts:66-76 | A tick after stop does nothing; during a run it is counted as skipped; otherwise a run starts; the invariant is kept, as by every method of the class |
| `Scheduler.SettledRunCounted` | src/shared/workers/scheduler.ts:92-101 | Once the handler has settled, no timer and no other event on any continuation changes how its run is counted: by its result, never as a timeout |
| `Scheduler.SilentRunTimesOut` | src/shared/workers/scheduler.ts:104-110 | Once the timer has fired on a handler that stays silent, its run is counted as a timeout on any continuation |
| `Scheduler.Scheduler.AfterRace` | src/shared/workers/scheduler.ts:115-137 | Counts the run once: by the handler's result if it settled, else as a timeout |
| `Scheduler.Scheduler.Finally` | src/shared/workers/scheduler.ts:138-141 | Clears inFlight and running; a crashed run rejects what stop() awaits |
| `Scheduler.Scheduler.Stop` | src/shared/workers/scheduler.ts:177-187 | Sets stopped and captures the running promises |
| `Scheduler.OutcomeFinal` | src/shared/workers/scheduler.ts:193-202 | The outcome of stop() stands on any continuation, and a drained scheduler stays without runs in flight |
| `Scheduler.ReachableInvariant` | src/shared/workers/scheduler.ts:66-145 | Over all interleavings: flag, promise and phase agree, at most one run in flight per worker, every fire accounted for once |
| `Scheduler.StepKeepsInvariant` | src/shared/workers/scheduler.ts:66-203 | Every step keeps that invariant |
| `Scheduler.FiresAddUp` | src/shared/workers/scheduler.ts:66-145 | fires = skipped + success + failure + timeout + synchronous throws + racing; without synchronous throws iff none happened |
| `Scheduler.EveryTickFires` | src/shared/workers/scheduler.ts:66-72 | Every tick before stop() counts as a fire, the skipped ones too; handlers executing unseen are the timeouts not settled since |
| `Scheduler.DrainedMeansNoneInFlight` | src/shared/workers/scheduler.ts:185-195 | Outcome drained implies no run in flight |
| `Scheduler.NothingStartsAfterStop` | src/shared/workers/scheduler.ts:67 | After stop no run starts and no fire counts on any continuation |
| `Scheduler.CountedByResult` | src/shared/workers/scheduler.ts:66-145 | From a tick to its release, on every continuation, a run is counted once and under one status, by a success or failure the handler reported or a timer that fired |
| `Scheduler.RunCompletes` | src/shared/workers/scheduler.ts:115-141 | From any state a run in flight can finish in at most three steps without its handler doing anything |
| `Scheduler.NeverDelayed` | src/shared/workers/scheduler.ts:66-145 | No continuation without the run's own release adds to the steps it still needs |
| `Scheduler.DrainedWithOrphan` | src/shared/workers/scheduler.ts:185-203 | A drained scheduler may still have a timed-out handler executing |
| `Scheduler.RejectingIff` | src/shared/workers/scheduler.ts:92 | After stop() the awaited promises are rejected iff a run whose handler threw synchronously was unreleased at the call and has been released since; only then is the outcome Rejected |
| `Scheduler.ThrowRejectsStop` | src/shared/workers/scheduler.ts:138-187 | A run from the start in which one synchronous throw is counted under no status and the outcome is Rejected |
| `Collector.QueueSources` | src/workers/fetch-news.ts:50-66 | Source after source the first perSource items of each feed reached, in feed order, ranked from 1 under its key, and nothing else |
| `Collector.Collector.constructor` | src/workers/fetch-news.ts:70-71 | Empty results, cursor 0, max(1, concurrency) workers |
| `Collector.Collector.WorkerProceeds` | src/workers/fetch-news.ts:74-79 | Top of a worker's loop: stop on abort, claim the next index, or finish |
| `Collector.Collector.ArticleArrives` | src/workers/fetch-news.ts:80-92 | The claimed slot receives the article; a failed fetch leaves it empty |
| `Collector.Collector.Collected` | src/workers/fetch-news.ts:99 | The present results in slot order; once all workers are done without abort, the bodies of the first items of each feed that could be fetched |
| `Collector.ConcurrencyUnobservable` | src/workers/fetch-news.ts:68-99 | Any number of workers, any interleaving, no abort: each index claimed once and the output is the sequential one |
| `Collector.CollectsFirstItems` | src/workers/fetch-news.ts:50-99 | Without abort, any workers and interleaving: the output is, source after source, the bodies of the first perSource feed items that could be fetched, each with its source and rank |
| `CollectorRuns.AbortKeepsOrder` | src/workers/fetch-news.ts:50-99 | With an abort anywhere the output is an in-order selection of the queue with strictly increasing rank per source |
| `Collector.RunKeepsInvariant` | src/workers/fetch-news.ts:70-97 | On every run claims are in order and unique, a claimed index is being fetched by one worker or has its result |
| `CollectorRuns.RunsEnd` | src/workers/fetch-news.ts:73-97 | Every step but an abort uses up one of finitely many; an unfinished run always has such a step |
| `CollectorRuns.AbortStopsClaims` | src/workers/fetch-news.ts:74-75 | Once aborted no worker claims another index |
| `CollectorRuns.AtMostConcurrency` | src/workers/fetch-news.ts:96-97 | No run fetches more articles at once than the concurrency, at least 1 |
| `CollectorRuns.ConcurrencyReached` | src/workers/fetch-news.ts:96-97 | Some run fetches that many at once, or the whole queue |

## Left out

- Elimination.Work: rows are values, so a row exchange that shared one row object between two places is not modelled; the code never does that.
- Equations.SolvePolynomial: degrees 3 to 8 return a marker for the iterative method; Durand-Kerner, Newton and bisection rest on convergence in floating point.
- Calculus.Derivative: the default step computed from x is a parameter, and not 0.
- Calculus.IntegrateExactOnQuintics: says nothing about integrands that are not polynomials; for those the tolerance accounting holds.
- Polynomials.ExtractionPreservesMeaning: one direction; a tree that is a polynomial in disguise, such as x*x/x, is not extracted.
- Failover.NoProxyTwice: one request at a time; other requests reporting to the same pool in between are not modelled.
- RateLimiterRuns.SlidingWindowSafety: the limit and window of a scope stay the same during a run.
- RateLimiter.Limiter.Script: the reply of a script is an allowance or a denial value instead of a triple of numbers.
- Scheduler.Scheduler.RunOnce: start() and runOnStartup are ordinary first ticks; run durations, logging and metrics other than the counts are not modelled.
- Scheduler.DrainedMeansNoneInFlight: a handler that outlived its timeout may still be executing.
- Collector.QueueSources: feeds are fetched one after the other; what a feed or an article contains is a parameter.
- Egress.FetchExternal: the message and label of the final error, cooldown metrics and latency records.
- Finance: simple and compound interest (single expressions) and irr, which brackets a root of a function without a closed form.
- Statistics: medians, percentiles, modes and distributions are short expressions over sorted copies or library functions.
- Matrix transpose, addition, subtraction and rounding: entry-by-entry maps.
- Units: the table, its aliases and affine conversions; the suggestion list sorts by the modelled distance and truncates.
- Evaluator: the table of built-in functions (trigonometry, gamma, error function, logarithms) and angle units.
- The HTTP server, sessions, storage, configuration, command line, DNS and address checks, feed and article extraction.
