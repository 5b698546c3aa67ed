# Proofs about the BL702 sampling firmware and the SDK code it builds on

The firmware samples a PCM1802 converter with a BL702 and hands the samples to a host over USB. This project models
the parts of the repository whose correctness is not evident from reading one function, in Dafny 4.11, and proves what
they are for. Verify with `dafny verify dfyconfig.toml`.

| files | what they model |
|---|---|
| `KconfigExpr`, `KconfigValue` | tristate expressions, and what the value of a symbol of any type means: one rule for each symbol, and one solution to all rules |
| `KconfigCoherence`, `KconfigCache` | cached values and pruned recursive invalidation, as a class whose symbols change in place |
| `KconfigAssignable`, `KconfigLaws`, `KconfigLocked` | laws of the values: what a value is by the user value, the visibility and the written properties, what can be set, and where what is offered cannot |
| `KconfigLoops`, `KconfigCircles` | the three-colour search for dependency loops, a whole session, and what the search misses |
| `KconfigGrammar`, `KconfigParser` | the expression grammar, its recursive-descent parser, the printer, and the helpers on chains of && and \|\| |
| `KconfigForest`, `KconfigNesting`, `KconfigMenu` | the menu tree: dependency propagation, implicit submenus, flattening and removal of ifs, as functions on forests and as relinking of nodes in memory; the iterative walk |
| `KconfigStrings` | escaping of string values and the way through the configuration file |
| `RingSeq`, `RingBuffer` | the byte ring with mirror bits |
| `BflogQueue`, `BflogCalendar`, `BflogDlist` | the log queue of variable-length records, the calendar, and the lists of outputs |
| `SampleFrames`, `SampleSteps`, `SampleProgress`, `SamplePipeline` | the way of a sample from interrupt to host: byte formats, the steps on values, and the steps in memory, which may interleave |
| `FormatInteger`, `FormatText`, `FormatAlternative`, `FormatLaws`, `Vsnprintf` | integer conversion in a bounded buffer, whole formats, what each part of a directive does, and truncation |
| `AudioPll` | the fixed-point arithmetic of the sample clock |
| `Numbers`, `Options`, `Seqs` | minimum and maximum, a value that may be missing, and facts about sequences of anything |

The models keep the shape of the code: objects and buffers that change in place are classes and arrays with methods
that are proved against functions on values, and the laws are then proved about those functions and over whole runs.
References between menu nodes and between list nodes are node numbers.

## What turned out not to hold

Where the code does less than its purpose suggests, the project states exactly when it holds.

- Passing the loop check does not make the evaluation of values well founded: MODULES is looked at for the type of a
  tristate symbol, and the dependents sets do not record that. With nothing raised, the evaluation is well founded if and
  only if computing MODULES does not look at MODULES (`LooksAreWellFounded`). Two configurations show that this depends on
  user values: in one MODULES and a tristate symbol are computed from each other (`LoopCheckMissesModules`), in the other
  no value is, and only the warning about unsatisfied selects closes the circle (`LoopCheckMissesWarning`).
- The test for automatic submenus also accepts `symbol != y`, against its own comment. What it accepts is n while the
  symbol is n exactly where it would have passed without that case (`DependingIsOff`, `NotYIsNotOff`).
- `assignable` is documented to hold the values that would be respected when set. For a symbol visible as m, selected as m and
  implied as y it holds m, but the symbol is y whatever is set; everywhere else it holds exactly the values that are taken
  on (`OfferedCanBeSet`, `OfferIsBroken`). Its documentation also leaves out the answer (0, 1).
- A string value with a line break in it is lost on the way through the file (`FileRoundTrip`).
- An overwriting bulk write empties the ring when reader and writer share a mirror and the write both wraps and
  overwrites (`ForcedExactly`). With reads between its measuring and its lock it may also bring back bytes that were read
  (`ForceAround`).
- Dates after 2102-01-01 are one day early (`Unix2Time`).
- Deleting a recorder leaves its suspended outputs unlinked but suspended; unless `bflog_direct_create()`, which is not
  modelled, sets them up anew, they can never be appended again (`DeleteStrands`, `StrandedForGood`).
- The NUL that `queue_get()` puts behind a record lies outside the load area of `bflog_flush()` exactly if the record is as
  long as the area (`QueueGet`). A text of more than 252 characters makes a message that long (`FlushAreaFits`).
- A negative precision from an argument counts as 0 where the standard has it count as left out, which shows for zeros and
  in fields to be filled with zeros (`NegativePrecision`).
- Integer fields that need more than 32 characters lose zeros, their prefix or their sign (`IntegerIsStandard`,
  `AlternativeIsStandard`, `SignGetsLost`).

## Model

| member | source | states |
|---|---|---|
| `KconfigExpr.ReadsDetermineMeaning` | source/Audio_pcm1802/SDK/tools/kconfig/kconfiglib.py:5988-6042 | Short-circuiting is harmless: two environments that agree on the symbols evaluation really looks at give an expression the same value, and make it look at the same symbols |
| `KconfigExpr.ReadsAreItems` | source/Audio_pcm1802/SDK/tools/kconfig/kconfiglib.py:5988-6042 | Evaluation looks at no symbol that does not occur in the expression |
| `KconfigValue.ReadsAreMentions` | source/Audio_pcm1802/SDK/tools/kconfig/kconfiglib.py:3466-3535 | Everything the computation of a value reads, for every symbol type, is mentioned in a property of the symbol or is MODULES read through a tristate type |
| `KconfigValue.ValAgrees` | source/Audio_pcm1802/SDK/tools/kconfig/kconfiglib.py:4287-4515 | The value of a symbol depends on the symbols it reads and on nothing else |
| `KconfigValue.SolutionUnique` | source/Audio_pcm1802/SDK/tools/kconfig/kconfiglib.py:4287-4515 | Where what is looked at can be ranked, the rules of all symbols together have no second solution |
| `KconfigValue.FromScratch` | source/Audio_pcm1802/SDK/tools/kconfig/kconfiglib.py:4428-4515 | Without loops among what is mentioned they have one: applying all rules often enough settles on a solution |
| `KconfigValue.RankedIsWellFounded` | source/Audio_pcm1802/SDK/tools/kconfig/kconfiglib.py:4287-4515 | Without loops among what is mentioned, computing the values is well founded for all user values, and computes that solution |
| `KconfigValue.LooksAreMentions` | source/Audio_pcm1802/SDK/tools/kconfig/kconfiglib.py:4428-4515 | Everything looked at, all evaluations for the warning about selects included, is mentioned, or occurs in the direct dependencies of a selecting symbol, or is MODULES looked at for the type of a tristate symbol |
| `KconfigCoherence.KeptValuesSame` | source/Audio_pcm1802/SDK/tools/kconfig/kconfiglib.py:4865-4894 | After a pruned sweep, every symbol that still has a cached value has the same value from scratch under the new user values |
| `KconfigCoherence.SweepKeepsCoherent` | source/Audio_pcm1802/SDK/tools/kconfig/kconfiglib.py:4865-4894 | Pruned invalidation is sound: what a sweep leaves in the caches is right for the changed user value, by the invariant that everything a cached item read is cached as well |
| `KconfigCoherence.NoPromptKeepsCoherent` | source/Audio_pcm1802/SDK/tools/kconfig/kconfiglib.py:4896-4916 | Skipping the invalidation of a symbol without a prompt is sound |
| `KconfigCache.Kconfig.ExprValue` | source/Audio_pcm1802/SDK/tools/kconfig/kconfiglib.py:5988-6042 | The short-circuiting evaluator, filling caches as it goes, returns the value that the expression means |
| `KconfigCache.Kconfig.Visibility` | source/Audio_pcm1802/SDK/tools/kconfig/kconfiglib.py:4517-4524 | Cached or computed, the visibility is the one from scratch, and the caches stay right |
| `KconfigCache.Kconfig.TriValue` | source/Audio_pcm1802/SDK/tools/kconfig/kconfiglib.py:4428-4515 | Cached or computed, the tristate value is the one from scratch: prompts, defaults, selects, implies and promotion of m included |
| `KconfigCache.Kconfig.StrValue` | source/Audio_pcm1802/SDK/tools/kconfig/kconfiglib.py:4287-4426 | The same for string values: user values, defaults, ranges and clamping of int and hex symbols included |
| `KconfigCache.Kconfig.WarnSelectUnsatisfiedDeps` | source/Audio_pcm1802/SDK/tools/kconfig/kconfiglib.py:4953-4989 | Lists exactly the selecting symbols whose select exceeds the direct dependencies, evaluating every alternative without the short cut of \|\|, and leaves the caches right |
| `KconfigCache.Kconfig.BuildDep` | source/Audio_pcm1802/SDK/tools/kconfig/kconfiglib.py:3466-3535 | The dependents sets come to hold exactly the symbols that mention a non-constant symbol |
| `KconfigCache.Kconfig.RecInvalidate` | source/Audio_pcm1802/SDK/tools/kconfig/kconfiglib.py:4865-4894 | Clears the symbol and, transitively, every dependent with a cached visibility; terminates on every dependents graph, loops included, as each call empties one more cache |
| `KconfigCache.Kconfig.SetValue` | source/Audio_pcm1802/SDK/tools/kconfig/kconfiglib.py:4558-4645 | Accepts exactly the valid values, stores them, and leaves caches that are right for the new user values |
| `KconfigCache.Kconfig.UnsetValue` | source/Audio_pcm1802/SDK/tools/kconfig/kconfiglib.py:4647-4654 | Forgets the user value and leaves right caches |
| `KconfigCache.Kconfig.Run` | source/Audio_pcm1802/SDK/tools/kconfig/kconfiglib.py:4865-4894 | Cache coherence over whole runs: every read and every change, in any order, is answered as if all values were computed from scratch each time, wherever that computation is well founded; short cuts count, so that only what is really looked at has to be |
| `KconfigCache.Kconfig.AssignableValues` | source/Audio_pcm1802/SDK/tools/kconfig/kconfiglib.py:4813-4857 | Works out the values offered for a symbol from its visibility, its selects and an imply of y, and leaves right caches |
| `KconfigAssignable.OfferedIsTaken` | source/Audio_pcm1802/SDK/tools/kconfig/kconfiglib.py:4045-4055 | At every solution a visible bool or tristate symbol has its user value exactly when that value is among those offered; where m alone is offered in spite of an imply of y, every user value ends up as y |
| `KconfigAssignable.OfferUnchanged` | source/Audio_pcm1802/SDK/tools/kconfig/kconfiglib.py:4813-4857 | Without loops among what is mentioned, what is offered does not depend on the user value there is |
| `KconfigAssignable.UnseenHasNoEffect` | source/Audio_pcm1802/SDK/tools/kconfig/kconfiglib.py:4456-4458 | The user value of a symbol nobody can see changes no value of any symbol |
| `KconfigLaws.OfferedCanBeSet` | source/Audio_pcm1802/SDK/tools/kconfig/kconfiglib.py:4045-4055 | Setting a visible symbol to u gives it the value u if and only if u is offered, or, in the branch that forgets the promotion, gives y; setting a symbol nobody can see changes nothing |
| `KconfigLocked.OfferIsBroken` | source/Audio_pcm1802/SDK/tools/kconfig/kconfiglib.py:4855-4857 | A concrete configuration in which m is all that is offered for a symbol, and setting it to m makes it y |
| `KconfigLaws.VisibilityIs` | source/Audio_pcm1802/SDK/tools/kconfig/kconfiglib.py:6286-6313 | A symbol is hidden exactly when all its prompts are, and visible as y exactly when a prompt is, or a prompt is visible as m and the symbol cannot be m |
| `KconfigLaws.SelectsAndTypes` | source/Audio_pcm1802/SDK/tools/kconfig/kconfiglib.py:4479-4492 | A value is never below the selects, and never m for a symbol that is bool in effect or implied as y |
| `KconfigLaws.UserValueIsBounded` | source/Audio_pcm1802/SDK/tools/kconfig/kconfiglib.py:4456-4492 | The value of a visible symbol with a user value is the smaller of that and the visibility, or the larger of this and the selects, with y for m where m cannot be; no default and no imply counts |
| `KconfigLaws.DefaultsAndImplies` | source/Audio_pcm1802/SDK/tools/kconfig/kconfiglib.py:4460-4492 | Otherwise it is so with the first default that holds, bounded by its condition, or n without one, which an imply raises exactly while the direct dependencies are not n |
| `KconfigLaws.ListedAreAbove` | source/Audio_pcm1802/SDK/tools/kconfig/kconfiglib.py:4953-4989 | The warning names exactly the symbols with a select that is above the direct dependencies |
| `KconfigLaws.StringIs` | source/Audio_pcm1802/SDK/tools/kconfig/kconfiglib.py:4404-4414 | A visible string symbol with a user value has that; any other has the text of the first default that holds, or none |
| `KconfigLaws.NumberIsInRange` | source/Audio_pcm1802/SDK/tools/kconfig/kconfiglib.py:4313-4402 | The value of an int or hex symbol lies in the range in force, whatever user value and defaults are, if the range holds any number |
| `KconfigLaws.UserNumberIsKept` | source/Audio_pcm1802/SDK/tools/kconfig/kconfiglib.py:4335-4357 | A user value in range, of a visible symbol, is kept to the letter |
| `KconfigLaws.DefaultNumberIsClamped` | source/Audio_pcm1802/SDK/tools/kconfig/kconfiglib.py:4359-4394 | Without one the first default that holds is kept to the letter if it is in range, and becomes the nearest bound if not |
| `KconfigLaws.MissingNumberIsClamped` | source/Audio_pcm1802/SDK/tools/kconfig/kconfiglib.py:4377-4394 | Without a default either there is no text, unless 0 is out of range |
| `KconfigLaws.NumberIsFree` | source/Audio_pcm1802/SDK/tools/kconfig/kconfiglib.py:4335-4378 | Where no range is in force every non-empty user value of a visible symbol is kept, and every default |
| `KconfigLaws.StrCmpIsLexicographic` | source/Audio_pcm1802/SDK/tools/kconfig/kconfiglib.py:6361-6364 | Strings are compared in the order of the dictionary |
| `KconfigLaws.RelationsMean` | source/Audio_pcm1802/SDK/tools/kconfig/kconfiglib.py:6017-6042 | Each of the six relations compares tristates and numbers by size; two string symbols, and whatever has no number on one side, in the order of the dictionary |
| `KconfigLaws.SettingTakesRightValues` | source/Audio_pcm1802/SDK/tools/kconfig/kconfiglib.py:4558-4645 | set_value() takes exactly the values that are right for the type, tristates also by their letters, and refuses anything else without a change |
| `KconfigLaws.RunsKeepRight` | source/Audio_pcm1802/SDK/tools/kconfig/kconfiglib.py:4558-4654 | No run leaves a user value that is wrong for the type of its symbol |
| `KconfigLoops.CheckDepLoopSym` | source/Audio_pcm1802/SDK/tools/kconfig/kconfiglib.py:6559-6665 | The three-colour search: colour 1 is exactly the call stack, finished symbols come after all their dependents, an unwinding tuple is a chain of dependents that ends at the symbol, what is raised is a loop |
| `KconfigLoops.FoundKeepsChain` | source/Audio_pcm1802/SDK/tools/kconfig/kconfiglib.py:6668-6676 | Each step of the unwinding keeps the tuple a chain; when it is back at its first element, it is a loop in order |
| `KconfigLoops.CheckDepLoops` | source/Audio_pcm1802/SDK/tools/kconfig/kconfiglib.py:1117-1120 | Checking all defined symbols raises if and only if the dependents graph has a loop, and otherwise finishes them in a topological order |
| `KconfigLoops.OrderExcludesLoops` | source/Audio_pcm1802/SDK/tools/kconfig/kconfiglib.py:6559-6665 | A finishing order and a loop exclude each other |
| `KconfigLoops.OrderGivesRank` | source/Audio_pcm1802/SDK/tools/kconfig/kconfiglib.py:6559-6665 | If nothing is raised, what symbols lead to can be ranked if and only if MODULES does not lead back to itself; this holds for what is looked at as well as for what is mentioned |
| `KconfigLoops.LooksAreWellFounded` | source/Audio_pcm1802/SDK/tools/kconfig/kconfiglib.py:4273-4284 | Exact for what is looked at under given user values, the evaluations for warnings included: the computation of all values is well founded if and only if computing MODULES does not look at MODULES |
| `KconfigLoops.MentionsAreWellFounded` | source/Audio_pcm1802/SDK/tools/kconfig/kconfiglib.py:4273-4284 | What can be checked beforehand: if MODULES does not lead to itself by what is mentioned, counting it as mentioned by every tristate symbol, the computation is well founded for all user values |
| `KconfigLoops.RankExcludesLoops` | source/Audio_pcm1802/SDK/tools/kconfig/kconfiglib.py:6559-6665 | Conversely, where what is mentioned can be ranked there is no loop to raise |
| `KconfigCircles.EachFromTheOther` | source/Audio_pcm1802/SDK/tools/kconfig/kconfiglib.py:4273-4284 | In the configuration below, MODULES is computed from A whatever the values are, and A from MODULES exactly if the user has set A to m |
| `KconfigCircles.LoopCheckMissesModules` | source/Audio_pcm1802/SDK/tools/kconfig/kconfiglib.py:4273-4284 | A concrete configuration in which the search raises nothing, while the computation is well founded if and only if the user has not set A to m |
| `KconfigCircles.LookedAtForWarning` | source/Audio_pcm1802/SDK/tools/kconfig/kconfiglib.py:4953-4989 | In another one the value of MODULES does not depend on that of T; but T is evaluated for the warning about the selects of MODULES, and looks at MODULES exactly if the user has set it to m |
| `KconfigCircles.LoopCheckMissesWarning` | source/Audio_pcm1802/SDK/tools/kconfig/kconfiglib.py:4480-4483 | There too the search raises nothing, while the computation is well founded if and only if the user has not set T to m |
| `KconfigLoops.Session` | source/Audio_pcm1802/SDK/tools/kconfig/kconfiglib.py:1114-1120 | Set up, check, and serve a run: a loop is reported exactly when the dependents graph has one; without one all answers are those from scratch, provided only that at no point of the run MODULES is computed from itself |
| `KconfigGrammar.TextIsParsed` | source/Audio_pcm1802/SDK/tools/kconfig/kconfiglib.py:3376-3460 | Every text of the grammar is accepted, with the tree it stands for, and nothing behind the text is used up |
| `KconfigGrammar.ParsedIsText` | source/Audio_pcm1802/SDK/tools/kconfig/kconfiglib.py:3376-3460 | Whatever the parser accepts is a text of the grammar, and the tree returned is the one the text stands for |
| `KconfigGrammar.Unambiguous` | source/Audio_pcm1802/SDK/tools/kconfig/kconfiglib.py:3376-3460 | A token string stands for at most one expression |
| `KconfigGrammar.ConditionIsTransformed` | source/Audio_pcm1802/SDK/tools/kconfig/kconfiglib.py:3433-3441 | Parsing a condition accepts the same strings and rewrites exactly those m that stand alone as a symbol |
| `KconfigGrammar.TransformKeepsMeaning` | source/Audio_pcm1802/SDK/tools/kconfig/kconfiglib.py:3433-3441 | While modules are on the rewriting changes no value |
| `KconfigGrammar.TreeIsWorth` | source/Audio_pcm1802/SDK/tools/kconfig/kconfiglib.py:3433-3441 | In every environment a condition has the value read off its grammar with each m that stands alone worth the smaller of m and MODULES, while an m in a relation is m; any other text has it with every m worth m |
| `KconfigGrammar.LoneM` | source/Audio_pcm1802/SDK/tools/kconfig/kconfiglib.py:3433-3441 | The condition m is worth what MODULES is as long as that is not y, and m then |
| `KconfigGrammar.PrintedIsText` | source/Audio_pcm1802/SDK/tools/kconfig/kconfiglib.py:6060-6101 | What is printed is a text of the grammar and stands for the right-nested expression |
| `KconfigGrammar.RoundTrip` | source/Audio_pcm1802/SDK/tools/kconfig/kconfiglib.py:6060-6101 | Printing and parsing back uses all tokens, keeps the value in every environment, and returns the identical tree if and only if no && has an && and no \|\| an \|\| as its left operand |
| `KconfigGrammar.MakeAndMeaning` | source/Audio_pcm1802/SDK/tools/kconfig/kconfiglib.py:2863-2875 | _make_and() means minimum, its simplifications notwithstanding |
| `KconfigGrammar.MakeOrMeaning` | source/Audio_pcm1802/SDK/tools/kconfig/kconfiglib.py:2877-2889 | _make_or() means maximum |
| `KconfigGrammar.SelectsAdded` | source/Audio_pcm1802/SDK/tools/kconfig/kconfiglib.py:3710-3713 | One more select keeps a reverse dependency a disjunction whose alternatives each come from a symbol, which the warning about selects relies on |
| `KconfigGrammar.SplitInto` | source/Audio_pcm1802/SDK/tools/kconfig/kconfiglib.py:6163-6173 | The walk of split_expr() appends the operands of the topmost chain in order |
| `KconfigGrammar.SplitKeepsMeaning` | source/Audio_pcm1802/SDK/tools/kconfig/kconfiglib.py:6131-6173 | The parts are of another kind than the chain, and together have its value |
| `KconfigGrammar.SplitIgnoresBrackets` | source/Audio_pcm1802/SDK/tools/kconfig/kconfiglib.py:6131-6173 | How a chain is bracketed makes no difference to its parts |
| `KconfigParser.Parser.ParseExpr` | source/Audio_pcm1802/SDK/tools/kconfig/kconfiglib.py:3376-3416 | The method that moves along the tokens answers as the parsing function does and stops where its rest begins |
| `KconfigParser.Parser.ParseFactor` | source/Audio_pcm1802/SDK/tools/kconfig/kconfiglib.py:3426-3460 | The same for factors: symbols, relations, negations, parentheses and the malformed cases |
| `KconfigParser.Parser.ExpectExprAndEol` | source/Audio_pcm1802/SDK/tools/kconfig/kconfiglib.py:2579-2585 | Returns a condition if and only if the whole rest of the line is a text of the grammar, and then its tree with m rewritten, whose value is what the text is worth by its grammar, MODULES on or off |
| `KconfigForest.DependingIsOff` | source/Audio_pcm1802/SDK/tools/kconfig/kconfiglib.py:6439-6464 | While the symbol is n, some conjunct that the code accepts is n if and only if the test passes without symbol != y, as its comment has it; then the whole expression is n |
| `KconfigForest.NotYIsNotOff` | source/Audio_pcm1802/SDK/tools/kconfig/kconfiglib.py:6457-6459 | With symbol != y the test passes although the expression is y exactly when the symbol is not: the conjunction binds tighter than the disjunction |
| `KconfigForest.FlattenKeeps` | source/Audio_pcm1802/SDK/tools/kconfig/kconfiglib.py:6476-6502 | Flattening leaves the preorder of all nodes that are not ifs as it was, and no children below a node without prompt |
| `KconfigForest.RemoveIfsCleans` | source/Audio_pcm1802/SDK/tools/kconfig/kconfiglib.py:6505-6528 | After flattening, removing the ifs removes no other node |
| `KconfigForest.FinalizeKeepsOrder` | source/Audio_pcm1802/SDK/tools/kconfig/kconfiglib.py:3556-3635 | Finalizing a node keeps the preorder of all nodes that are not ifs, leaves clean children below it, and leaves the rest of the chain as parsed |
| `KconfigForest.TakeIsMaximal` | source/Audio_pcm1802/SDK/tools/kconfig/kconfiglib.py:3585-3600 | The implicit submenu of a symbol is a maximal run: each of its nodes depends on the symbol, and the sibling after it does not |
| `KconfigNesting.DependsOnIsDemand` | source/Audio_pcm1802/SDK/tools/kconfig/kconfiglib.py:6439-6464 | The test passes exactly if an operand of the topmost && is the symbol, symbol = m, symbol = y, symbol != n or symbol != y, either way round |
| `KconfigNesting.TreeNests` | source/Audio_pcm1802/SDK/tools/kconfig/kconfiglib.py:3580-3600 | In the finalized tree a node that directly followed a symbol with a prompt is a child of that symbol if and only if its prompt condition, or without a prompt its dependency, has such an operand |
| `KconfigNesting.TreeStillDemands` | source/Audio_pcm1802/SDK/tools/kconfig/kconfiglib.py:3637-3687 | What a written dependency or prompt condition demands, the final one demands as well unless it has come to n; and a prompt demands what the dependency of its node does |
| `KconfigForest.FinalizeDistinct` | source/Audio_pcm1802/SDK/tools/kconfig/kconfiglib.py:3556-3635 | No node is doubled and none appears from elsewhere |
| `KconfigForest.FinalizeSpreads` | source/Audio_pcm1802/SDK/tools/kconfig/kconfiglib.py:3556-3687 | Implicit submenus, flattening and the removal of ifs leave no trace in the propagated conditions |
| `KconfigForest.SpreadGates` | source/Audio_pcm1802/SDK/tools/kconfig/kconfiglib.py:3637-3687 | Propagation means conjunction: every condition comes out as its written value limited by the dependencies of the node and of all enclosing nodes, prompts of symbols also by every enclosing visible if |
| `KconfigForest.TreeConjoins` | source/Audio_pcm1802/SDK/tools/kconfig/kconfiglib.py:3556-3687 | The same for every node of a whole tree, in every environment |
| `KconfigForest.PreorderFacts` | source/Audio_pcm1802/SDK/tools/kconfig/kconfiglib.py:1934-1956 | A preorder without doubled nodes lists every node exactly once |
| `KconfigMenu.SegRetarget` | source/Audio_pcm1802/SDK/tools/kconfig/kconfiglib.py:3598-3600 | Assigning the next field of the last node of a chain moves the end of the chain and changes nothing else |
| `KconfigMenu.Menus.PropagateDeps` | source/Audio_pcm1802/SDK/tools/kconfig/kconfiglib.py:3637-3687 | Walking the children by their next fields gives each its conditions once, and touches no link |
| `KconfigMenu.Menus.FlattenFrom` | source/Audio_pcm1802/SDK/tools/kconfig/kconfiglib.py:6476-6502 | In memory, the relinked chain is the flattened one, with right parents, and no other node is touched |
| `KconfigMenu.Menus.RemoveIfsBelow` | source/Audio_pcm1802/SDK/tools/kconfig/kconfiglib.py:6505-6528 | In memory, the relinked children are those without ifs, and no other node is touched |
| `KconfigMenu.Menus.TakeSubmenu` | source/Audio_pcm1802/SDK/tools/kconfig/kconfiglib.py:3585-3593 | The loop collects the siblings that become the submenu, with the symbol as their parent |
| `KconfigMenu.Menus.FinalizeNode` | source/Audio_pcm1802/SDK/tools/kconfig/kconfiglib.py:3556-3635 | In memory, the links and conditions after finalizing a node are those of the forest function, and nothing outside the chain is touched |
| `KconfigMenu.Menus.FinalizeTree` | source/Audio_pcm1802/SDK/tools/kconfig/kconfiglib.py:3556-3635 | Finalizing a tree leaves proper links and parents, no ifs, no children below promptless nodes, every other node in the order of the file, every condition as the conjunction it stands in, and below each symbol with a prompt the node that followed it exactly if the condition of that demands the symbol |
| `KconfigMenu.Menus.NodeIter` | source/Audio_pcm1802/SDK/tools/kconfig/kconfiglib.py:1934-1956 | The iterative walk over list, next and parent visits every node below the top exactly once, in preorder, and yields them all, or those that the marks on symbols let through |
| `KconfigMenu.FirstsYielded` | source/Audio_pcm1802/SDK/tools/kconfig/kconfiglib.py:1930-1956 | With unique symbols the walk yields, in order, exactly the nodes that have no earlier node of the same symbol |
| `KconfigMenu.AllYielded` | source/Audio_pcm1802/SDK/tools/kconfig/kconfiglib.py:1934-1956 | Without, it yields all |
| `KconfigStrings.EscapeByChar` | source/Audio_pcm1802/SDK/tools/kconfig/kconfiglib.py:6176-6183 | The two replacements, one after the other, amount to one substitution for each character |
| `KconfigStrings.UnescapeInverts` | source/Audio_pcm1802/SDK/tools/kconfig/kconfiglib.py:6186-6194 | unescape(escape(s)) is s for every string |
| `KconfigStrings.CaptureIsUnique` | source/Audio_pcm1802/SDK/tools/kconfig/kconfiglib.py:7160-7160 | The pattern of a quoted string captures at most one text, and a scan from the left finds it if and only if there is one |
| `KconfigStrings.EscapedIsBody` | source/Audio_pcm1802/SDK/tools/kconfig/kconfiglib.py:7160-7160 | Escaped text is always captured whole |
| `KconfigStrings.EscapedStaysOpen` | source/Audio_pcm1802/SDK/tools/kconfig/kconfiglib.py:7160-7160 | Escaped text never closes its quotes by itself |
| `KconfigStrings.FileRoundTrip` | source/Audio_pcm1802/SDK/tools/kconfig/kconfiglib.py:4547-4549 | Loading the line that config_string wrote recovers name and value if and only if the value holds no line break |
| `RingSeq.CopyIn` | source/Audio_pcm1802/src/ring_buffer.c:174-187 | One or two copies store the data going round the end of the buffer |
| `RingSeq.CopyOut` | source/Audio_pcm1802/src/ring_buffer.c:409-422 | One or two copies fetch the data going round |
| `MirrorRing.RingBuffer.GetLength` | source/Audio_pcm1802/src/ring_buffer.c:599-626 | The length told from indices and mirrors is the number of stored bytes |
| `MirrorRing.RingBuffer.GetStatus` | source/Audio_pcm1802/src/ring_buffer.c:649-677 | Empty and full are told apart although the indices agree in both |
| `MirrorRing.RingBuffer.Write` | source/Audio_pcm1802/src/ring_buffer.c:148-227 | A bulk write appends the minimum of what is offered and the room |
| `MirrorRing.RingBuffer.WriteByte` | source/Audio_pcm1802/src/ring_buffer.c:238-268 | A byte write appends one byte if there is room |
| `MirrorRing.RingBuffer.Read` | source/Audio_pcm1802/src/ring_buffer.c:383-462 | A bulk read hands out and removes the minimum of what is asked and what is there, oldest first |
| `MirrorRing.RingBuffer.ReadByte` | source/Audio_pcm1802/src/ring_buffer.c:473-504 | A byte read does so for one byte |
| `MirrorRing.RingBuffer.Peek` | source/Audio_pcm1802/src/ring_buffer.c:516-555 | A peek hands out without removing |
| `MirrorRing.RingBuffer.WriteForce` | source/Audio_pcm1802/src/ring_buffer.c:281-324 | An overwriting write leaves the newest bytes, but nothing in the one losing family |
| `MirrorRing.RingBuffer.ForcedExactly` | source/Audio_pcm1802/src/ring_buffer.c:281-324 | The overwriting write keeps its promise if and only if not at once reader and writer share a mirror, the write runs over the end, and it overwrites |
| `MirrorRing.RingBuffer.ForcedLateExactly` | source/Audio_pcm1802/src/ring_buffer.c:281-324 | Where the room was measured before the lock, the overwriting write leaves the newest bytes if and only if the data fits what was measured, or still fills the buffer while the stored bytes run over its end |
| `MirrorRing.RingBuffer.ForceAround` | source/Audio_pcm1802/src/ring_buffer.c:281-324 | With any reads between its measuring and its lock, they and the overwriting write leave the newest bytes if and only if the data fitted the room measured, or the bytes still stored run over the end of the buffer and the data fills the room that the reads have made larger; otherwise all is lost, or bytes come back that were read |
| `MirrorRing.RingBuffer.WriteByteForce` | source/Audio_pcm1802/src/ring_buffer.c:336-370 | An overwriting byte write always leaves the newest bytes |
| `MirrorRing.RingBuffer.Run` | source/Audio_pcm1802/src/ring_buffer.c:148-589 | Every run of writes, reads and peeks does to the ring what it does to a bounded queue |
| `MirrorRing.RingBuffer.Interleave` | source/Audio_pcm1802/src/ring_buffer.c:148-194 | Split locking for one writer and one reader: after any interleaving of measuring and locked sections, contents, both measurements and what moved are what the turns make of a bounded queue |
| `MirrorRing.SplitRun` | source/Audio_pcm1802/src/ring_buffer.c:148-194 | At every point of every interleaving what was measured before the lock is a lower bound on the room or length there is |
| `MirrorRing.WriterMeasuresRoom` | source/Audio_pcm1802/src/ring_buffer.c:148-160 | Wherever in an interleaving the writer measures, it measures all the room there is |
| `MirrorRing.ReaderMeasuresLength` | source/Audio_pcm1802/src/ring_buffer.c:383-395 | Wherever the reader measures, it measures all the bytes there are |
| `MirrorRing.WriterCommitsWhatItMeasured` | source/Audio_pcm1802/src/ring_buffer.c:148-194 | A writer that measures, and commits after any turns of the reader, appends the minimum of what it offers and the room at the measurement |
| `MirrorRing.ReaderCommitsWhatItMeasured` | source/Audio_pcm1802/src/ring_buffer.c:383-429 | A reader that measures, and commits after any turns of the writer, takes out the minimum of what it asks and the length at the measurement |
| `MirrorRing.PairIsOneStep` | source/Audio_pcm1802/src/ring_buffer.c:148-429 | With nothing in between, measuring and committing is one write, or one read, of a bounded queue |
| `MirrorRing.SplitIsFifo` | source/Audio_pcm1802/src/ring_buffer.c:148-194 | Every such run is a run of whole operations on a bounded queue, one for each locked section, which moves all that its measurement allowed |
| `MirrorRing.FifoConserves` | source/Audio_pcm1802/src/ring_buffer.c:148-589 | In a queue run, what went in is what came out followed by what is still there |
| `MirrorRing.ByteOpsAreBulkOps` | source/Audio_pcm1802/src/ring_buffer.c:238-504 | Byte operations are bulk operations of length 1 |
| `BflogQueue.EvictionsShortest` | source/Audio_pcm1802/SDK/components/bflog/bflog.c:326-347 | The number of evicted records frees enough, and one fewer would not |
| `BflogQueue.AfterPutDropsShortest` | source/Audio_pcm1802/SDK/components/bflog/bflog.c:354-385 | A put drops exactly the shortest prefix of old records that makes room, and appends |
| `BflogQueue.HeaderUnsplit` | source/Audio_pcm1802/SDK/components/bflog/bflog.c:326-347 | With sizes that are multiples of four the wrap never splits a size field |
| `BflogQueue.LogQueue.SkipOldest` | source/Audio_pcm1802/SDK/components/bflog/bflog.c:326-347 | The eviction loop, which finds records only by their stored size fields, terminates without passing the stored records and frees enough |
| `BflogQueue.LogQueue.QueuePut` | source/Audio_pcm1802/SDK/components/bflog/bflog.c:354-385 | Refines the drop-oldest queue; a message longer than the pool is cut and its size field corrected |
| `BflogQueue.LogQueue.QueueGet` | source/Audio_pcm1802/SDK/components/bflog/bflog.c:392-423 | Returns the oldest record byte for byte with a NUL behind it, or marks the area as empty; the NUL stays inside the load area if and only if the record is shorter than the area |
| `BflogQueue.LogQueue.Run` | source/Audio_pcm1802/SDK/components/bflog/bflog.c:326-423 | Every run of puts and gets does what the drop-oldest queue of records does; stored sizes and free always add up to the pool; nothing behind the load area changes while all records loaded are shorter than it |
| `BflogQueue.FlushAreaFits` | source/Audio_pcm1802/SDK/components/bflog/bflog.c:1064-1078 | Messages are their header and text rounded up to words; they are never longer than the load area of bflog_flush(), and shorter than it if and only if the text has at most 252 characters |
| `BflogCalendar.CheckLeapYearIsLeap` | source/Audio_pcm1802/SDK/components/bflog/bflog.c:209-220 | The nested tests are the Gregorian rule |
| `BflogCalendar.WeekdayFormula` | source/Audio_pcm1802/SDK/components/bflog/bflog.c:227-243 | The weekday formula gives the weekday of every date from 1970 on |
| `BflogCalendar.CalWeekday` | source/Audio_pcm1802/SDK/components/bflog/bflog.c:227-243 | The weekday is (day number + 4) mod 7 |
| `BflogCalendar.CivilDate` | source/Audio_pcm1802/SDK/components/bflog/bflog.c:284-303 | The countdown through blocks, years and months ends at the date of the day number, if and only if that is at most 48212, and one day early after it |
| `BflogCalendar.Unix2Time` | source/Audio_pcm1802/SDK/components/bflog/bflog.c:250-309 | Re-encoding the result gives timestamp + 28800 for every day up to 2102-01-01, and exactly one day less from then on; the date is valid and the weekday its own |
| `BflogCalendar.DateUnique` | source/Audio_pcm1802/SDK/components/bflog/bflog.c:250-309 | A day number belongs to one date only, so that the result is the date |
| `BflogDlist.InsertAppends` | source/Audio_pcm1802/SDK/components/bflog/bflog_dlist.h:42-46 | The four assignments of inserting before the head append at the tail of a proper circle |
| `BflogDlist.RemoveUnlinks` | source/Audio_pcm1802/SDK/components/bflog/bflog_dlist.h:49-53 | The four assignments of removal take exactly the given node out and leave it linked to itself |
| `BflogDlist.ListsApart` | source/Audio_pcm1802/SDK/components/bflog/bflog.c:580-737 | Lists of different recorders have no output in common |
| `BflogDlist.Recorders.Append` | source/Audio_pcm1802/SDK/components/bflog/bflog.c:637-678 | Succeeds if and only if the recorder is open, the lock is got and the output is ready; then it is the last of the list and suspended, and nothing else changes |
| `BflogDlist.Recorders.Remove` | source/Audio_pcm1802/SDK/components/bflog/bflog.c:686-737 | Succeeds if and only if the output is suspended and in the list of this recorder; then exactly it is taken out and ready |
| `BflogDlist.Recorders.Delete` | source/Audio_pcm1802/SDK/components/bflog/bflog.c:580-629 | Unlinks all outputs; running ones become ready, suspended ones stay suspended; an unopened recorder is left alone |
| `BflogDlist.Recorders.Change` | source/Audio_pcm1802/SDK/components/bflog/bflog.c:744-821 | Suspending and resuming a recorder changes only its status |
| `BflogDlist.Recorders.DirectChange` | source/Audio_pcm1802/SDK/components/bflog/bflog.c:1470-1507 | Suspending and resuming an output works only on suspended and running ones, and changes only the status |
| `BflogDlist.Recorders.Run` | source/Audio_pcm1802/SDK/components/bflog/bflog.c:580-821 | In every run each list is a proper circle, lists share nothing, every linked output is suspended or running; and lists, statuses and answers are those of the operations carried out on values |
| `BflogDlist.StrandedForGood` | source/Audio_pcm1802/SDK/components/bflog/bflog.c:580-821 | None of these operations ever links an output again that the deletion of a recorder has left suspended or running |
| `BflogDlist.DeleteStrands` | source/Audio_pcm1802/SDK/components/bflog/bflog.c:580-629 | Deleting an open recorder makes its running outputs ready and leaves its suspended ones suspended and unlinked, which happens to no other output |
| `BflogDlist.OutputMoves` | source/Audio_pcm1802/SDK/components/bflog/bflog.c:580-737 | Whatever the operation, an output changes its status only as listed: ready to suspended by its appending, back by its removal, between suspended and running by its own suspending and resuming, running to ready by the deletion of its recorder |
| `SampleFrames.UnpackInvertsPack` | source/Audio_pcm1802/src/usb_buffer.c:58-63 | Unpacking three bytes each gives the low 24 bits of the packed samples |
| `SampleFrames.HostReadsSamples` | source/Audio_pcm1802/src/usb_buffer.c:47-101 | From any prefix of the frames the host, splitting by size bytes, reads the samples of all frames that arrived whole, in order and no others |
| `SampleFrames.PacketsCarry` | source/Audio_pcm1802/src/cdc_acm_template.c:155-165 | The packets of a write carry its bytes, and close a transfer of the host if and only if the length is no multiple of 64, as in section 5.8.3 of the USB 2.0 specification |
| `SampleSteps.ArrivedKeeps` | source/Audio_pcm1802/src/cdc_acm_template.c:155-165 | When a transfer has arrived, it is over or one zero-length packet short of being over, and its bytes are at the host behind the earlier ones |
| `SampleSteps.TransferredKeeps` | source/Audio_pcm1802/src/cdc_acm_template.c:155-259 | No step of the sending side loses, repeats or reorders a byte; packets are at most 64 bytes long, no transfer is empty, and there is only one at a time |
| `SampleSteps.PathDelivers` | source/Audio_pcm1802/src/usb_buffer.c:47-101 | While no interrupt came too far ahead and no block was short, the host reads the low 24 bits of the first words produced, in order and without a gap |
| `SampleProgress.InterruptsStore` | source/Audio_pcm1802/src/i2s_drv.c:86-104 | Once started, as many interrupts as it takes to wake up are skipped, and the words of all that follow are stored |
| `SampleProgress.CallHandsOn` | source/Audio_pcm1802/src/usb_buffer.c:47-101 | With a block waiting and room for its frame, an undisturbed call puts the frame of the oldest words not yet taken into the ring |
| `SampleProgress.CallWaits` | source/Audio_pcm1802/src/usb_buffer.c:47-56 | With fewer words waiting it changes nothing |
| `SampleProgress.OneTransfer` | source/Audio_pcm1802/src/cdc_acm_template.c:155-259 | One transfer brings the oldest bytes of the ring to the host, up to 2047, and is over unless their number is a multiple of 64 |
| `SampleProgress.EverythingArrives` | source/Audio_pcm1802/src/cdc_acm_template.c:155-259 | Wherever the sending side stands, a controller that keeps answering brings every byte the ring ever took to the host, and leaves nothing under way |
| `SamplePipeline.Capture.Isr` | source/Audio_pcm1802/src/i2s_drv.c:86-104 | The interrupt appends its 32 words, once started and awake; too far ahead is noticed |
| `SamplePipeline.Capture.Snapshot` | source/Audio_pcm1802/src/usb_buffer.c:47-56 | A call goes on if and only if at least 40 words are there, whichever way round the indices stand |
| `SamplePipeline.Capture.CopyWord` | source/Audio_pcm1802/src/usb_buffer.c:58-71 | One word more of the pending ones is packed, across the end of the buffer too, whatever interrupts came in between |
| `SamplePipeline.Capture.Commit` | source/Audio_pcm1802/src/usb_buffer.c:72-72 | The finished block is the frame of the 40 oldest words produced and not yet taken, which leave the buffer |
| `SamplePipeline.Sender.ReadRing` | source/Audio_pcm1802/src/cdc_acm_template.c:246-259 | What the ring holds becomes one transfer, or the busy flag is cleared; no byte of the stream is lost |
| `SamplePipeline.Sender.Complete` | source/Audio_pcm1802/src/cdc_acm_template.c:155-165 | Ends the transfer, with a zero-length packet exactly after a multiple of 64; a new transfer starts only when none is in flight |
| `SamplePipeline.Pipeline.WriteFrame` | source/Audio_pcm1802/src/usb_buffer.c:94-99 | Counts whole and short blocks, and keeps the bytes accepted so far equal to the frames of all blocks as long as none was short |
| `SamplePipeline.Pipeline.TaskDataOut` | source/Audio_pcm1802/src/usb_buffer.c:47-101 | The whole call without interruption takes exactly one block when there is one, and ends where its steps on values end |
| `SamplePipeline.Pipeline.Run` | source/Audio_pcm1802/src/usb_buffer.c:47-101 | In every interleaving of interrupts, draining, sending and completions: an interrupt comes too far ahead exactly when the events say so, and until then words, blocks, counters, ring, transfers and packets are what the events make of them on values; if no block was short either, the host reads the low 24 bits of the samples in order; transfers arrive exactly as handed over |
| `FormatInteger.NumeralIsPositional` | source/Audio_pcm1802/SDK/components/libc/vsnprintf.c:376-381 | The numeral stands for the value in its base |
| `FormatInteger.AllDigitsFit` | source/Audio_pcm1802/SDK/components/libc/vsnprintf.c:376-381 | Every 64-bit value in base 8, 10 or 16 has at most 22 digits, which the buffer holds back to front |
| `FormatInteger.AtoiRecovers` | source/Audio_pcm1802/SDK/components/libc/vsnprintf.c:248-385 | atoi_() recovers every 32-bit value that print_integer() has printed in plain decimal, zero included, whatever follows it |
| `FormatInteger.IntegerIsStandard` | source/Audio_pcm1802/SDK/components/libc/vsnprintf.c:288-385 | Without the alternative form print_integer() emits the field of section 7.21.6.1 of ISO/IEC 9899:2011 if and only if its places and sign fit 32 characters, or the lost sign is a space that padding restores |
| `FormatInteger.FieldLength` | source/Audio_pcm1802/SDK/components/libc/vsnprintf.c:259-385 | For widths and precisions up to 31 the field is the standard one and has length max(width, sign + max(digits, precision)) |
| `FormatInteger.SignGetsLost` | source/Audio_pcm1802/SDK/components/libc/vsnprintf.c:341-351 | Minus one in a zero-filled field of 33 comes out as 32 digits without a sign |
| `FormatText.DirectiveIsStandard` | source/Audio_pcm1802/SDK/components/libc/vsnprintf.c:902-967 | In any format, an integer conversion without the alternative form becomes the standard field of its argument under the same exact condition |
| `FormatAlternative.AlternativeIsStandard` | source/Audio_pcm1802/SDK/components/libc/vsnprintf.c:288-385 | With # print_integer() emits the alternative form of section 7.21.6.1 of ISO/IEC 9899:2011, the prefix 0x or a leading zero in octal, if and only if prefix and places fit the buffer of 32 characters |
| `FormatAlternative.DirectiveIsAlternate` | source/Audio_pcm1802/SDK/components/libc/vsnprintf.c:902-967 | In any format, the conversions o, x and X with # become that form of their argument under the same exact condition |
| `FormatLaws.SpecIsRendered` | source/Audio_pcm1802/SDK/components/libc/vsnprintf.c:815-893 | A directive as it is written, with flags, width, precision, length and letter, is read for what it says; the rest of the format goes on with the rest of the arguments |
| `FormatLaws.IntegerIsShown` | source/Audio_pcm1802/SDK/components/libc/vsnprintf.c:902-967 | d, i, u, x, X and o show the one numeral of their argument in their base and letters, with the sign, zeros, mark and padding that each flag, the width and the precision ask for, if and only if that fits |
| `FormatLaws.BareInteger` | source/Audio_pcm1802/SDK/components/libc/vsnprintf.c:902-967 | With nothing but the letter that is the numeral, after a minus sign for negative numbers |
| `FormatLaws.NumeralIsUnique` | source/Audio_pcm1802/SDK/components/libc/vsnprintf.c:376-381 | There is one numeral only without leading zeros for a value, base and case |
| `FormatLaws.NegativePrecision` | source/Audio_pcm1802/SDK/components/libc/vsnprintf.c:853-857 | A negative precision from an argument counts as 0: what is shown is what section 7.21.6.1 of ISO/IEC 9899:2011 asks for if and only if no digit of a zero is lost by that and no zeros had to fill the field |
| `FormatLaws.StringIsShown` | source/Audio_pcm1802/SDK/components/libc/vsnprintf.c:1010-1040 | s shows the string, cut to the precision if one is given, padded to the width on the side the flags say |
| `FormatLaws.CharIsShown` | source/Audio_pcm1802/SDK/components/libc/vsnprintf.c:990-1008 | c shows the low byte of its argument, padded in the same way |
| `FormatLaws.PercentIsShown` | source/Audio_pcm1802/SDK/components/libc/vsnprintf.c:1052-1055 | A percent sign as the letter shows itself and takes no argument |
| `FormatLaws.BareBinary` | source/Audio_pcm1802/SDK/components/libc/vsnprintf.c:902-967 | b alone shows a 32-bit value in binary digits |
| `FormatLaws.BarePointer` | source/Audio_pcm1802/SDK/components/libc/vsnprintf.c:1041-1051 | p alone shows 0x and eight places of an address, or (nil) |
| `Vsnprintf.Sink.Out` | source/Audio_pcm1802/SDK/components/libc/vsnprintf.c:214-219 | A character is stored if there is room, and counted in any case |
| `Vsnprintf.Sink.OutRev` | source/Audio_pcm1802/SDK/components/libc/vsnprintf.c:259-283 | Emits the buffer in reverse with the padding of the field |
| `Vsnprintf.Sink.PrintIntegerFinalization` | source/Audio_pcm1802/SDK/components/libc/vsnprintf.c:288-354 | Padding, prefix and sign in the bounded buffer come out as the text function says |
| `Vsnprintf.Sink.PrintInteger` | source/Audio_pcm1802/SDK/components/libc/vsnprintf.c:357-385 | The digit loop and what follows emit the text of the integer |
| `Vsnprintf.Sink.Format` | source/Audio_pcm1802/SDK/components/libc/vsnprintf.c:801-1061 | The loop over the format emits the full text, whatever part of it is stored |
| `Vsnprintf.EvalDirective` | source/Audio_pcm1802/SDK/components/libc/vsnprintf.c:815-893 | Reading flags, width, precision and length gives the directive |
| `Vsnprintf.VsnprintfInto` | source/Audio_pcm1802/SDK/components/libc/vsnprintf.c:791-1069 | The length does not depend on the size; a positive size leaves the first min(length, size - 1) characters and a NUL, and nothing behind is written, as section 7.21.6.12 of ISO/IEC 9899:2011 requires |
| `AudioPll.WordIsAccurate` | source/Audio_pcm1802/src/i2s_drv.c:120-153 | For every frequency from 512000 to 96000000 no product reaches 2^64, the word is below 2^24, and 10^6 times the word differs from 4096 * prediv * div * freq by at most 508963 |
| `AudioPll.Clock.SetAudioPllFreq` | source/Audio_pcm1802/src/i2s_drv.c:120-153 | The 64-bit computation, modulo 2^64, yields that word and the dividers of the band |
| `AudioPll.Clock.Init` | source/Audio_pcm1802/src/i2s_drv.c:302-353 | Any request that differs from the frequency in use, which is 0 during a wake-up, is clamped and the PLL retuned to it; otherwise the PLL is left alone; the device is there afterwards if and only if it is found |
| `AudioPll.Clock.Wake` | source/Audio_pcm1802/src/i2s_drv.c:411-421 | Waking up keeps the configured frequency and always tunes the PLL to it |
| `AudioPll.Clock.Begin` | source/Audio_pcm1802/src/i2s_drv.c:356-379 | A start that finds the device awake ends with the channels and the clamped frequency it asks for, initialized again or not, and keeps a tuned PLL tuned |
| `AudioPll.Clock.Run` | source/Audio_pcm1802/src/i2s_drv.c:302-421 | After any run of wake-ups, starts, stops and sleeps the configuration is what the commands ask for, and from the first wake-up on the PLL runs at the configured frequency |
| `AudioPll.FrequencyIsLastStart` | source/Audio_pcm1802/src/i2s_drv.c:356-421 | That frequency is the clamped one of the last start that found the device there, or else the default |

## Left out

- Choices: the mode and selection of choices, choice symbols and their extra dependents are not part of the Kconfig models.
- KconfigCache.Kconfig.TriValue: for symbols outside choices; the branches for choice symbols are not modelled.
- KconfigCache.Kconfig.AssignableValues: works out the values each time; the cache of `assignable` is not modelled.
- KconfigLaws.OfferedCanBeSet: for configurations without loops among what is mentioned, in which setting a symbol changes nothing that its own value depends on.
- KconfigLaws.NumberIsInRange: assumes that `int()` reads back what `str()` and `hex()` write, and no empty text.
- KconfigCache.Kconfig.BuildDep: without the dependents of choices and of their symbols.
- KconfigCache.Kconfig.SetValue: without the branch that stores the user selection of a choice.
- KconfigLoops.CheckDepLoopSym: without the steps through choices.
- KconfigMenu.Menus.PropagateDeps: the base dependency of a choice, which includes its mode, is not modelled.
- KconfigMenu.Menus.FlattenFrom: promptless choices, which are exempt, do not occur.
- KconfigMenu.Menus.FinalizeNode: without choices, and without the copying of properties to symbols.
- KconfigMenu.Menus.FinalizeTree: for trees without choices.
- Reading and writing of Kconfig files, the tokenizer and its regular expressions other than those for assignments, the preprocessor, the environment, warnings, `_write_to_conf`, help texts and menu rendering: input, output or presentation.
- `_add_props_to_sym()`: the copying of finalized properties to the symbol, which is where the symbol definitions of the value model come from.
- Python's `int()`, `str()` and `hex()` are parameters of the value model; the order of visits to a dependents set is arbitrary.
- KconfigCache.Kconfig.Run: requires that the evaluation of all symbols is well founded at every point of the run, which `Session` derives from the loop check where MODULES is not computed from itself; recursion that does not end, and reading some symbols while others could not be computed, are not modelled.
- KconfigNesting.TreeNests: says nothing of symbols without a prompt, whose submenus are flattened, and nothing of later siblings, for which `TakeIsMaximal` says where the submenu ends.
- KconfigForest.SpreadGates: for trees of symbols, comments, menus and ifs; the dependency of choice symbols on their choice is not modelled.
- KconfigStrings.FileRoundTrip: for string symbols and one line; which characters count as white space is a parameter.
- KconfigGrammar.RoundTrip: on tokens; how symbols are spelled and quoted is not modelled.
- MirrorRing.RingBuffer.Interleave: each locked section is one atomic step, and there is one writer and one reader; callbacks other than plain copying, and a ring of size 0, are not modelled.
- BflogQueue.LogQueue.QueuePut: record and pool sizes are multiples of four; commands that exchange pool or size of a queue in use, filters, levels, layouts, colours and the file and stream outputs of the logger are not modelled.
- BflogQueue.LogQueue.QueueGet: the memory behind the load area is taken to be there and to be no part of the pool; what else the NUL may overwrite is not modelled.
- BflogDlist.Recorders.Run: the status read before the lock is the one read after it, as nothing runs in between; creation and deletion of outputs, and output errors, are not modelled.
- SamplePipeline.Pipeline.Run: between resets of the sampler, with the main loop, the interrupt and the controller as the only parties; answers to host commands, which use the same ring, are not modelled, and a transfer reaches the host whole.
- Vsnprintf.VsnprintfInto: for formats without the conversions f and F, with `CONFIG_LIBC_FLOAT_EX` off, in which no directive runs into the end; lengths are not reduced modulo the width of `size_t` or `int`, and reading a missing argument, which C leaves undefined, yields zero.
- FormatInteger.IntegerIsStandard: for bases 8, 10 and 16, the alternative form apart; base 2 cuts values of more than 32 digits.
- AudioPll.Clock.Init: the registers other than dividers and word, and the sequence of resets and delays, are not modelled.
- Register access, GPIO, DMA set-up, USB descriptors, command decoding, memory allocation, the floating-point printer and the second firmware's copies of these files.
