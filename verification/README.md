# Verified model of the DEAL shell

The DEAL command line and language server are a Rust shell around a compiler core.  This project
models the algorithms of that shell in Dafny and proves what they are for.  The compiler core is
taken as given: syntax trees, index envelopes and the IR are inputs.

| files | what they model |
|---|---|
| `CriteriaGrammar`, `CriteriaParser`, `CriteriaText`, `CriteriaLaws`, `RequirementRefs` | the evaluator of success criteria: tokenizer, precedence parser that evaluates as it parses, three-valued verdicts, and the scan that binds requirement references |
| `SimulationOrder`, `SimulationRanks` | the order in which simulations run |
| `ImportClosure`, `ClosureCache`, `LoadPlan` | the import closure with aliases and barrel exports, the language server's cache of it with the gate that decides on a rebuild, and the choice of files to load |
| `EditDistance` | edit distance and did-you-mean |
| `Calendar` | the two calendar decompositions |
| `SymbolIndex`, `SymbolQueries`, `WorkspaceIndex` | the symbol index, refreshed one file at a time |
| `Positions`, `TextEdits` | bytes to and from (line, UTF-16) positions, and right-to-left splicing of edits |
| `ImportLines`, `FixImports`, `FixSoundness` | the import fixer |
| `ReqIfValidator`, `ReqIf`, `ReqIfContent`, `ReqIfEmitter` | the ReqIF export and the validator in front of it |
| `Debounce` | the per-file debouncer |
| `ModelValues` | the lookup of model values by dotted suffix |
| `Outcome`, `Chars`, `Dotted`, `ImportEdges`, `Order` | result shapes, character classes and trimming, dotted names, import edges, string order and sorting |

Code that computes by recursion is a function here.  Code that loops over variables is a method with
loop invariants, and objects whose methods update their fields are classes; each such method is
proved to compute a function or a relation that is defined on its own, and the promises are lemmas
about that.  Standards are cited where the code follows one: RFC 3339 for the calendar, RFC 3629 and
RFC 2781 for text, sections "Position" and "TextEdit[]" of LSP 3.17, section 10 of OMG ReqIF 1.2.

## What the proofs found

Where the code and its comments disagree, or a promise holds only under a condition, the model
follows the code.  Each of these is a lemma or follows from one.

- Criteria: a number that touches a requirement name hides the name from the binding scan, though the tokenizer sees it (`RequirementRefs.ScanMissesGluedReferences`).  On texts that lex, the two agree exactly if no number touches a reference, and otherwise the scan sees fewer (`RequirementRefs.ScanMatchesTokens`).  It cannot happen in a text that evaluates.
- Closure gate: it compares import paths only, so an edit that moves a file to another package, or one that changes its exports, can leave a stale file list (`ClosureCache.PackageEditGoesUnnoticed`, `ClosureCache.ExportEditGoesUnnoticed`, `ClosureCache.ExportGainGoesUnnoticed`).  The gate is enough for exactly the edits that change the import paths, or else keep the package and, for each name the file neither bears nor imports, go on naming it with a module or go on naming the same packages below it (`ClosureCache.GateIsEnoughExactly`).
- Load plan: named files outside the project are said to be analyzed always; the code adds none of them, and its check for missing entry points can never fail (`LoadPlan.PlanLoad`).
- Calendar: the comments promise the years 1970 to 2099 and up to 2100; both forms are right for every day number (`Calendar.DaysToYmdInverts`, `Calendar.DaysToYmdByLoops`).
- Symbol index: `references_of` is documented to return no repeats; it can, when two sites start alike and end differently (`SymbolQueries.ReferencesAreDistinct` says exactly when, `SymbolQueries.RepeatSurvives` shows one).  When two files declare one path and the one refreshed later drops it, the path is lost, though the other still declares it (`SymbolIndex.SharedPathIsLost`).  The maps are right exactly when whatever a file declares now, no other file has declared since (`SymbolIndex.RunAgrees`); refreshing every file once more repairs them exactly when no two files share a path (`SymbolIndex.RefreshingAllRepairs`).
- Positions: `position_to_byte` is documented to return `None` past the document; it returns the length (`Positions.FindByte`).
- ReqIF: exporting only edges between requirements is said to guarantee that every reference resolves; an edge that names a requirement by its last segment is exported and then refused (`ReqIf.EmittedIsAccepted`, `ReqIf.LocalNameDangles`).  A CORE-CONTENT element nested in another one is said not to end the outer one early; it does, self-closing or not (`ReqIfValidator.NestedCoreEndsTheScope`).  The depth that the validator records never matters: on every document the objects are seen exactly where `ReqIfValidator.Sees` says, which asks for no depth (`ReqIfValidator.ScanSees`, `ReqIfValidator.DocumentIsAccepted`).

## Model

| member | source | states |
|---|---|---|
| CriteriaGrammar.MaxOf | cli/src/verify.rs:546-571 | `max` of arguments is unmapped as soon as one is, an error on an empty or boolean argument list, and otherwise an argument that no other exceeds |
| CriteriaGrammar.ParseNumberAcceptsOneDot | cli/src/verify.rs:488-496 | a digit-and-dot literal is a number exactly when it has at most one decimal point |
| CriteriaGrammar.ParenthesizeMeans | cli/src/verify.rs:155-165 | adding just the parentheses that precedence and left association ask for turns any tree into a derivation of the locked grammar with the same value |
| CriteriaGrammar.DefiniteNeedsEveryPath | cli/src/verify.rs:362-571 | a tree evaluates to a number or boolean only if every field path in it is bound |
| CriteriaGrammar.ExtendingKeepsSettled | cli/src/verify.rs:362-571 | adding bindings changes a result only if it was unmapped: values and errors stay |
| CriteriaParser.ParseIsSound | cli/src/verify.rs:348-544 | what a precedence level reads is the yield of a derivation that binds at least as tightly; the cursor advances and stays in range |
| CriteriaParser.ParseIsComplete | cli/src/verify.rs:348-544 | a derivation is found by the level it belongs to, wherever nothing that could lengthen it follows |
| CriteriaParser.SpineIsComplete | cli/src/verify.rs:406-459 | the left-to-right operator loops build the left-associated tree |
| CriteriaParser.GrammarIsUnambiguous | cli/src/verify.rs:155-165 | a token list is the yield of at most one derivation |
| CriteriaParser.ParseAnd | cli/src/verify.rs:348-360 | evaluating while parsing at the AND level gives what parsing a tree and then evaluating it gives, and stops where the parse stops |
| CriteriaParser.ParseCmp | cli/src/verify.rs:370-388 | the same at the comparison level, which does not chain |
| CriteriaParser.ParseAdd | cli/src/verify.rs:406-424 | the same for sums |
| CriteriaParser.ParseMul | cli/src/verify.rs:441-459 | the same for products |
| CriteriaParser.ParsePrimary | cli/src/verify.rs:481-544 | the same for literals, field paths, calls and parentheses |
| CriteriaParser.ParseArgs | cli/src/verify.rs:512-530 | the argument loop evaluates exactly the argument list that parses, in order |
| CriteriaParser.EvalMax | cli/src/verify.rs:546-571 | the maximum loop computes `MaxOf` |
| CriteriaText.Tokenize | cli/src/verify.rs:209-344 | the cursor loop cuts a text into the tokens that longest-run lexing gives, or fails where that fails |
| CriteriaText.TokenAt | cli/src/verify.rs:209-344 | one turn of the loop: the token at the cursor and where it ends |
| CriteriaText.SpellingsLex | cli/src/verify.rs:209-344 | tokens written out with spaces between lex back to themselves |
| CriteriaText.ParseDecides | cli/src/verify.rs:166-181 | parsing from the start and reaching the end is the same as being the yield of a derivation, which is then the parse |
| CriteriaText.EvalExpr | cli/src/verify.rs:166-181 | a text evaluates only if all of it is one derivation, and then to that derivation's value, whose operators and literals the laws below settle; every other text is an error |
| CriteriaText.PrintedTreeKeepsItsMeaning | cli/src/verify.rs:155-571 | printing any tree with the parentheses it needs and evaluating the text gives the tree's own value, errors included |
| CriteriaText.EvaluateCriteriaText | cli/src/verify.rs:679-711 | the verdict passes on true, fails on false, and is partial on everything else, with the trimmed text and the stale flag carried over |
| Chars.TrimTakesBlanks | cli/src/verify.rs:680 | trimming takes blanks off both ends and nothing else |
| CriteriaText.DefiniteTextIsFullyBound | cli/src/verify.rs:362-571 | a text evaluates to a number or boolean only if every field path written in it is bound |
| CriteriaText.VerdictsSettle | cli/src/verify.rs:679-711 | more evidence never overturns a pass or a fail |
| CriteriaLaws.PlusAndMinus | cli/src/verify.rs:426-439 | of three numbers, sum and difference undo each other: `x + y` is `z` exactly if `z - y` is `x`, and `x - y` is `z` exactly if `z + y` is `x` |
| CriteriaLaws.Product | cli/src/verify.rs:461-479 | multiplying by one keeps a number, and a product of a sum is the sum of the products |
| CriteriaLaws.Quotient | cli/src/verify.rs:461-479 | where there is a quotient of `x` by `y`, it is `z` exactly if `z` times `y` is `x` |
| CriteriaLaws.NoQuotient | cli/src/verify.rs:461-479 | there is none exactly if the divisor is closer to zero than 2 to the power -52 |
| CriteriaLaws.Comparisons | cli/src/verify.rs:390-404 | `>=` and `<=` look at the sign of the difference; `==` allows a difference below 2 to the power -52 either way |
| CriteriaLaws.Conjunction | cli/src/verify.rs:362-368 | AND is true exactly if both sides are, and false exactly if one is false |
| CriteriaLaws.KindsOfResults | cli/src/verify.rs:362-479 | an unmapped operand makes every operator unmapped and nothing else does; otherwise the kinds of the operands decide whether there is a result, and of which kind |
| CriteriaLaws.NumeralMeans | cli/src/verify.rs:489-496 | the decimal numeral of a number is read as that number |
| CriteriaLaws.DecimalMeans | cli/src/verify.rs:489-496 | with a decimal point, the digits behind it count as tenths, hundredths and so on, leading zeros included |
| CriteriaLaws.OperatorsAreWritten | cli/src/verify.rs:209-344 | each arithmetic operator is read from its own character |
| CriteriaLaws.ComparisonsAreWritten | cli/src/verify.rs:209-344 | each comparison and AND is read from its own spelling |
| CriteriaLaws.SumHolds | cli/src/verify.rs:166-181 | the text `m + n == k` evaluates to whether it is true, for all numerals |
| CriteriaLaws.DifferenceHolds | cli/src/verify.rs:166-181 | so does `m - n == k` |
| CriteriaLaws.ProductHolds | cli/src/verify.rs:166-181 | so does `m * n == k` |
| CriteriaLaws.TwoOperators | cli/src/verify.rs:155-165 | of two operators in a row the tighter one takes the operand between them, the left one if they bind alike, and two comparisons in a row have no derivation |
| CriteriaLaws.NamesJoin | cli/src/verify.rs:209-344 | names joined by a dot or an underscore are names |
| CriteriaLaws.AtLeastMeans | cli/src/verify.rs:166-181 | the text `name >= n` is unmapped if the name is not bound, an error if it is bound to a boolean, and otherwise whether the number is at least `n` |
| CriteriaLaws.AtLeastVerdict | cli/src/verify.rs:679-711 | a criterion of that form passes exactly if the name is bound to a number of at least `n`, and fails exactly if to a smaller one |
| CriteriaLaws.MaxMeans | cli/src/verify.rs:512-571 | `max ( m , n )` evaluates to the larger numeral |
| RequirementRefs.ResolveReqAttrRefs | cli/src/verify.rs:1021-1044 | the character scan returns the bindings of the dotted requirement names among the runs of identifier characters, in order: a reference with its value exactly if it resolves to that |
| RequirementRefs.ResolvedHolds | cli/src/verify.rs:1027-1034 | the bindings are exactly the references that resolve, each with its value |
| RequirementRefs.ScanVisitsEveryReference | cli/src/verify.rs:1021-1044 | on every text with a derivation the scan visits exactly the dotted requirement names the tokenizer produces |
| RequirementRefs.ScanMatchesTokens | cli/src/verify.rs:1021-1044 | on every text that lexes, the scan sees the references the tokenizer produces exactly if no number touches a reference; otherwise it sees fewer |
| RequirementRefs.ScanMissesGluedReferences | cli/src/verify.rs:1021-1044 | a digit in front of any requirement name hides it from the scan, while the tokenizer produces it |
| RequirementRefs.IsRequirementRefMeans | cli/src/verify.rs:1028-1034 | a word is taken for a requirement reference exactly if it begins with `REQ_` and has a dot behind that |
| SimulationOrder.BuildProducers | cli/src/simulate.rs:129-138 | the producer of a path is the last simulation by name that writes it |
| SimulationOrder.BuildEdges | cli/src/simulate.rs:140-171 | the edges built, duplicates included, are exactly the dependencies, and the in-degrees and neighbour lists describe them |
| SimulationOrder.KahnDecides | cli/src/simulate.rs:173-212 | the queue run lists every simulation exactly when there is no cycle, and then with every dependency first |
| SimulationOrder.NeighboursAreCounted | cli/src/simulate.rs:183-204 | an in-degree is never counted below zero, however often an edge was added |
| SimulationOrder.Release | cli/src/simulate.rs:185-200 | finishing a simulation takes each of its edges off once and lists exactly those left at zero, each once |
| SimulationOrder.RunQueue | cli/src/simulate.rs:173-204 | the loop with counters computes the queue run over the dependency relation |
| SimulationOrder.TopologicalOrder | cli/src/simulate.rs:129-213 | an order is returned exactly when the dependencies are acyclic; it lists every simulation once, each behind those whose outputs it reads and those it names; without one, no order of the simulations does that; enumeration of the maps does not show |
| SimulationOrder.LastWriterProvides | cli/src/simulate.rs:129-138 | a simulation provides a path exactly if it writes it and no simulation later in the order of names does |
| SimulationOrder.TopologicalMeans | cli/src/simulate.rs:140-171 | an order is topological exactly if it lists every simulation once and none before one it needs, told by inputs, outputs and named dependencies |
| SimulationRanks.KahnRanks | cli/src/simulate.rs:173-204 | in the order returned a simulation comes at the rank of its last dependency, and those of one rank come by name |
| SimulationRanks.OrderIsUnique | cli/src/simulate.rs:173-213 | an order that puts dependencies first and is by rank and name exists only without a cycle and is the one returned |
| ImportClosure.AliasReplacesLeadingSegment | deal-closure/src/lib.rs:265-279 | an alias replaces the leading segment as a whole and nothing else |
| ImportClosure.SubPackageIsBelow | deal-closure/src/lib.rs:182-189 | the package of an export has the segments of the exporting package and behind them those of the module |
| ImportClosure.LongestCommonSegmentPrefix | deal-closure/src/lib.rs:205-224 | the result is the longest run of segments that leads every non-empty package name |
| ImportClosure.ReachIsLeastClosed | deal-closure/src/lib.rs:289-340 | the reachable packages are the least set holding the seeds and closed under aliased imports and export targets |
| ImportClosure.ClosureIsLeast | deal-closure/src/lib.rs:281-340 | over a well-formed map the closure is the least set of files that holds the entries and, with a file, holds every file that one of its imports or exports leads to, told by segments and file contents without packages to visit |
| ImportClosure.ClosureIsExtensiveAndMonotone | deal-closure/src/lib.rs:281-340 | the closure holds its entries, and more entries give a larger closure |
| ImportClosure.ClosureIsIdempotent | deal-closure/src/lib.rs:281-340 | closing a closure adds nothing |
| ImportClosure.ClosureSeesOnlyReachability | deal-closure/src/lib.rs:289-340 | the closure depends on a file only through its package, exports and import paths |
| ImportClosure.WellFormedIsDetermined | deal-closure/src/lib.rs:130-168 | a well-formed module map is determined by its modules, so insertion order cannot show |
| ImportClosure.ModuleMap.Insert | deal-closure/src/lib.rs:162-168 | inserting a new file files it under its package and keeps the map well formed |
| ImportClosure.ModuleMap.ExportTargetPackage | deal-closure/src/lib.rs:182-189 | in a well-formed map an export leads to its module's own package exactly if some module declares that, and otherwise to the package it is written under; of the declared packages it leads to this one alone, told by segments |
| ImportClosure.ModuleMap.ReachablePackages | deal-closure/src/lib.rs:294-329 | the worklist visits exactly the reachable packages and ends |
| ImportClosure.ModuleMap.ClosureFilesWithAliases | deal-closure/src/lib.rs:289-340 | the files returned are the entries and every file of a reachable package, and in a well-formed map the least set of files that holds the entries and follows imports and exports |
| ClosureCache.ImportsOf | deal-closure/src/lib.rs:117-127 | the import list compared by the gate is the ascending list of distinct import paths |
| ClosureCache.BuildFrom | deal-closure/src/lib.rs:152-168 | building inserts every source, in whatever order, into the one well-formed map of them |
| ClosureCache.BuildClosureCache | lsp/src/workspace.rs:298-375 | a rebuild caches the files of the closure of the workspace and each file's import paths; the source bytes and the alias table are left out |
| ClosureCache.GateIsEnoughExactly | lsp/src/documents.rs:380-393 | for two parses of a file, in every workspace a shut gate leaves the cached files and imports equal to a rebuild, exactly if the edit changes the import paths or no closure can see it |
| ClosureCache.ShutGateIsSafe | lsp/src/documents.rs:380-393 | while the gate stays shut, a harmless edit leaves the cached files and imports equal to a rebuild |
| ClosureCache.InvisibleEdit | lsp/src/documents.rs:375-393 | an edit that keeps import paths and package, and whose exports no closure can tell apart, leaves the closure as it is |
| ClosureCache.PackageEditGoesUnnoticed | lsp/src/documents.rs:380-393 | every edit of the package clause alone passes the gate in some workspace and leaves a file listed that a rebuild drops |
| ClosureCache.ExportEditGoesUnnoticed | lsp/src/documents.rs:380-393 | every edit that loses an export target passes the gate in some workspace and leaves the target's file listed |
| ClosureCache.ExportGainGoesUnnoticed | lsp/src/documents.rs:380-393 | every edit that gains an export target passes the gate in some workspace and leaves the target's file out |
| ClosureCache.Documents.EagerParse | lsp/src/workspace.rs:386-467 | the first build leaves the cached files and imports current |
| ClosureCache.Documents.Update | lsp/src/documents.rs:316-400 | an update stores the buffer, rebuilds exactly when the gate opens, and keeps the cached files and imports current for harmless edits |
| ClosureCache.Documents.Replay | lsp/src/documents.rs:316-400 | over every run of harmless edits the cached files and imports stay what a rebuild would give |
| LoadPlan.PlanLoad | deal-closure/src/lib.rs:384-458 | planning fails exactly on an empty project; the closure is that of the entry points over the parsed files of the project and the dependencies, and holds every one of those that a parsed file in it imports; the analyzed files are the project's reachable and broken ones, whichever files were named |
| LoadPlan.PickEntries | deal-closure/src/lib.rs:406-422 | named files are the entry points as they stand; without them the `.dealx` files of the project, all of them and in order, if there is one, and otherwise the project; a project with files always has entry points |
| EditDistance.NoScriptIsCheaper | lsp/src/code_action.rs:160-180 | no script of edits from one string to the other costs less than the distance |
| EditDistance.BestScript | lsp/src/code_action.rs:160-180 | some script costs exactly the distance |
| EditDistance.DistanceIsLeastEditCount | lsp/src/code_action.rs:160-180 | the distance is the least number of single-character edits on a path of strings |
| EditDistance.DistanceIsSymmetric | lsp/src/code_action.rs:160-180 | the distance is symmetric |
| EditDistance.DistanceIsZeroOnlyOnEqual | lsp/src/code_action.rs:160-180 | the distance is zero exactly on equal strings |
| EditDistance.TriangleInequality | lsp/src/code_action.rs:160-180 | the distance obeys the triangle inequality, by composing scripts |
| EditDistance.Levenshtein | lsp/src/code_action.rs:160-180 | the two swapped rows compute the distance |
| EditDistance.NearestSymbol | lsp/src/code_action.rs:113-134 | the suggestion is the candidate nearest to the bad name within the threshold, alphabetically first among equals; it is the last segment of a path, differs from the bad name and is at most two edits or a third of its length away, and none is given exactly if no last segment of a path is |
| EditDistance.NearestMeans | lsp/src/code_action.rs:113-134 | any suggestion as specified has these properties, told by dotted suffixes and edit counts alone |
| EditDistance.ThresholdIs | lsp/src/code_action.rs:114 | a distance is within the threshold exactly if it is at most two or at most a third of the length of the bad name |
| EditDistance.NearestIsUnique | lsp/src/code_action.rs:113-134 | there is one such answer, so the enumeration order of the index cannot show |
| Calendar.DayNumberIsInjective | cli/src/simulate.rs:304-332 | two valid dates with one day number are the same date |
| Calendar.DaysToYmdInverts | cli/src/evidence.rs:424-437 | the closed form gives a valid date whose Gregorian day number is the argument |
| Calendar.DaysToYmdIsOnto | cli/src/evidence.rs:424-437 | every valid date from 1970 comes back from its day number |
| Calendar.DaysToYmdByLoops | cli/src/simulate.rs:304-332 | the year and month loops agree with the closed form on every day number |
| SymbolIndex.RefreshedAgrees | lsp/src/index.rs:493-496 | refreshing a file leaves all five maps in agreement with the latest envelopes exactly when no two files declare one path |
| SymbolIndex.RunAgrees | lsp/src/index.rs:231-304 | after any run of refreshes the five maps agree with the latest envelopes exactly when, for whatever a file declares now, no other file has declared it since |
| SymbolIndex.DisjointRunIsSettled | lsp/src/index.rs:231-304 | runs in which live files never share a path are among those |
| SymbolIndex.RunSitesAgree | lsp/src/index.rs:231-304 | reference sites and import links agree after any run at all: no site of a dropped parse and no empty bucket remains |
| SymbolIndex.RefreshingAllRepairs | lsp/src/index.rs:493-496 | whatever has happened, refreshing every live file once more leaves the maps in agreement exactly when no two files declare one path |
| SymbolIndex.RemovedAgrees | lsp/src/index.rs:293-304 | removing a file leaves what the other files ask for |
| SymbolIndex.AgreementNeedsDisjointFiles | lsp/src/index.rs:231-289 | an index in agreement is possible only if files declare different paths |
| SymbolIndex.SharedPathIsLost | lsp/src/index.rs:231-304 | with a shared path, the file refreshed later takes the path with it when it drops it |
| SymbolIndex.ReferencesAppendSites | lsp/src/index.rs:266-288 | the reference loop appends a file's sites for a path to that path's bucket, in envelope order |
| SymbolQueries.DeclarationIsTheFiles | lsp/src/index.rs:387-396 | a path has a declaration exactly when a file declares it, and it is that file's name range, else the whole range |
| SymbolQueries.DeclarationInIsDeclarationOf | lsp/src/index.rs:370-382 | within a file the declaration is found exactly when that file declares the path |
| SymbolQueries.UsagesAreTheFiles | lsp/src/index.rs:353-365 | usages in a file are that file's own sites in envelope order |
| SymbolQueries.ReferencesAreTheFiles | lsp/src/index.rs:309-342 | the references returned are the sites of every file, and the declaration if asked for, and nothing else, ascending by file and start |
| SymbolQueries.SortForgetsFileOrder | lsp/src/index.rs:333-339 | sorting makes lists equal that differ only in how the files interleave |
| SymbolQueries.ReferencesAreDistinct | lsp/src/index.rs:306-341 | the list has no repeats exactly when no site comes back after a different site with the same start |
| SymbolQueries.RepeatSurvives | lsp/src/index.rs:306-341 | three sites that start alike, the second ending elsewhere, leave a repeat |
| SymbolQueries.RunsWithTheSameFilesAnswerAlike | lsp/src/index.rs:309-414 | two settled runs that end with the same latest envelopes, a rebuild among them, answer every query alike |
| SymbolQueries.RangeMarksItsSpan | lsp/src/index.rs:242-256 | a stored range starts at the character where its byte span starts and ends at the one where the span ends |
| SymbolQueries.RefreshedDeclaration | lsp/src/index.rs:231-265 | after a refresh each path of the envelope is declared in that file, marking the span of its name, or the whole span if that is missing or empty |
| SymbolQueries.RefreshedReferences | lsp/src/index.rs:266-288 | after a refresh the references listed in that file are the named entries of the envelope, each marking its own span |
| SymbolQueries.RefreshedKind | lsp/src/index.rs:243-246 | after a refresh each path of the envelope has the kind that the envelope gives |
| SymbolQueries.SitesFollowTheText | lsp/src/index.rs:333-339 | sites of one file are listed in the order of the text |
| SymbolQueries.SitesFollowTheFiles | lsp/src/index.rs:333-339 | files are listed in the order of their names |
| SymbolQueries.ImportTargetsAreTheFiles | lsp/src/index.rs:401-414 | a link is listed exactly when the file imports a path there and a file declares the path where it leads |
| SymbolQueries.FollowIs | lsp/src/index.rs:401-414 | links are listed in the order of the references, leaving out those whose path nobody declares |
| WorkspaceIndex.Index.RemoveFile | lsp/src/index.rs:293-304 | evicting leaves no entry, site or link of the file, and an index that agreed with the files agrees with the others |
| WorkspaceIndex.Index.UpdateFromEnvelope | lsp/src/index.rs:231-289 | ingesting adds the envelope's elements, in whatever order, and then its references in order; an unreadable envelope adds nothing |
| WorkspaceIndex.Index.RefreshFile | lsp/src/index.rs:493-496 | a refresh agrees with the latest envelopes exactly when they declare different paths |
| WorkspaceIndex.Index.ReferencesOf | lsp/src/index.rs:309-342 | the list holds exactly the bucket's sites and the declaration if asked for, ascending by file and start, and has repeats exactly when a site comes back after another with its start |
| Positions.ByteRoundTrip | lsp/src/index.rs:529-541 | a byte sent to a position and back is the start of its character |
| Positions.BoundaryRoundTrip | lsp/src/hover.rs:489-513 | at every character boundary and at the end of the text the byte itself comes back |
| Positions.PastEndRoundTrip | lsp/src/index.rs:529-541 | past the end the length comes back |
| Positions.ByteToPositionIsMonotone | lsp/src/index.rs:529-541 | later bytes have later positions |
| Positions.PositionToByteIsMonotone | lsp/src/hover.rs:489-513 | later positions have later bytes |
| Positions.FindByte | lsp/src/hover.rs:489-513 | the walk stops at the last whole character that fits into the asked-for units, and answers for every position |
| Positions.Utf16IsTheForm | lsp/src/index.rs:529-541 | the width of a character is that of its UTF-16 form as RFC 2781 defines it, which decodes to the character |
| Positions.PositionIs | lsp/src/index.rs:529-541 | a position counts the line feeds in front of its line and the UTF-16 units between the start of the line and the byte |
| Positions.ByteIs | lsp/src/hover.rs:489-513 | a position on a line stands for the byte in front of the first character that its units do not reach past, and at most for the end of the line, behind its line feed |
| Positions.BytePastLines | lsp/src/hover.rs:491-493 | a line behind the last one stands for the end of the text |
| TextEdits.ApplyEdits | lsp/src/rename.rs:166-187 | edits are resolved against the old text, sorted by start from the right, and spliced |
| TextEdits.SpliceAllIsSimultaneous | lsp/src/rename.rs:178-186 | right-to-left splicing of disjoint edits is the simultaneous replacement, and the length guard drops none |
| TextEdits.EditsMeanSimultaneousReplacement | lsp/src/rename.rs:166-187 | so is the whole of `apply_edits` on edits without overlap and with distinct starts |
| TextEdits.ForwardEditsAreKept | lsp/src/rename.rs:167-176 | no edit whose range runs forward is dropped |
| TextEdits.EditOrderDoesNotMatter | lsp/src/rename.rs:166-187 | the order of the edit list does not show |
| TextEdits.OneEditReplaces | lsp/src/rename.rs:166-187 | an edit that marks a part of the text replaces that part by its new text and leaves what is around it |
| TextEdits.EncodedTextDecodes | lsp/src/rename.rs:166-187 | the bytes spliced are the UTF-8 form of RFC 3629: they decode to the characters of the text |
| ImportLines.LinesOfText | cli/src/fix_imports.rs:251-293 | joined lines split into the same lines, but for a carriage return at an end |
| ImportLines.LineEndings | cli/src/fix_imports.rs:252 | a line ends at a line feed, loses a carriage return in front of it, and at the end of the text keeps it |
| ImportLines.ImportTextReadsBack | cli/src/fix_imports.rs:300-315 | a printed import line parses back to the same package and items, whatever its indent |
| ImportLines.ImportOfTwo | cli/src/fix_imports.rs:285-298 | the form that is printed, written out |
| ImportLines.WildcardReadsBack | cli/src/fix_imports.rs:300-304 | a wildcard import is read as one, whatever its indent |
| ImportLines.ItemsOfJoinItems | cli/src/fix_imports.rs:295-315 | items joined with commas split back into themselves |
| ImportLines.ParsedItemsAreClean | cli/src/fix_imports.rs:300-315 | items read from a line are trimmed, non-empty and free of commas |
| FixImports.InsertAtIsBelowTheHeader | cli/src/fix_imports.rs:317-334 | new imports go below the last import, else below the first package clause, else to the top |
| FixImports.KeywordsBegin | cli/src/fix_imports.rs:319-334 | a line is taken for an import or a package clause by its keyword, whatever its indent |
| FixImports.InsertIndex | cli/src/fix_imports.rs:319-334 | the scan finds that place |
| FixImports.MergeImports | cli/src/fix_imports.rs:255-272 | the merge loop extends the first named import of each package in turn |
| FixImports.ApplyImports | cli/src/fix_imports.rs:251-293 | the rewrite is the specified text |
| FixImports.Find | cli/src/fix_imports.rs:162-229 | a reference is settled exactly if nothing has to be imported for it; else unresolved, missing from a package or ambiguous exactly as none, only that one or more than one declares what it can mean |
| FixImports.PrimitivesAre | cli/src/fix_imports.rs:20-35 | with nothing imported and nothing declared beside it, a bare name is settled exactly if it is one of the nine primitive names |
| FixImports.ClassifyMeans | cli/src/fix_imports.rs:162-229 | the same of the specification that the plan is told from |
| FixImports.PlanFileFix | cli/src/fix_imports.rs:139-246 | the plan needs exactly the missing pairs, reports the rest in order, and rewrites only when something is needed |
| FixSoundness.MergedLineReadsBack | cli/src/fix_imports.rs:262-269 | a merged line keeps its indent and parses back to the old items and the new ones, ascending |
| FixSoundness.FixAddsExactly | cli/src/fix_imports.rs:248-293 | read back, the fixed text imports what the source imports and what is needed: nothing is lost, widened to a wildcard, or invented |
| FixSoundness.FixKeepsLines | cli/src/fix_imports.rs:248-293 | apart from one sorted block of new imports every line is the old one in its place, unchanged or with its import extended under the same indent |
| FixSoundness.ReferenceAfterFix | cli/src/fix_imports.rs:162-229 | after the fix a missing reference is settled, a settled or unresolved one stays so, an ambiguous one stays so or is settled |
| FixSoundness.FixIsIdempotent | cli/src/fix_imports.rs:139-293 | planning again on the fixed text needs nothing and leaves it unchanged |
| ReqIfValidator.ValidateReqif | cli/src/reqif_schema.rs:200-380 | the event loop and the checks behind it report the specified violations |
| ReqIfValidator.VerdictMeans | cli/src/reqif_schema.rs:200-380 | any event list is accepted exactly when the last root is in the namespace, a header and a core occur, every element that must have an identifier does, every text read as a reference names a declared object, and objects were seen |
| ReqIfValidator.ScanMeans | cli/src/reqif_schema.rs:235-342 | what the loop remembers, told from the event list: which elements occurred, the namespace of the last root, whether a reference is open, the declared objects, the references read, whether an identifier was missing |
| ReqIfValidator.IdentifierMeans | cli/src/reqif_schema.rs:102-117 | the identifier that counts is the first one that is not empty; there is none exactly if all are empty |
| ReqIfValidator.DeclaresMeans | cli/src/reqif_schema.rs:243-247 | an event declares an object under its identifier exactly if it begins a SPEC-OBJECT that has one |
| ReqIfValidator.UnidentifiedMeans | cli/src/reqif_schema.rs:231 | what is reported as lacking an identifier are the objects, relations and specifications without a non-empty one, and nothing else |
| ReqIfValidator.ScanContent | cli/src/reqif_schema.rs:235-342 | over a well-nested tree the loop finds its identifiers and references in order and is back where it was |
| ReqIfValidator.ScanSees | cli/src/reqif_schema.rs:316-328 | over any document tree the flags and the recorded depth see the objects exactly where the recursion without depths does |
| ReqIfValidator.DocumentIsAccepted | cli/src/reqif_schema.rs:182-380 | every document, whatever it nests, is accepted exactly when it is sound and its SPEC-OBJECTS is seen |
| ReqIfValidator.PlainDocumentIsAccepted | cli/src/reqif_schema.rs:182-380 | a document that nests neither root, header nor core is accepted exactly when its root is in the namespace, the core holds the objects and every reference resolves |
| ReqIfValidator.NestedCoreEndsTheScope | cli/src/reqif_schema.rs:316-328 | a nested CORE-CONTENT that holds no objects itself, self-closing or not, hides the objects after it |
| ReqIf.SameReqifId | cli/src/reqif.rs:51-53 | two paths get one identifier exactly when they differ only in dots and underscores |
| ReqIf.ObjectsHold | cli/src/reqif.rs:166-178 | the exported objects are exactly the requirements and needs |
| ReqIf.RelationsHold | cli/src/reqif.rs:180-223 | the exported relations are exactly the trace edges whose ends each match a requirement |
| ReqIf.EmittedIsAccepted | cli/src/reqif.rs:127-577 | the export is accepted exactly when both ends of every exported edge resolve to an exported object |
| ReqIf.QualifiedEdgesAreAccepted | cli/src/reqif.rs:180-212 | edges that name requirements in full make an export that is accepted |
| ReqIf.LocalNameDangles | cli/src/reqif.rs:184-212 | an edge that names a requirement by its last segment is exported, and refused |
| ReqIfContent.ObjectsReadBack | cli/src/reqif.rs:372-423 | read from the document by the names of the attribute definitions that it declares, the objects are those given, in order, each value in its own field |
| ReqIfContent.RelationsReadBack | cli/src/reqif.rs:430-470 | the relations of the document, read back in order, have their identifiers, types and ends, the source at the source and the target at the target |
| ReqIfContent.TypesAreDeclared | cli/src/reqif.rs:292-366 | the type that a relation refers to is declared in the document under the name of its kind, and no other relation type is |
| ReqIfContent.ObjectTypeIsReferred | cli/src/reqif.rs:372-394 | the type that an object refers to is the one that declares the attributes |
| ReqIfContent.HierarchyReadsBack | cli/src/reqif.rs:506-556 | the specification refers to the objects, all of them and in their order |
| ReqIfContent.EdgeReadsBack | cli/src/reqif.rs:180-223 | an exported edge is read as leading from its source's identifier to its target's, with the type of its kind, and its own identifier holds the source's in front of the target's |
| ReqIfContent.KindsAreKept | cli/src/reqif.rs:105-116 | different trace kinds are exported with different types |
| ReqIfContent.ExportedObjects | cli/src/reqif.rs:166-178 | each requirement and need is exported under its path with underscores for dots, named by its last segment, with its fields, and nothing else is |
| ReqIfContent.ExportedEdges | cli/src/reqif.rs:180-223 | an edge is exported exactly if it is of one of the four trace kinds, has both ends, and each is the name or the last segment of a requirement or need |
| ReqIfContent.ExportIsSorted | cli/src/reqif.rs:174-227 | objects and relations come in the order of their identifiers |
| ReqIfEmitter.Emit | cli/src/reqif.rs:127-577 | the events written are those of the specified document; it fails exactly when a part of the IR is missing |
| ReqIfEmitter.CollectRelations | cli/src/reqif.rs:180-227 | the edge filters select and sort the specified relations |
| ReqIfEmitter.WriteObject | cli/src/reqif.rs:372-423 | one object's events are well nested and are its tree |
| ReqIfEmitter.EmitChecked | cli/src/reqif.rs:594-613 | the gate lets through the document that was emitted and no other, exactly when the validator accepts it; with plain ids, exactly when both ends of every exported edge resolve |
| Debounce.StepKeepsInv | lsp/src/debounce.rs:39-53 | every step keeps: the handle is that of the last task and nobody aborted it, superseded tasks are not live, nothing acts before its deadline, bursts collapse |
| Debounce.OneLiveTaskPerFile | lsp/src/debounce.rs:36-53 | in every reachable state a file has at most one live task, the one spawned last |
| Debounce.OnlyTheLastOfABurstActs | lsp/src/debounce.rs:1-8 | a task superseded before its deadline was cancelled without having begun, and one never superseded was not cut short |
| Debounce.EndedStays | lsp/src/debounce.rs:42-44 | a cancelled task never runs afterwards |
| Debounce.OtherFilesAreLeftAlone | lsp/src/debounce.rs:39-53 | scheduling for one file aborts no task of another |
| Debounce.LastTaskFinishes | lsp/src/debounce.rs:47-52 | the last task of a file can always wake at its deadline and finish |
| Debounce.ActionWaitsForItsDelay | lsp/src/debounce.rs:47-52 | until the delay of a call has passed its task is asleep or cancelled |
| Debounce.Debouncer.Schedule | lsp/src/debounce.rs:39-53 | a call aborts the task behind the old handle, spawns the new one and keeps its handle |
| ModelValues.UniqueKeyWithSuffix | cli/src/model_values.rs:109-121 | the answer is the value that every matching key holds, and none if there is no such value |
| ModelValues.Resolve | cli/src/model_values.rs:77-104 | the longest tail of the query that answers decides; none answers when it returns nothing |
| ModelValues.ResolutionIsUnique | cli/src/model_values.rs:77-104 | the answering tail and its value are unique |
| ModelValues.AmbiguityCarriesOver | cli/src/model_values.rs:109-121 | a tail that is ambiguous makes every shorter tail ambiguous |
| ModelValues.AmbiguousTailsNeedAnExactKey | cli/src/model_values.rs:77-121 | from an ambiguous tail on, only an exact key can answer |
| Dotted.SplitInvertsJoin | cli/src/model_values.rs:77-104 | segments joined with dots split back into themselves |
| Dotted.SplitConcat | cli/src/model_values.rs:77-104 | joining two dotted names with a dot joins their segments |
| Dotted.DotEndsWithIsByTail | cli/src/model_values.rs:109-121 | a name ends in another at a dot exactly if its last segments are the segments of the other |
| Dotted.LastSegmentIs | lsp/src/code_action.rs:117 | the last segment of a path is the only name without dots that the path ends in at a dot |
| Order.LessIsDictionaryOrder | cli/src/simulate.rs:129-138 | strings are ordered as in a dictionary: at the first place where they part, the one that ends there or has the smaller character comes first |
| Order.SortDedupIsListing | deal-closure/src/lib.rs:117-127 | sorting and deduplicating a list gives the ascending list of its elements, whatever its order was |

## Left out

- The compiler core and everything behind its foreign-function interface: syntax trees, index envelopes and the IR are inputs.
- Files, processes, version control, archives, hashes, UUIDs and JSON decoding: what they deliver is a parameter; a UUID is any non-empty text for its label.
- Error messages: a failure is one value; which text it prints is not modelled.
- CriteriaGrammar.ParenthesizeMeans: numbers are reals, so rounding, overflow and NaN of the floating-point original are not modelled; its EPSILON is the exact 2 to the power -52.
- CriteriaText.Tokenize: the table of Unicode letters and digits is a parameter; every result holds for any table that classes ASCII rightly and keeps whitespace and operators out.
- Fixed-width integers: the day count and the line and character numbers are unbounded.
- Positions.ByteToPositionIsMonotone: lines end at line feeds; the other line breaks that the rope type knows are not modelled.
- TextEdits.EditsMeanSimultaneousReplacement: for overlapping edits, which can cut a character in two in the original, nothing is claimed.
- ImportClosure.ModuleMap.ClosureFilesWithAliases: the closure is a set; the path order of the returned list is not modelled.
- LoadPlan.PlanLoad: the derived aliases and the file extensions are parameters, and the analyzed files are a set.
- ClosureCache.BuildClosureCache: the cached source bytes, which a shut gate leaves as they were, and the alias table are not modelled, nor a rebuild that fails because the workspace root is gone.
- ClosureCache.ShutGateIsSafe: "equal to a rebuild" is said of the file set and the import lists only; the same holds of EagerParse, Update, Replay and GateIsEnoughExactly.
- Derivation of aliases from directories: it needs the file system; only the common prefix it takes is modelled.
- SymbolIndex.RunAgrees: single calls are atomic; interleavings inside one call on the concurrent maps are not modelled.
- Alias lookup, workspace symbols and inlay data of the symbol index: they would add only easy members.
- Ingestion of model values from syntax trees, compute blocks and evidence files: the value table is an input.
- FixSoundness.FixIsIdempotent: names are as the compiler issues them, without whitespace, braces and commas; imports are what the line parser reads, so an import spread over several lines is seen by the compiler only.
- Collecting references from syntax trees and the global index for the import fixer: they are inputs.
- ReqIf.EmittedIsAccepted: exported ids and the ends of exported edges end in no whitespace and hold no XML metacharacter, which the reader would trim or report as an event of its own; the XML declaration, the escaping and the indentation that lie between the two are not modelled.
- ReqIfContent.ObjectsReadBack: the identifiers of the four attribute definitions are taken to be distinct, as hashes of distinct labels are.
- ReqIfValidator.ValidateReqif: text that is not well-formed XML never becomes events here; the events of an export are well nested by construction.
- Which payload fields make the text, threshold, operator and method of a requirement: they are inputs.
- Debounce.StepKeepsInv: each `schedule` call is one step; an aborted action that has begun may still reach its end, as the runtime allows.
- SysML v2 export, configuration, schema registries, simulation dispatch, reporting, hover, completion and the other editor handlers: presentation or plumbing.
- The check for new diagnostics after a rename: it depends on the compiler core.
