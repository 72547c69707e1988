# Verified models of the compiler maintenance tools

The self-hosted compiler is kept in order by a handful of Python tools: one moves its sources to a new layout and splits
its largest module, others pack and stage trees of files, generate tables, validate manifests, and audit imports and test
runs. This project models what those tools compute and proves what they promise.

`dafny verify dfyconfig.toml` checks everything.

## What is modelled

**Layout migration** (`tools/migrate_compiler_layout.py`). Sources are texts. `ImportLines` reads and prints the
import lines at the head of a source; `ImportRewriting` rewrites them (`RewriteImports` is the loop, `Rewrite` the
function it is proved against). `ImportStability` proves that rewriting is idempotent exactly for the manifests that
pass a finite check, and `SourceSettling` says exactly when it is for one source. `ImportBindings` proves that every
binding is kept and retargeted as the manifest's tables say, imports of whole modules included. `WordSearch` finds
whole words. `FunctionFragments` and `CheckerExtraction` split the checker module (`Sources.ExtractChecker` updates
the dictionary of sources in place); `ExtractionConserves` proves that no function is lost, changed or reordered and
that synthesised headers are complete and minimal; `ExtractedHeaders` that these headers read back;
`ExtractionOutcomes` exactly when functions are moved at all; `ExtractionRerun` says exactly when a second extraction
is recognised as already made, `ExtractionCounts` exactly when every function ends up in one owner
(`ExtractionCounts.ExtractedOnce`), and `MovedBindings` exactly when a name in a moved function stands for what it
stood for. `LayoutMigration` plans and applies the moves over a tree (`Tree.Apply`); `MigratedTree`,
`MigrationSettles` and `MigrationLinks` prove what is on disk afterwards and exactly when planning again finds nothing
to do. `ImportResolution` proves exactly which named imports lead, in the tree afterwards, to a file that declares
what they ask for. `Grouping` and `Relabeling` hold the ordered dictionaries of lists and the reversed dictionaries
that these share; `ExtractionExamples` and `MigrationExamples` hold the small sources and trees on which extracting
and migrating fall short.

**Bundles and staging** (`tools/evidence_bundle.py`, `tools/compiler_sources.py`). `Base64`, `Json`, `JsonLines` and
`EvidenceFormat` are the concrete formats; gzip is the identity and the digest a parameter. `EvidenceRoundTrip` and
`EvidenceBundle` prove the round trip from a tree through a bundle to an extracted directory; `EvidenceStreams` says,
line by line, exactly which streams the reader accepts. `SourceStaging` proves that staging either changes nothing or
adds a disjoint union, which `StagedSources` describes by the entries of the source roots.

**Encodings and arithmetic.** `DecimalPowers` (with `Powers` and `PowerConstants`) proves the reciprocal table of
`tools/float-decimal-powers.py` exact. `DiagnosticRanges`, `DiagnosticTable` and `MarkerSplice` follow
`tools/json-diagnostic-data.py` from predicates to ranges to a spliced block, and `GeneratedData` reads the tables
back from the updated file, each by the name of its function. `JsonRoundTrip`, `TextOrder` and `CanonicalJson` prove
the canonical encoding behind `uniqueItems` in `tools/compatibility_manifest.py` injective on documents;
`UniqueValues`, with `Numbers`, says exactly how the check differs from equality of the loaded values. A float is an
abstract value that Python's reader and printer of floats, taken as parameters, read and print. `ReferenceBlocks` is
the block scanner of the same tool, `WorkflowLines` its two line patterns. `SnapshotCounts` proves that the discarding
decoder of `tools/bootstrap_snapshot_size.py` gives the verdict of the full one.

**Audits.** `HeaderReading`, `LayoutRules`, `LayoutIsolation` and `RecoveryRules` (`tools/compiler_layout.py`) go from
the texts of sources to their imports, and turn rules on single imports into facts about whole chains of imports;
`LayoutReports` and `RecoveryReports` say issue by issue what is reported. `UnitRuns`
(`tools/complete_compiler_units.py`) runs checks on events, with the same verdict for every order in which runs
complete; `UnitAccounts` turns them into an exact account of the tests over the lines of output.

Where the values that some places of a list give are taken "each once, in order", the statement is `Wrappers.Gathers`,
and `Wrappers.GathersOnce` proves that it leaves one result only.

## Where the code falls short of what is said about it

Each of these is proved, as an exact condition or with an input that shows it.

- Migrating again is not always a no-op, even when targets are distinct and a target that is also a name is its own.
  `MigrationLinks.StandingTargetsIdempotent` gives the condition: either the extraction had been made before, or some
  function stays in the checker and the one owner that may exist beforehand (`lambda_checking`) declares none of the
  functions that move to it. When no function stays, the checker's file keeps all of its text beside the copies
  (`MigrationExamples.EmptiedUnsettled`). When `lambda_checking` already declared a moved name, the second run raises
  "partially applied". For any other manifest
  `MigrationLinks.MigrationIdempotent` adds what the targets and the texts of the tree must be like.
- The same condition decides whether extracting keeps each function in one owner (`ExtractionCounts.ExtractedOnce`).
- A name that a moved function mentions is captured when the owner's file declared it already or imported it from
  elsewhere, when the checker imports a name it also declares, or when it imported the name from the owner itself under an
  alias (`MovedBindings.MovedMeaning` has the equivalence, `ExtractionExamples.ImportCaptured` an input).
- Rewriting keeps every binding unless a line is broken by it: an empty member that is left alone in its group, or a
  converted default import whose alias holds a closing brace, prints a line that is no named import
  (`ImportBindings.BindingsMove` has the equivalence, `MigrationExamples.EmptyMemberBreaks` an input).
- An import that names the checker by one of its paths, and not by `checked_program`, follows the checker's file. So it
  stops resolving exactly when its function leaves the checker while others stay (`ImportResolution.StillResolves`;
  `MigrationExamples.EarlierPathStrays` and `CliStrays` have the trees).
- The length test behind `uniqueItems` compares encodings, in which 1, 1.0 and true differ, and 0.0 and -0.0. It finds
  exactly the arrays with equal items if and only if, where some items are equal, some are so with numbers of the same
  kinds (`UniqueValues.LoadedUniqueItems`; `WholeAndFloatAccepted`, `WholeAndTruthAccepted` and `ZerosAccepted` have
  arrays that it misses).
- Packing checks only the selections for unsafe names, reading checks every record: a selected directory with a file whose
  name holds a backslash is written and then rejected (`EvidenceBundle.Pack`, `EvidenceBundle.BackslashRejected`).
- A Go predicate that holds nowhere exports a null table, which the renderer cannot iterate over
  (`GeneratedData.Regenerate`, `GeneratedData.NowhereFails`).
- The canonical encoding identifies a pair of lone surrogates with the code point they stand for
  (`CanonicalJson.SeparateSurrogatesCollide`); no decoded document holds such a pair.
- An owner's file whose header is empty is read otherwise than it was put together when its text starts like an import or
  with a blank line (`ExtractedHeaders.OwnerHeaderReads` has the condition).
- The fixed-point exponent is exact well beyond the registered table, to 642 in magnitude, and wrong at 643 on both sides.

## Model

| member | source | states |
|---|---|---|
| ImportLines.PrintParse | tools/migrate_compiler_layout.py:94-117 | an import line, named or not, is exactly the parts that reading it finds: printing them gives the line back |
| ImportLines.ParsePrintNamed | tools/migrate_compiler_layout.py:16-16 | a printed named import whose member list has no brace and whose module is well spelled is matched again, with the same members, module and tail |
| ImportRewriting.RewriteImports | tools/migrate_compiler_layout.py:90-120 | the rewriting loop computes the rewritten source: import lines at the head rewritten one by one, everything after them untouched |
| ImportRewriting.RegroupMembers | tools/migrate_compiler_layout.py:97-101 | the loop over the members of one import builds the ordered groups by target module |
| Grouping.GroupedExactly | tools/migrate_compiler_layout.py:63-66 | grouping with an ordered dictionary gives one group per key, keys in the order first seen, each holding exactly the items with that key, in order |
| Grouping.HavingExact | tools/migrate_compiler_layout.py:63-66 | the items with a key are those places of the list where the key is that, each once, in order |
| Grouping.KeysExact | tools/migrate_compiler_layout.py:63-66 | the keys are those of the places whose key no earlier place has, in order |
| ImportBindings.RegroupExact | tools/migrate_compiler_layout.py:97-103 | regrouping an import gives one import for each module needed, in order, each with exactly the members that go there, in order |
| ImportStability.SettledCheck | tools/migrate_compiler_layout.py:98-107 | following where a name went leads no further, for all names and modules, exactly when every assigned path that is a key is its own path and no other module takes the checker's place while checker functions live elsewhere |
| ImportStability.RewriteIdempotent | tools/migrate_compiler_layout.py:90-120 | rewriting a rewritten source gives it back, for every source and every manifest that passes the check, through regrouping, conversion of default imports and aliases |
| ImportStability.IdempotentExactly | tools/migrate_compiler_layout.py:90-120 | rewriting is idempotent on all sources if and only if the manifest passes the check |
| SourceSettling.RewrittenStays | tools/migrate_compiler_layout.py:90-120 | for one source and any tables, rewriting its rewritten text changes nothing if and only if every binding of that text is where rewriting would send it |
| SourceSettling.SentOnce | tools/migrate_compiler_layout.py:90-120 | for a source without a broken line, if and only if no binding of the source is sent on a second time |
| ImportBindings.BindingsMove | tools/migrate_compiler_layout.py:90-120 | the text after the imports is unchanged, and the bindings of the rewritten source are, with multiplicity, those of the source retargeted as the tables of the manifest say, if and only if no line is broken; what the targets declare is the matter of ImportResolution |
| ImportBindings.ConvertedBinds | tools/migrate_compiler_layout.py:108-115 | a default import of a moved module becomes a named import of its default member, under the alias it had or its own name, with what followed on the line still there |
| ImportBindings.WholeMoves | tools/migrate_compiler_layout.py:104-118 | an import of a whole module, unless it breaks, is rewritten to one binding: the module at the path that the tables give it, with the same suffix; or, when it moved and has a default member, that member at that path, under the alias that the suffix gives or its own name, with the rest of the line |
| FunctionFragments.Partition | tools/migrate_compiler_layout.py:48-66 | the lines of a body are its lead followed by its function fragments, each starting at its declaration and holding no other |
| FunctionFragments.FragmentsRead | tools/migrate_compiler_layout.py:48-66 | fragments laid out one after another are found again as the same fragments |
| FunctionFragments.FunctionNameExact | tools/migrate_compiler_layout.py:17-17 | a line declares a function if and only if it starts with "def ", a lower-case name and an opening parenthesis |
| CheckerExtraction.Sources.ExtractChecker | tools/migrate_compiler_layout.py:45-87 | the extraction updates the dictionary of sources exactly as specified, with the same outcome, also when it stops part way |
| CheckerExtraction.Sources.Synthesize | tools/migrate_compiler_layout.py:76-86 | the loop over the pool, which groups imports as it goes, prints the header of the entries picked |
| ExtractionConserves.ExtractConserves | tools/migrate_compiler_layout.py:45-87 | after an extraction the text after the checker's imports was white space and assigned functions; each owner's file is a header, what it declared before, and exactly the functions assigned to it, whole and in order; no other file changes or appears; that no copy stays behind is the matter of ExtractionCounts.ExtractedOnce |
| ExtractionConserves.PickedExact | tools/migrate_compiler_layout.py:77-84 | a module imports, once each, exactly the names it mentions and does not declare that another module offers, each from the first pool entry that offers it, in pool order |
| ExtractionConserves.PickedInOrder | tools/migrate_compiler_layout.py:77-84 | the entries picked are the places of the pool that are the first to offer a wanted name, each once, in order |
| ExtractionConserves.PaddedIs | tools/migrate_compiler_layout.py:71-75 | what an owner declared is kept, with one more newline unless it is empty or ends with a blank line, so that a line it ends is followed by a blank one |
| ExtractionOutcomes.ExtractedExactly | tools/migrate_compiler_layout.py:45-87 | functions are moved if and only if the checker has named imports and then white space and just the assigned functions, each declared once, not all of which stay, and of the owners only the checker and the one that may exist are there, that one with named imports |
| WordSearch.MentionsWholeWord | tools/migrate_compiler_layout.py:82-82 | an identifier counts as mentioned if and only if it stands somewhere in the text as a whole word |
| ExtractedHeaders.OwnerHeaderReads | tools/migrate_compiler_layout.py:67-87 | the file of an owner splits again into its header and its body, and the header's named imports are the picked entries, each once, if and only if something is picked or the body starts neither like an import nor with a blank line |
| ExtractionRerun.AppliedIs | tools/migrate_compiler_layout.py:49-55 | the extraction counts as made, and changes nothing, if and only if the checker declares just the functions assigned to it and every owner declares each of its functions exactly once |
| ExtractionRerun.RerunExactly | tools/migrate_compiler_layout.py:45-87 | running the extraction on its own result is recognised as made if and only if some function stays in the checker and the existing owner declared none of those moved to it |
| ExtractionCounts.ExtractedOnce | tools/migrate_compiler_layout.py:45-87 | after an extraction every assigned function is declared once in its owner, and in the checker only if that is its owner, if and only if some function stays in the checker and the existing owner declared none of those moved to it |
| ExtractionCounts.CountAfter | tools/migrate_compiler_layout.py:68-87 | of any name, a module other than the checker declares as many functions after an extraction as before, and one more if the name is assigned to it |
| MovedBindings.MovedMeaning | tools/migrate_compiler_layout.py:66-87 | the file of an owner is its header and its text, and a name that a moved function mentions, a function or an import of the checker, stands there for the same member of the same module if and only if it is not captured: by a declaration the file had, by an earlier import of the name from another module, or by the file's own scope |
| MovedBindings.CapturedByOld | tools/migrate_compiler_layout.py:75-84 | for a name that the checker binds once, and not to the owner itself, the name is captured if and only if the owner declared it before or imported it first as something else |
| ExtractionExamples.ImportCaptured | tools/migrate_compiler_layout.py:74-84 | a function that mentions an import moves to a module that imports the same name from elsewhere: the extraction succeeds and the name stands for the other import |
| Relabeling.ReverseIs | tools/migrate_compiler_layout.py:141-141 | a dictionary that leads back from every value to its key, and from nowhere else, is the reverse, and the original is injective |
| LayoutMigration.Tree.Load | tools/migrate_compiler_layout.py:140-152 | loading succeeds if and only if every path has an original name, no two the same, and none is a link; it gives the sources and their paths by original name, in whatever order the paths come |
| MigratedTree.OriginalIs | tools/migrate_compiler_layout.py:141-145 | a path stands for itself when it is a name, else for the module assigned to it, else for the owner of the earlier path that it is |
| LayoutMigration.ModuleNameIs | tools/migrate_compiler_layout.py:18-18 | a module name is well spelled if and only if every part between slashes is a lower-case name |
| LayoutMigration.DefaultsExact | tools/migrate_compiler_layout.py:128-135 | an earlier path has the default member of its owner, if that has one, and any other path has its own |
| LayoutMigration.BlockedIs | tools/migrate_compiler_layout.py:166-170 | a destination is blocked if and only if a directory on the way to it is something else |
| LayoutMigration.Tree.PlanSources | tools/migrate_compiler_layout.py:159-175 | the loop over the sources succeeds if and only if every destination is free and its parents are not blocked, and collects exactly the writes and removals that differ from the tree |
| LayoutMigration.Tree.Apply | tools/migrate_compiler_layout.py:123-181 | a refused plan leaves the tree unchanged; a plan that stands is carried out in full |
| MigratedTree.TreeAfter | tools/migrate_compiler_layout.py:159-210 | writes and removals are disjoint, and afterwards there is exactly one file for each source, rewritten, at its assigned path: no stale copy and no other file; CLI sources are all rewritten |
| MigrationSettles.SettledPlan | tools/migrate_compiler_layout.py:123-210 | once the moved sources count as extracted and every text has its bindings where rewriting sends them, planning again on the tree left behind yields no writes, no removals and no CLI writes |
| MigrationSettles.ChainsUnsettle | tools/migrate_compiler_layout.py:144-144 | when a source's target is the name of another source, planning again always finds something to do |
| MigrationLinks.MigrationIdempotent | tools/migrate_compiler_layout.py:123-210 | for every tree and every well spelled manifest, planning again finds nothing to do if and only if no target is the name of another source, every source and CLI source, once rewritten, has each binding where rewriting would send it, and the extraction was made before, or leaves a function in the checker and doubles none elsewhere |
| MigrationLinks.StandingTargetsIdempotent | tools/migrate_compiler_layout.py:123-210 | for every tree and every manifest in which a target that is also a name is its own and earlier paths are no one else's, planning again finds nothing to do if and only if the extraction was made before, or leaves a function in the checker and doubles none elsewhere |
| MigrationLinks.TargetsSettle | tools/migrate_compiler_layout.py:128-141 | such a manifest passes the check on import paths, and no source takes the name of another |
| MigrationLinks.BindingsFollow | tools/migrate_compiler_layout.py:90-181 | in the tree afterwards every source has its file, with its body unchanged and its bindings retargeted as the tables of the manifest say, if and only if none of its import lines is broken |
| MigrationLinks.ImportLeads | tools/migrate_compiler_layout.py:98-101 | for any manifest, the path that an import is rewritten to exists afterwards and holds the rewritten source of the module that the tables name, unless an earlier path hides that module |
| MigrationLinks.WholeImportLeads | tools/migrate_compiler_layout.py:104-118 | for any manifest, an import of a whole module, by its name or an earlier path, in a source or a CLI source: the text afterwards binds the module, or its default member, at the path assigned to it, and there its rewritten source is |
| ImportResolution.StillResolves | tools/migrate_compiler_layout.py:45-181 | for every tree and every manifest whose targets stand, as above: a named import that leads to a file declaring its function, rewritten, leads in the tree afterwards to a file declaring it, if and only if it does not name the checker by a path of it to ask for a function that leaves while others stay |
| ImportResolution.SourceImportsFollow | tools/migrate_compiler_layout.py:45-181 | in the tree afterwards the file of every source keeps its bindings, and each named import that resolved, or that extraction added, resolves, if and only if no line is broken and no such import asks a path of the checker for a function that left |
| ImportResolution.CliImportsFollow | tools/migrate_compiler_layout.py:176-181 | the same for every CLI source, which stays in place |
| MigrationExamples.EmptiedUnsettled | tools/migrate_compiler_layout.py:45-87 | a checker of one function assigned elsewhere is migrated, and planning again then finds something to do |
| MigrationExamples.EarlierPathStrays | tools/migrate_compiler_layout.py:98-101 | a tree whose checker goes by an earlier path: an import of a moved function by that path resolves, the migration is planned, and the rewritten import then resolves no more |
| MigrationExamples.CliStrays | tools/migrate_compiler_layout.py:176-181 | a CLI source that consists of such an import does not keep its imports |
| MigrationExamples.EmptyMemberBreaks | tools/migrate_compiler_layout.py:94-103 | an import of an empty member and a moved function is broken by rewriting, and its bindings are not kept |
| MigrationExamples.Instances | tools/migrate_compiler_layout.py:123-141 | names, a manifest and tables as these examples take them exist |
| Base64.DecodeEncode | tools/evidence_bundle.py:66-97 | decoding inverts encoding, with padding, as in section 4 of RFC 4648 |
| Base64.AlphabetExact | tools/evidence_bundle.py:66-97 | letters stand for their places in the alphabet of section 4 of RFC 4648 |
| Base64.DecodeExact | tools/evidence_bundle.py:97-97 | a text decodes to data if and only if each four characters, as a number of twenty-four bits, are its next three bytes, or, padded and last, its one or two bytes |
| JsonLines.LineReads | tools/evidence_bundle.py:23-24 | a written line decodes to the canonical form of what was written |
| JsonLines.LineIsLine | tools/evidence_bundle.py:23-24 | a written line ends at its only newline |
| TextLines.SplitConcat | tools/evidence_bundle.py:85-86 | iterating over a stream of lines gives back exactly the lines written |
| EvidenceFormat.ReadBundle | tools/evidence_bundle.py:73-105 | the streaming reader, with its set of seen paths, accepts and yields exactly what the format defines |
| EvidenceRoundTrip.RecordReads | tools/evidence_bundle.py:64-101 | a written record reads back as itself when its path is safe and is rejected otherwise |
| EvidenceRoundTrip.BundleReads | tools/evidence_bundle.py:57-105 | a written bundle reads back as its missing inventory and its files, in order, or is rejected when some path is unsafe |
| EvidenceRoundTrip.AcceptedInOrder | tools/evidence_bundle.py:73-105 | any accepted stream has distinct safe paths, none above another, none at or below a missing path, and modes within nine bits |
| EvidenceStreams.RecordsExact | tools/evidence_bundle.py:73-105 | a stream is accepted with a list of missing paths and files if and only if its first line is an object that announces those paths and that number of files, each other line is an object with just the five members of its file, the size and digest being those that its decoded bytes have, and the paths are distinct, none above another, none at or below a missing one |
| EvidenceStreams.SafeExact | tools/evidence_bundle.py:11-16 | a path is safe if and only if it is not empty, has no backslash and no NUL, and no stretch of it between slashes is empty, a dot or two dots |
| EvidenceStreams.CorruptedRejected | tools/evidence_bundle.py:97-99 | a stream with a record whose bytes are not as many as it says, or have another digest, is rejected |
| EvidenceStreams.ExtractCorrupted | tools/evidence_bundle.py:97-127 | and extracting it creates nothing |
| EvidenceBundle.Select | tools/evidence_bundle.py:27-54 | selecting succeeds if and only if the selections are allowed, and collects exactly the selected files, each once, and the missing names |
| EvidenceBundle.Pack | tools/evidence_bundle.py:27-70 | packing succeeds if and only if the selections are allowed, the output is new and no selected name holds a backslash; what it writes reads back as the selected files, each once, in path order |
| EvidenceBundle.BackslashRejected | tools/evidence_bundle.py:27-70 | selecting a directory that holds a file whose name has a backslash is allowed, and packing it fails |
| EvidenceBundle.Fill | tools/evidence_bundle.py:120-126 | creating the files of accepted records never meets an obstacle, in any order, and leaves exactly those files and their parents |
| EvidenceBundle.Extract | tools/evidence_bundle.py:117-127 | a rejected bundle or an existing target creates nothing; an accepted bundle is extracted completely |
| EvidenceStreams.FileMapIs | tools/evidence_bundle.py:121-126 | the files extracted are the recorded paths, each with its permission bits and its bytes |
| EvidenceStreams.TotalBytesAdd | tools/evidence_bundle.py:108-113 | the size of a list of files is that of its parts, and of one file its number of bytes |
| EvidenceBundle.PackThenExtract | tools/evidence_bundle.py:27-127 | packing and extracting recreates exactly the selected files, with their permission bits and bytes |
| SourceStaging.SourceFiles | tools/compiler_sources.py:9-22 | a root is accepted if and only if it is a directory without links, and gives its production sources in order |
| StagedSources.SourcesExact | tools/compiler_sources.py:13-22 | the sources of a root are the entries that are files, named with .trb after a stem and not with _test.trb, outside testing and tests, each once, in order, with their contents |
| SourceStaging.AddSources | tools/compiler_sources.py:34-47 | the selection stays prefix-free and the directories stay the set of all its ancestors; a root is refused if and only if one of its sources conflicts with the selection or the destination |
| SourceStaging.StageSources | tools/compiler_sources.py:30-53 | staging fails exactly when the roots cannot be staged, and then changes nothing; otherwise every copy succeeds |
| SourceStaging.CopySafe | tools/compiler_sources.py:49-52 | after any number of copies the next one has nothing at its path and only directories above it |
| StagedSources.AllSourcesExact | tools/compiler_sources.py:34-47 | the sources of all roots are such entries of each root, root by root and in order |
| StagedSources.StageableExact | tools/compiler_sources.py:30-47 | roots can be staged if and only if they are directories without links, the production files at any two places have paths apart from one another, and the destination has room for each |
| StagedSources.StagedIsUnion | tools/compiler_sources.py:30-53 | the result is the old tree unchanged, every production file of every root with its content, and the directories above these, and nothing else |
| DecimalPowers.PairExact | tools/float-decimal-powers.py:21-35 | for any power and its true binary exponent, high times 2^64 less low is the scaled power rounded up, low is a word and high lies between 2^63 and 2^64 |
| DecimalPowers.PairUnique | tools/float-decimal-powers.py:31-33 | no other pair represents the rounded power with a word for low |
| DecimalPowers.ExponentExact | tools/float-decimal-powers.py:24-25 | the fixed-point formula is the true binary exponent for every power up to 642 in magnitude, the registered range included |
| DecimalPowers.ExponentFailsBeyond | tools/float-decimal-powers.py:24-25 | the formula is wrong at 643 and at -643 |
| DecimalPowers.PairFits | tools/float-decimal-powers.py:34-35 | the assertion that both words fit holds for every power up to 642 in magnitude |
| DecimalPowers.RowsReadBack | tools/float-decimal-powers.py:38-51 | reading the signed words of a generated table back gives, for each power, its exact normalised pair |
| DecimalPowers.GeneratedReads | tools/float-decimal-powers.py:42-44 | each row of the generated data, read as unsigned words, is the pair of its power |
| DiagnosticRanges.Scan | tools/json-diagnostic-data.py:20-27 | the scan with a sentinel yields ordered, maximal, non-adjacent ranges of exactly the code points that satisfy the predicate, and sets its bit for exactly those |
| DiagnosticRanges.RangesUnique | tools/json-diagnostic-data.py:20-27 | there is only one such list of ranges for a predicate |
| DiagnosticTable.EncodingReads | tools/json-diagnostic-data.py:39-48 | ordered ranges encode to twelve characters each and decode to the same list |
| DiagnosticTable.RenderTable | tools/json-diagnostic-data.py:38-47 | rendering a table succeeds if and only if its ranges are ordered, and marks exactly the code points they cover |
| DiagnosticTable.Render | tools/json-diagnostic-data.py:33-51 | rendering succeeds if and only if both tables are ordered and their expansion has the exported digest, and gives the block of the two encoded tables; GeneratedData says what that block returns |
| GeneratedData.BlockReads | tools/json-diagnostic-data.py:34-51 | in the text of a block the function named after printable runes returns the first table, and the one named after white space the second |
| GeneratedData.Regenerate | tools/json-diagnostic-data.py:14-51 | exporting and rendering two predicates succeeds if and only if each holds somewhere, and the functions of the rendered text return tables that decode to the maximal ranges of the first and of the second predicate |
| GeneratedData.RegenerateFile | tools/json-diagnostic-data.py:54-82 | a whole run succeeds if and only if, besides, the first begin marker of the file, if there is one, has an end marker after it; the functions in the updated file return those tables |
| GeneratedData.NowhereFails | tools/json-diagnostic-data.py:14-51 | a predicate that holds nowhere cannot be regenerated |
| GeneratedData.RerunChangesNothing | tools/json-diagnostic-data.py:65-79 | running the tool again on its own output leaves the file as it is |
| MarkerSplice.LastWriteWins | tools/json-diagnostic-data.py:68-79 | a second update leaves no trace of the first, whether that replaced or appended |
| MarkerSplice.ReplacementKeepsOutside | tools/json-diagnostic-data.py:69-72 | when the first begin marker starts at one position and the first end marker after it at another, updating puts the block in place of everything from the one to the end of the other, and keeps the text before and after |
| MarkerSplice.AppendKeepsText | tools/json-diagnostic-data.py:73-74 | an appended block follows all of the text but its trailing white space |
| MarkerSplice.UpdateFails | tools/json-diagnostic-data.py:69-71 | updating fails if and only if the first occurrence of the begin marker has no occurrence of the end marker anywhere after it |
| JsonRoundTrip.LoadPrinted | tools/compatibility_manifest.py:30-36 | loading printed text gives the document with its surrogate pairs joined (section 7 of RFC 8259) |
| JsonRoundTrip.PrintInjective | tools/compatibility_manifest.py:99-100 | two documents print alike if and only if they are the same up to joining surrogate pairs |
| JsonRoundTrip.DecodedPrintInjective | tools/compatibility_manifest.py:99-100 | on decoded documents printing is injective outright, and loading undoes it |
| CanonicalJson.DumpsInjective | tools/compatibility_manifest.py:99-100 | canonical encodings of documents are equal if and only if the documents are the same, leaf by leaf, at any depth and in any member order |
| UniqueValues.EncodingExact | tools/compatibility_manifest.py:99-100 | canonical encodings of loaded values are equal if and only if the values are equal, numbers by amount, with numbers of the same kinds at every leaf |
| UniqueValues.LoadedUniqueItems | tools/compatibility_manifest.py:94-102 | for an array in any strictly loaded text, the length test rejects exactly the arrays with two items equal with numbers of the same kinds; as a corollary, it is right about equal items if and only if equal items, where there are any, include two with numbers of the same kinds |
| UniqueValues.WholeAndFloatAccepted | tools/compatibility_manifest.py:99-102 | the array of 1 and 1.0 has equal items and passes |
| UniqueValues.WholeAndTruthAccepted | tools/compatibility_manifest.py:99-102 | the array of 1 and true has equal items and passes |
| UniqueValues.ZerosAccepted | tools/compatibility_manifest.py:99-102 | the array of 0.0 and -0.0 has equal items and passes |
| UniqueValues.SpellingsRejected | tools/compatibility_manifest.py:99-102 | the array of 1.0 and 1.00 is loaded as one item twice and is rejected |
| Numbers.SoundFloats | tools/compatibility_manifest.py:30-36 | what is asked of reading and printing floats is consistent: floats that keep whole numbers only meet it |
| CanonicalJson.SeparateSurrogatesCollide | tools/compatibility_manifest.py:99-102 | a pair of lone surrogates and the code point they stand for differ but encode alike |
| CanonicalJson.RejectDuplicateMembers | tools/compatibility_manifest.py:21-27 | the hook gives the dictionary of the members, or the first key that came a second time |
| SnapshotCounts.CheckCounts | tools/bootstrap_snapshot_size.py:32-49 | the loop over the three fields counts them within their limits, or gives the first rejection |
| SnapshotCounts.CatalogAgrees | tools/bootstrap_snapshot_size.py:32-57 | for every document the discarding decoder leads to the same counts or the same rejection as the full decoder |
| SnapshotCounts.CountsSound | tools/bootstrap_snapshot_size.py:32-49 | success means a version 4 snapshot whose three catalogs are lists within their limits, counted exactly |
| SnapshotCounts.CountsExact | tools/bootstrap_snapshot_size.py:32-49 | a document is counted if and only if its format and version are those of a snapshot and its sources, types and functions are lists within their limits; otherwise the first of these that fails is reported |
| SnapshotCounts.EntriesLast | tools/bootstrap_snapshot_size.py:52-57 | of members with one key the last one counts, in both decoders |
| SnapshotCounts.CatalogKeepsOnlyFormats | tools/bootstrap_snapshot_size.py:52-57 | at any depth, only objects with a format member survive the discarding decoder |
| ReferenceBlocks.Window | tools/compatibility_manifest.py:189-194 | the two loops find the maximal run of blank or at least as indented lines around a line |
| ReferenceBlocks.WindowUnique | tools/compatibility_manifest.py:189-194 | there is only one such run |
| ReferenceBlocks.ReferencesFor | tools/compatibility_manifest.py:184-201 | the scan gives the refs of the checkouts, or is refused at the first that has not exactly one |
| ReferenceBlocks.ReferencesExact | tools/compatibility_manifest.py:178-201 | a scan succeeds with one value for each checkout, in order, if and only if each is the only ref at the same indentation in the block of its checkout |
| ReferenceBlocks.ReferenceRefs | tools/compatibility_manifest.py:178-201 | from the text of a workflow, the scan gives one value for each checkout of the reference repository, in order, each the only ref at the same indentation in the block of its checkout, or is refused when there are no such values |
| TextLines.SourceLinesExact | tools/compatibility_manifest.py:184-184 | the lines of a text have no newline in them, and closed by newlines are the text, but for one that its last line may have lacked |
| ReferenceBlocks.SitesExact | tools/compatibility_manifest.py:185-188 | the checkouts are exactly the lines that name the reference repository, in order |
| ReferenceBlocks.RefReads | tools/compatibility_manifest.py:195-196 | a ref at an indentation reads back as its value, without the spaces around it |
| WorkflowLines.RefExact | tools/compatibility_manifest.py:196-197 | a line gives a ref at an indentation if and only if it is that many spaces, "ref:", and the ref between spaces |
| WorkflowLines.CheckoutExact | tools/compatibility_manifest.py:186-190 | a line is a checkout of an indentation if and only if it is that many spaces, at least one, "repository:", spaces, the name of the repository, perhaps with a quotation mark before it or after it, spaces, and perhaps a comment |
| TextLines.IndentExact | tools/compatibility_manifest.py:192-194 | the indentation of a line is all of its leading white space |
| ReferenceBlocks.BlocksSameOrApart | tools/compatibility_manifest.py:188-194 | the blocks of two checkouts of one indentation are the same or do not meet |
| HeaderReading.ReadImportExact | tools/compiler_layout.py:39-39 | the module read from a line is the one with which the line falls into the parts of the import pattern, and there is none when the line does not match it |
| HeaderReading.ReadHeader | tools/compiler_layout.py:42-54 | the loop over the lines reads the header as specified |
| HeaderReading.HeaderExact | tools/compiler_layout.py:42-54 | a header is read if and only if every import line before the first other line can be, and gives the imports of exactly those lines, each once, in order, with their line numbers |
| HeaderReading.TargetIs | tools/compiler_layout.py:39-53 | the target of an import is its module, as the parts between slashes |
| HeaderReading.RegistersIs | tools/compiler_layout.py:108-111 | an import registers cases if and only if "describe" or "test" stands as a whole word before its first " from " |
| LayoutRules.CheckLayout | tools/compiler_layout.py:42-129 | the check as it runs, from the texts of the sources, reports the issues of Check and counts modules and explicit imports |
| LayoutReports.CheckReports | tools/compiler_layout.py:65-129 | an issue is reported if and only if a file deserves it (a link, a repeated name, no responsible group, a helper among tests), there is no entry, or a module does (no owner, an unreadable header, an import against a rule, with its line) |
| LayoutReports.DirectoryGroupExact | tools/compiler_layout.py:12-29 | the group of a directory is the one in the table of directories, and a directory outside the table is none |
| LayoutReports.GroupExact | tools/compiler_layout.py:81-88 | the group of a module follows from its first directory, its area, its name at the root, or else its directory |
| LayoutReports.DiscoverExact | tools/compiler_layout.py:69-91 | the modules are the files that are no links and whose name no earlier such file has, in order |
| LayoutReports.EdgesCounted | tools/compiler_layout.py:95-116 | the imports counted are all those of readable headers that are not of the library |
| LayoutRules.HasOwnerExact | tools/compiler_layout.py:57-62 | a unit test names an owner if and only if some file of its directory that is no test has its name up to "_test", or up to an underscore before that |
| LayoutIsolation.CheckClean | tools/compiler_layout.py:65-129 | the check is silent if and only if every file is a module under a name of its own, the entry is there and every import of every module keeps the rules |
| LayoutIsolation.ProductionIsolated | tools/compiler_layout.py:103-127 | when the check is silent, no chain of imports from a production module reaches a test, a testing helper or the test library, and none from the core reaches the CLI area |
| LayoutIsolation.CoreStaysWithin | tools/compiler_layout.py:12-127 | a chain from core production stays in core production, within the closure of its group: support reaches only support, and only the backend reaches the backend |
| LayoutIsolation.ClosureReached | tools/compiler_layout.py:12-38 | every group in that closure is reached by steps that the groups and exceptions allow |
| RecoveryRules.RecoveryIssues | tools/compiler_layout.py:132-174 | the recovery check as it runs, from the texts of the sources, reports the issues of CheckRecovery |
| RecoveryReports.RecoveryReported | tools/compiler_layout.py:132-174 | an issue is reported if and only if some file deserves it, for its place, its header or an import with its line |
| RecoveryRules.RecoveryClean | tools/compiler_layout.py:132-174 | the recovery check is silent if and only if every file keeps every rule |
| RecoveryRules.RecoveryIsolated | tools/compiler_layout.py:132-174 | no chain of imports from recovery production reaches a test, a testing helper or the test library |
| UnitRuns.RunFile | tools/complete_compiler_units.py:66-102 | one run reads its output line by line, up to a malformed event, and reports the problems of RunOf |
| UnitAccounts.EventsExact | tools/complete_compiler_units.py:68-78 | the events read are those of the lines before the first malformed one, each once, in order; lines that are not JSON are passed over |
| UnitAccounts.KindExact | tools/complete_compiler_units.py:79-82 | the events of a kind are exactly those, each once, in order |
| UnitAccounts.ProblemsExact | tools/complete_compiler_units.py:58-102 | a run reports that it timed out, that its names cannot be compared, or exactly the problems that its events have |
| UnitAccounts.CleanExactly | tools/complete_compiler_units.py:66-102 | a run has no problem if and only if the process ended well, no line is malformed, no line reports a failure, the lines that report tests started and those that report tests passed have the same names, each once on either side, from the file that ran, and the one summary line counts the tests passed |
| UnitRuns.RunAll | tools/complete_compiler_units.py:125-157 | whatever order the runs complete in, the verdict is the one on all runs in task order |
| UnitAccounts.PassMeans | tools/complete_compiler_units.py:148-157 | the verdict passes if and only if every file accounts for its tests in this sense and no line of one file reports a test passed under the name of one of another file |
| UnitAccounts.TotalsAgree | tools/complete_compiler_units.py:80-87 | when all files account for their tests, as many are counted as their summary lines announce together |

## Left out

- Line breaks other than the newline (carriage returns and the Unicode separators that Python's splitting also honours).
- Letters beyond ASCII at word boundaries when a name is searched for in a function body.
- Case folding, symbolic link resolution and permissions of real file systems: links are marked as such, and a directory
  whose name ends like a source does not occur.
- Writing and removing may fail half way for reasons of input and output; the model of applying a plan does not.
- Pathological manifests: duplicate keys are resolved before the manifest is a dictionary.
- The replacement of paths in listed consumers (tools/migrate_compiler_layout.py:184-199): plain textual substitution.
- The order in which several faults of one stage are reported when planning: a refusal names its stage, not its file.
- gzip framing is the identity and SHA-256 a parameter whose results are sixty-four hexadecimal digits.
- Leftover bits in the last base64 group are ignored by the decoder, as Python's does; only what encoding produces matters.
- File names that cannot be decoded.
- The state of the output after a failed verification while packing: the code leaves the rejected bundle in place.
- Which double is nearest to a decimal spelling: reading and printing floats are parameters with their round trip, exact
  on small whole numbers. Python's limits on nesting and on the digits of an integer.
- Python's inequality of not-a-number with itself: two items read from NaN are one object to the decoder and count as equal,
  as in a comparison of lists.
- The other keywords of schema validation, and repository value checks: comparisons with constants.
- The search for a limit in the decoder source: the limits are a parameter.
- The order in which unit files are queued, timing, temporary directories and the output of a run.
- Rendering, argument parsing, subprocesses and everything that the native tests exercise.
- ImportBindings.BindingsMove: what a binding means to the compiler is not modelled, only which member of which module it names.
- MovedBindings.MovedMeaning: a name is a whole word of a function's text; parameters and local variables that hide an import are not told apart from it.
- ImportResolution.StillResolves: only functions are declarations; types and constants that a module offers are not. For manifests whose targets do not stand, MigrationLinks.ImportLeads says which file an import leads to.
