# rust_writer in Dafny

This project models two parts of the `rust_writer` workspace and proves properties of them.

**The source-preserving line transform** (`rust_writer/src/preserver.rs`,
`rust_writer/src/preserver/types.rs`). `apply_preservers` makes one forward pass over the
lines of a Rust file.

- It keeps a tally of `{ } ( ) [ ]` in a `DelimitersCount` of six `u8` counters.
- A line is kept verbatim when its left-trimmed text starts with the lookup of some
  `Preserver`. The first such preserver in list order is used.
- A preserver with an inner preserver also keeps the lines after it, until the tally
  balances again. Those lines are transformed recursively, with only the inner preserver.
- Every other line becomes a `///TEMP_DOC` doc comment, or a `type temp_marker = ();` anchor,
  or stays as it is. Which one depends on whether the tally is complete and on what the line
  is.

In the model:

- `Preserver` is a class over a linked chain of nodes. Its ghost `Chain` is the list of
  lookups from the node down.
- `DelimitersCount` is a class over an `array<u8>`.
- `ApplyPreservers` is an imperative method with the source's loops. It is proved equal to
  the specification function `Preservation.Apply`.
- The properties of the transform are lemmas about `Apply` (module `PreservationFacts`).

**The struct-layout bookkeeping of the `#[finder]`/`#[mutator]` macros.** This covers two
crates: the proc-macro crate `rust_writer_proc` and its variant `rust_writer_procedural`.
The `syn` syntax tree is abstracted to a few datatypes (module `Syntax`): paths of segments,
generic parameters, attributes and fields. `ItemStruct` is a class, because the macros edit
it in place.

The model covers:

- naming each implementor's field: the lowercased last segment, numbered for repeats;
- rewriting the implementor paths and collecting the generic parameters they introduce;
- the crate-specific ways these generics reach the struct;
- the attribute parser and `validate_struct`;
- the index ranges and the new fields of `MacroFinderMutatorParsed::try_from`;
- the struct edits of `expand_finder`;
- the runtime behaviour of the generated finder wrapper (its `found` flags, `find` and
  `get_missing_indexes`) and of the generated local finder (`find` and `finder_reset`).

Each explicit loop of the source is a `method` with a loop (`while` or `for`). It is
proved against a specification function, and the promised properties are lemmas about that
function. The iterator pipelines of the source (`filter_map`, `zip`, `position`) are
functions.

Integer conventions:

- Counters are `u8`. `+=` is modelled wrapping, as in a release build.
- Indexes are unbounded naturals.

## Model

| member | source | states |
|---|---|---|
| PreserverTypes.Preserver.constructor | rust_writer/src/preserver/types.rs:13-15 | a new preserver has the given lookup, no inner, and the one-element chain |
| PreserverTypes.Preserver.AddInners | rust_writer/src/preserver/types.rs:17-23 | a non-empty list makes the chain the lookup followed by the list, replacing any earlier chain, with no inner below the last; an empty list changes nothing |
| PreserverTypes.Preserver.Lookup | rust_writer/src/preserver/types.rs:25-27 | the lookup is the head of the chain |
| PreserverTypes.Preserver.TakeInner | rust_writer/src/preserver/types.rs:29-31 | returns the former inner, which holds the rest of the chain, and leaves the preserver with no inner and the same lookup |
| PreserverTypes.Preserver.GetInner | rust_writer/src/preserver.rs:234 | the inner is absent exactly when the chain has one lookup; otherwise it is a valid preserver whose chain is the rest |
| PreserverTypes.DelimitersCount.constructor | rust_writer/src/preserver/types.rs:40-42 | a new tally is all zero and complete |
| PreserverTypes.DelimitersCount.IsComplete | rust_writer/src/preserver/types.rs:44-48 | complete exactly when the brace, parenthesis and bracket counters are pairwise equal |
| PreserverTypes.DelimitersCount.Count | rust_writer/src/preserver/types.rs:50-57 | each of the six counters grows by the occurrences of its delimiter in the line, modulo 256 |
| PreserverTypes.CountedExact | rust_writer/src/preserver/types.rs:50-57 | when no counter passes 255, each grows by exactly the number of occurrences |
| PreserverTypes.BalancedLineKeepsComplete | rust_writer/src/preserver/types.rs:44-57 | counting a balanced line keeps a complete tally complete |
| PreserverTypes.CompleteAfterLineMeansLineBalanced | rust_writer/src/preserver/types.rs:44-57 | conversely, within the `u8` range, a complete tally stays complete only after a balanced line |
| Preservation.PositionSpec | rust_writer/src/preserver.rs:226-229 | the selected preserver is the first, in list order, whose lookup starts the trimmed line; none is selected when no lookup does |
| Preservation.FindPreserver | rust_writer/src/preserver.rs:226-229 | the loop returns the first matching index, or the list length when nothing matches |
| Preservation.ApplyPreservers | rust_writer/src/preserver.rs:214-279 | the imperative transform produces exactly `Apply(code, chains)` for the chains of the preservers |
| Preservation.PreserveLine | rust_writer/src/preserver.rs:224-273 | one turn of the outer loop emits the pieces that `Scan` gives for its lines, and leaves the tally and cursor where `Scan` continues |
| Preservation.PreserveSelected | rust_writer/src/preserver.rs:230-250 | the matched branch, with or without an inner block, agrees with `Scan` |
| Preservation.PreserveBlock | rust_writer/src/preserver.rs:236-250 | the inner `for` agrees with the block semantics `Collect` |
| Preservation.GatherBlock | rust_writer/src/preserver.rs:237-250 | the tally counts exactly the lines consumed; a closed block stops at the first line that completes the tally, and its text is the earlier lines joined with newlines; an unclosed block runs to the end of the input |
| Preservation.CloseBlock | rust_writer/src/preserver.rs:241-245 | a closed block emits the transform of its lines with only the inner chain, then the closing line |
| Preservation.BlockPreserved | rust_writer/src/preserver.rs:236-248 | a block that closes at line j is transformed with the inner chain alone, followed by line j verbatim, and the outer pass resumes after it with the tally at that point |
| Preservation.UnclosedBlockDropped | rust_writer/src/preserver.rs:237-250 | when the tally never completes, the collected lines produce no output |
| PreservationFacts.ApplyEndsWithMarker | rust_writer/src/preserver.rs:276-278 | the output always ends with `type temp_marker = ();\n` |
| PreservationFacts.ApplyEmpty | rust_writer/src/preserver.rs:276-278 | the empty input yields exactly the terminator |
| PreservationFacts.ScanWithoutPreservers | rust_writer/src/preserver.rs:252-253 | with no preservers, every line becomes its `///TEMP_DOC` placeholder, whatever the starting tally |
| PreservationFacts.ApplyWithoutPreservers | rust_writer/src/preserver.rs:224-278 | with no preservers the output is each line as `///TEMP_DOC` + line + newline, in order, then the terminator |
| PreservationFacts.FirstMatchIsPosition | rust_writer/src/preserver.rs:226-229 | when lookup k starts the line and no earlier one does, preserver k is selected |
| PreservationFacts.SelectedLineKept | rust_writer/src/preserver.rs:225-236 | a selected line is emitted verbatim and its delimiters are counted; with an inner chain, the following lines go to the block |
| PreservationFacts.UnselectedLineWhileComplete | rust_writer/src/preserver.rs:252-253 | an unmatched line while the tally is complete becomes a placeholder and leaves the tally unchanged |
| PreservationFacts.UnselectedLineWhileOpen | rust_writer/src/preserver.rs:254-273 | an unmatched line while the tally is open is emitted by the unbalanced rule, and then its delimiters are counted |
| PreservationFacts.UnbalancedText | rust_writer/src/preserver.rs:255-270 | the unbalanced rule: a plain `//` comment or `#![` line becomes a placeholder and anchor, a blank line an empty placeholder and anchor, anything else itself and a newline |
| PreservationFacts.BlankMeansWhitespace | rust_writer/src/preserver.rs:264-266 | a line is blank after trimming exactly when it is all whitespace |
| PreservationFacts.ApplyOfGathered | rust_writer/src/preserver.rs:242-248 | transforming lines joined with newlines is scanning those lines, with one trailing carriage return removed from each, from a zero tally |
| Text.LinesNoNewline | rust_writer/src/preserver.rs:217 | no line that `lines` produces contains a newline |
| Text.LinesOfUnlines | rust_writer/src/preserver.rs:242-248 | re-splitting lines that were joined with newlines gives them back, each without a trailing carriage return |
| Text.TrimStartSpec | rust_writer/src/preserver.rs:225 | the trimmed line is a suffix of the line that starts with no whitespace, and only whitespace was removed |
| Syntax.WithoutImplFromSpec | rust_writer_procedural/src/helpers.rs:9-16 | the kept attributes are exactly those that are not `impl_from` |
| Syntax.WithoutImplFromIdempotent | rust_writer_proc/src/helpers.rs:12-19 | removing `impl_from` a second time changes nothing |
| Syntax.WithoutImplFromAppend | rust_writer_proc/src/helpers.rs:12-19 | the filter keeps the relative order of the attributes it keeps |
| Syntax.WithoutImplFromUnchanged | rust_writer_proc/src/helpers.rs:12-19 | a struct without `impl_from` keeps its attributes unchanged |
| Syntax.IdentNameInjective | rust_writer_proc/src/helpers.rs:62-69 | one base name with different repeat counts gives different identifiers |
| ProcHelpers.RemoveImplFromAttr | rust_writer_proc/src/helpers.rs:12-19 | the struct's attributes become the non-`impl_from` ones, and nothing else of the struct changes |
| ProcHelpers.RewriteArguments | rust_writer_proc/src/helpers.rs:71-108 | the loop over the last segment's arguments builds `RewriteArgs` and introduces what `IntroduceAll` introduces |
| ProcHelpers.RewriteImplementor | rust_writer_proc/src/helpers.rs:44-109 | one implementor's path is rewritten in its last segment only, and its arguments are considered for introduction |
| ProcHelpers.ResolveImplementorsForStruct | rust_writer_proc/src/helpers.rs:30-120 | the loop computes `ResolveAll` of the implementors against the struct's generics, and only reads the struct |
| ProcHelpers.AddNewImplementorsGenerics | rust_writer_proc/src/helpers.rs:122-129 | the struct's generics become the added lifetimes reversed, then the old ones, then the other added parameters in order |
| ProcResolveFacts.ResolvePaths | rust_writer_proc/src/helpers.rs:41-112 | one rewritten path per implementor, in input order |
| ProcHelpers.RewrittenSpec | rust_writer_proc/src/helpers.rs:71-112 | the list of rewritten paths holds each implementor's rewritten path at its position |
| ProcResolveFacts.ResolveIdents | rust_writer_proc/src/helpers.rs:44-69 | one identifier per implementor, in order: its lowercased last segment, numbered by how many earlier *rewritten* paths end in its last segment as written |
| ProcResolveFacts.DistinctNamesBare | rust_writer_proc/src/helpers.rs:44-69 | implementors whose last segments have pairwise different identifiers each get the bare lowercased identifier |
| ProcResolveFacts.FixedPathsAgree | rust_writer_proc/src/helpers.rs:49-60 | when rewriting changes no implementor path, the identifiers are those of the intended numbering |
| ProcResolveFacts.RewriteArgsShape | rust_writer_proc/src/helpers.rs:76-108 | in the rewritten arguments the lifetimes come first, reversed, then the type arguments reduced to their identifiers, in order |
| ProcResolveFacts.IntroduceAllSpec | rust_writer_proc/src/helpers.rs:81-102 | a parameter is introduced exactly when it was already introduced, or when it is a candidate that the struct does not declare |
| ProcResolveFacts.IntroducedAreFirstUndeclared | rust_writer_proc/src/helpers.rs:81-102 | the introduced generics are the undeclared candidates in order of first appearance |
| ProcResolveFacts.ResolveIntroduced | rust_writer_proc/src/helpers.rs:71-109 | the introduced generics come from the arguments of all last segments, taken in order |
| ProcResolveFacts.IntroducedGenerics | rust_writer_proc/src/helpers.rs:81-102 | no introduced generic appears twice or is declared by the struct, and every undeclared argument of an implementor is introduced |
| ProcResolveFacts.AsWrittenRepeatsCollide | rust_writer_proc/src/helpers.rs:51-60 | as written, two repeats of `Alpha<'a, 'b>` are both named `alpha` |
| ProcResolveFacts.IntendedIdentsSpec | rust_writer_proc/src/helpers.rs:51-69 | intended numbering (finding): each identifier counts the earlier implementors, as given, ending in the same segment |
| ProcResolveFacts.RepeatsNumberedApart | rust_writer_proc/src/helpers.rs:49-69 | intended numbering (finding): two implementors ending in the same segment get different identifiers |
| ProcResolveFacts.FirstOccurrenceBare | rust_writer_proc/src/helpers.rs:62-69 | intended numbering (finding): the first implementor ending in a segment gets the bare lowercased name |
| ProcResolveFacts.CorrectedRepeatsApart | rust_writer_proc/src/helpers.rs:51-69 | intended numbering (finding): the same input gives `alpha` and `alpha_1` |
| ProceduralHelpers.AddImplementorGenerics | rust_writer_procedural/src/helpers.rs:62-93 | the loop builds the rewritten arguments; an uncovered lifetime is placed at the front of the struct's generics and an uncovered type at the back |
| ProceduralHelpers.RewriteImplementor | rust_writer_procedural/src/helpers.rs:62-94 | the path is rewritten as in the other crate, and the struct's generics grow by its arguments |
| ProceduralHelpers.ResolveImplementorsForStruct | rust_writer_procedural/src/helpers.rs:27-114 | the loop computes `ResolveAll` from the struct's old generics and its fields, and leaves the struct's generics as the result says |
| ProceduralResolveFacts.AddArgsSpec | rust_writer_procedural/src/helpers.rs:70-88 | adding arguments keeps every parameter, adds only arguments, and leaves every argument covered |
| ProceduralResolveFacts.AddArgsShape | rust_writer_procedural/src/helpers.rs:70-88 | the struct's parameters stay together and in order, with the added lifetimes in front and everything else added behind |
| ProceduralResolveFacts.ResolveGenerics | rust_writer_procedural/src/helpers.rs:62-94 | the struct's generics end up extended by the arguments of every last segment, in order |
| ProceduralResolveFacts.StructGenerics | rust_writer_procedural/src/helpers.rs:70-88 | every argument of every implementor is covered by the struct's generics afterwards |
| ProceduralResolveFacts.ResolveKeepsParams | rust_writer_procedural/src/helpers.rs:70-88 | the struct keeps all its parameters in one block, between the added lifetimes and the other added parameters |
| ProceduralResolveFacts.ResolveIdents | rust_writer_procedural/src/helpers.rs:44-60 | one identifier per implementor, in input order: the lowercased name, numbered by how many earlier *identifiers* equal that bare name |
| ProceduralResolveFacts.IdentsIgnoreStruct | rust_writer_procedural/src/helpers.rs:44-60 | the identifiers depend only on the implementors, not on the struct's generics or fields |
| ProceduralResolveFacts.DistinctNamesBare | rust_writer_procedural/src/helpers.rs:44-60 | implementors with pairwise different lowercased names each get that bare name |
| ProceduralResolveFacts.KeptSpec | rust_writer_procedural/src/helpers.rs:96-110 | the implementors kept as new are exactly, in ascending order, those whose identifier names no field of the struct |
| ProceduralResolveFacts.ResolveNewFields | rust_writer_procedural/src/helpers.rs:96-110 | the new identifiers and new paths are aligned and equally long, and are exactly the kept implementors' identifiers and rewritten paths |
| ProceduralResolveFacts.AsWrittenThirdRepeatCollides | rust_writer_procedural/src/helpers.rs:48-51 | as written, three repeats of `Bar` are named `bar`, `bar_1`, `bar_1` |
| ProceduralResolveFacts.IntendedIdentsSpec | rust_writer_procedural/src/helpers.rs:44-60 | intended numbering (finding): each identifier counts the earlier implementors of the same lowercased name |
| ProceduralResolveFacts.RepeatsNumberedApart | rust_writer_procedural/src/helpers.rs:44-60 | intended numbering (finding): implementors with the same lowercased name get different identifiers |
| ProceduralResolveFacts.FirstOccurrenceBare | rust_writer_procedural/src/helpers.rs:44-60 | intended numbering (finding): the first implementor of a name gets the bare name |
| ProceduralResolveFacts.CorrectedThirdRepeatApart | rust_writer_procedural/src/helpers.rs:44-60 | intended numbering (finding): the three repeats are named `bar`, `bar_1`, `bar_2` |
| ParseAttrs.ParseMacroAttr | rust_writer_procedural/src/parse/parse_attrs.rs:26-41 | an entry parses exactly when it has a path; it is local exactly when it starts with `local =`; otherwise the error is `MACRO_ATTR_PARSE_ERR`, or the path's own syntax error after `local =` |
| ParseAttrs.ParseEachSpec | rust_writer_procedural/src/parse/parse_attrs.rs:46-55 | the list parses exactly when every entry does, giving one attribute per entry in order; otherwise the error is that of the first failing entry |
| ParseAttrs.ParseMacroAttrs | rust_writer_procedural/src/parse/parse_attrs.rs:46-55 | the attribute list is accepted exactly when every entry parses and there are at least two, and then it is the parsed list; fewer than two valid entries give "Expected at least two implementors." |
| ParseAttrs.ValidateStruct | rust_writer_procedural/src/parse/parse_attrs.rs:80-162 | an accepted struct is reported as expanded exactly when it carries `#[already_expanded]`, and as needing `From` exactly when it carries `#[impl_from]` and is not expanded; a rejection is one of the three struct messages |
| ParseAttrs.LocalIffMarked | rust_writer_procedural/src/parse/parse_attrs.rs:26-55 | in an accepted list, entry i is a local implementor exactly when it starts with `local =`, and it keeps its path |
| ParseAttrs.InnerAttrParse | rust_writer_procedural/src/parse/parse_attrs.rs:67-75 | the pair is (already expanded, needs `From`), set exactly for those two variants and never both |
| ParseAttrs.UnitAlreadyExpandedRejected | rust_writer_procedural/src/parse/parse_attrs.rs:81-94 | a unit struct with any of the three `already_expanded` spellings is rejected |
| ParseAttrs.NotExpandedAccepted | rust_writer_procedural/src/parse/parse_attrs.rs:88-156 | without `already_expanded`, unit and named structs are accepted, asking for `From` exactly when `#[impl_from]` is present |
| ParseAttrs.TupleStructRejected | rust_writer_procedural/src/parse/parse_attrs.rs:157-160 | a tuple struct is rejected with "Expected unit struct or named-field struct." |
| ParseAttrs.ExpandedNamedChecked | rust_writer_procedural/src/parse/parse_attrs.rs:97-154 | an already expanded named struct is recognised exactly when its field paths, from the first one equal to the first stripped implementor, are the stripped implementors; otherwise the error is `COMBINED_MACROS_MSG` |
| ParseAttrs.CombinationChecked | rust_writer_procedural/src/parse/parse_attrs.rs:147-153 | the comparison succeeds exactly when the values from the first match on equal the expected list |
| ParseAttrs.Position | rust_writer_procedural/src/parse/parse_attrs.rs:147 | `position` finds the first index holding the value, or none when no index does |
| ParseAttrs.ExpandedStructRecognised | rust_writer_procedural/src/parse/parse_attrs.rs:147-151 | a struct whose fields end, from the first match, with exactly the stripped implementors is accepted as expanded |
| ParseAttrs.NonPathFieldsNeverMatch | rust_writer_procedural/src/parse/parse_attrs.rs:105-113 | in an accepted struct, no field whose type is not a path lies in the matched suffix |
| ParseAttrs.FieldPaths | rust_writer_procedural/src/parse/parse_attrs.rs:105-113 | one path per field, in order |
| ParseAttrs.StripPath | rust_writer_procedural/src/parse/parse_attrs.rs:122-144 | the path keeps all segments but the last, and the last keeps its identifier |
| ParseAttrs.StripConstraintsInPlace | rust_writer_procedural/src/parse/parse_attrs.rs:131-141 | the in-place loop replaces each constrained argument by its identifier and leaves each other one |
| ParseAttrs.StripKeepsLifetimes | rust_writer_procedural/src/parse/parse_attrs.rs:134-140 | stripping keeps the lifetimes where they are |
| ParseAttrs.ReorderedLifetimesNotRecognised | rust_writer_procedural/src/parse/parse_attrs.rs:147-153 | the comparison keeps lifetimes in their written order: a field `Pair<'b, 'a>` does not match the implementor `Pair<'a, 'b>` |
| MacroParse.SplitSpec | rust_writer_proc/src/parse/parse_mutator_finder_macros.rs:31-53 | every implementor is either a crate or a local one, and both lists hold valid implementors |
| MacroParse.SplitMembers | rust_writer_proc/src/parse/parse_mutator_finder_macros.rs:31-53 | a path is a crate path exactly when a crate implementor has it, and likewise for local paths |
| MacroParse.Range | rust_writer_proc/src/parse/parse_mutator_finder_macros.rs:61-67 | the range holds lo, lo + 1, ... up to hi, exclusive |
| MacroParse.RangesPartition | rust_writer_proc/src/parse/parse_mutator_finder_macros.rs:61-67 | the crate range and then the local range are all the indexes below the count, each exactly once |
| MacroParse.ZipFields | rust_writer_proc/src/parse/parse_mutator_finder_macros.rs:72-86 | one field per pair of name and path, as far as both lists go |
| MacroParse.PushFields | rust_writer_proc/src/parse/parse_mutator_finder_macros.rs:80-85 | the loop appends exactly the zipped fields |
| ProcParse.AssembleParts | rust_writer_proc/src/parse/parse_mutator_finder_macros.rs:55-86 | the loop builds the indexes, the introduced generics and the new fields of `Assemble` |
| ProcParse.TryFrom | rust_writer_proc/src/parse/parse_mutator_finder_macros.rs:28-101 | `try_from` yields `TryFromSpec` and only reads the struct |
| ProcParse.ValidationDecides | rust_writer_proc/src/parse/parse_mutator_finder_macros.rs:29 | `try_from` fails exactly when validation does, with the same error, and otherwise carries the validation flags |
| ProcParse.ParsedIndexes | rust_writer_proc/src/parse/parse_mutator_finder_macros.rs:58-67 | the count is the number of crate and local identifiers; the crate indexes are 0..c and the local ones c..count |
| ProcParse.LocalNumberingRestarts | rust_writer_proc/src/parse/parse_mutator_finder_macros.rs:31-53 | the local identifiers are numbered among the local implementors only, by the source's count |
| ProcParse.ParsedIntroduced | rust_writer_proc/src/parse/parse_mutator_finder_macros.rs:69-70 | the introduced generics are the crate ones followed by the local ones, with no de-duplication across the two |
| ProcParse.AssembleFields | rust_writer_proc/src/parse/parse_mutator_finder_macros.rs:72-86 | an expanded struct gets no new fields; otherwise the crate fields come first and then the local ones |
| ProcParse.AssembledFields | rust_writer_proc/src/parse/parse_mutator_finder_macros.rs:72-86 | each new field is named by its implementor's identifier and typed by the rewritten path |
| ProcParse.ParsedNewFields | rust_writer_proc/src/parse/parse_mutator_finder_macros.rs:72-86 | the new fields of `try_from`: none when expanded, otherwise one per implementor, crate ones first |
| ProceduralParse.AssembleParts | rust_writer_procedural/src/parse/parse_mutator_finder_macros.rs:57-86 | the loop builds the indexes and new fields of `Assemble` |
| ProceduralParse.TryFrom | rust_writer_procedural/src/parse/parse_mutator_finder_macros.rs:30-103 | `try_from` yields `TryFromSpec`; on success the struct holds the generics of both passes, and on failure it is untouched |
| ProceduralParse.ValidationDecides | rust_writer_procedural/src/parse/parse_mutator_finder_macros.rs:31 | `try_from` fails exactly when validation does, with its error and before any resolution |
| ProceduralParse.ParsedIndexes | rust_writer_procedural/src/parse/parse_mutator_finder_macros.rs:60-69 | one index per implementor, including those that already had a field; crate indexes 0..c, local c..count |
| ProceduralParse.SelectedFields | rust_writer_procedural/src/parse/parse_mutator_finder_macros.rs:76-86 | the fields listed from one resolution are exactly one per implementor whose identifier names no field, in the implementors' order, each with its identifier and rewritten path; none is named like an existing field |
| ProceduralParse.SelectedKeptFields | rust_writer_procedural/src/parse/parse_mutator_finder_macros.rs:76-86 | the fields zipped from one resolution are exactly `KeptFields`: the implementors whose identifier names no field, in order, each typed by its rewritten path |
| ProceduralParse.AssembledFields | rust_writer_procedural/src/parse/parse_mutator_finder_macros.rs:76-86 | the new fields are exactly the crate implementors reported as new, in order, followed by the local ones, each typed by its rewritten path |
| ProceduralParse.ParsedNewFields | rust_writer_procedural/src/parse/parse_mutator_finder_macros.rs:76-86 | the new fields `try_from` yields are exactly the implementors whose identifier names no existing field, crate ones first and then local ones, each in order with its rewritten path |
| ProceduralParse.ParsedGenerics | rust_writer_procedural/src/parse/parse_mutator_finder_macros.rs:33-55 | after both passes, every argument of a crate or local implementor is covered by the struct's generics |
| ProceduralParse.GenericsAssembled | rust_writer_procedural/src/parse/parse_mutator_finder_macros.rs:33-55 | the crate candidates are added before the local ones, both to the same struct |
| ProceduralParse.ImplementorCandidate | rust_writer_procedural/src/parse/parse_mutator_finder_macros.rs:33-55 | every argument of an implementor is among the candidates of its list |
| FinderExpand.WrapperNameInjective | rust_writer_proc/src/finder/expand.rs:29-30 | different structs get different wrapper names |
| FinderExpand.ExpandFinder | rust_writer_proc/src/finder/expand.rs:29-85 | `expand_finder`'s edits leave the struct as `Expand` describes and name the wrapper after the struct |
| FinderExpand.ExpandSpec | rust_writer_proc/src/finder/expand.rs:43-84 | an expanded struct keeps its attributes and fields; otherwise a unit struct becomes named with exactly the new fields, a named struct appends them, and with `impl_from` the attribute is removed and a `From` tuple implementation is made |
| FinderExpand.FromTupleSpec | rust_writer_proc/src/finder/expand.rs:62-81 | the tuple's types are the field types in field order, and tuple position i initialises field i |
| FinderExpand.AddedGenerics | rust_writer_proc/src/helpers.rs:122-129 | the old parameters stay in order between the added lifetimes and the other added parameters, and every added parameter appears |
| FinderExpand.ExpandGenerics | rust_writer_proc/src/finder/expand.rs:34 | the struct's generics after expansion, expanded before or not |
| FinderExpand.FinderWrapper.ToFind | rust_writer_proc/src/finder/expand.rs:119-126 | one flag per implementor, all unset |
| FinderExpand.FinderWrapper.Find | rust_writer_proc/src/finder/expand.rs:135-165 | the flags become `Updated` of the outcomes, and the answer is whether every selected flag is set |
| FinderExpand.FinderWrapper.GetMissingIndexes | rust_writer_proc/src/finder/expand.rs:167-185 | nothing exactly when every flag is set; otherwise exactly the indexes of the unset flags, in ascending order |
| FinderExpand.FinderWrapper.AllFound | rust_writer_proc/src/finder/expand.rs:157-164 | the `filter`/`all` pipeline answers whether every selected flag is set |
| FinderExpand.AllSelectedFoundSpec | rust_writer_proc/src/finder/expand.rs:157-164 | the answer is true exactly when every selected flag is set, with no indexes selecting all |
| FinderExpand.Missing | rust_writer_proc/src/finder/expand.rs:167-185 | every missing index is below the number of flags |
| FinderExpand.MissingSpec | rust_writer_proc/src/finder/expand.rs:167-185 | the missing indexes are exactly the unset flags, in ascending order |
| FinderExpand.MissingIndexesSpec | rust_writer_proc/src/finder/expand.rs:167-185 | `get_missing_indexes` is none exactly when every flag is set, and otherwise lists the unset ones in ascending order |
| FinderExpand.FindAnswer | rust_writer_proc/src/finder/expand.rs:135-164 | the answer of `find` depends only on the outcomes of the selected implementors |
| FinderExpand.FindPartial | rust_writer_proc/src/finder/expand.rs:136-155 | a selective `find` overwrites only the selected flags and leaves the others; repeating it changes nothing more |
| FinderExpand.FindAllThenMissing | rust_writer_proc/src/finder/expand.rs:135-185 | after a `find` over all implementors, nothing is missing exactly when it answered true |
| FinderExpand.LocalFinder.Find | rust_writer_proc/src/finder/expand.rs:222-225 | the flags become those the visit leaves, and the answer is whether every one of them is set |
| FinderExpand.LocalFinder.FinderReset | rust_writer_proc/src/finder/expand.rs:227-234 | every flag is unset and the number of flags is kept |
| FinderExpand.Marked | rust_writer_proc/src/lib.rs:730-737 | a visit that only sets the flags of what it finds leaves a flag set exactly when it was set or found |
| FinderExpand.ResetThenFind | rust_writer_proc/src/finder/expand.rs:222-234 | with such a visit, `find` after `finder_reset` answers true exactly when this visit found every implementor; without the reset an earlier true answer stays true |
| FinderExpand.FreshAllMissing | rust_writer_proc/src/finder/expand.rs:119-126 | a wrapper fresh from `to_find` reports every index missing, or nothing when it has no implementors |

`ProcHelpers.ResolveAll` and `ProceduralHelpers.ResolveAll` number the identifiers as the
source does, repeat-count flaws included, and so do the two `ResolveImplementorsForStruct`
methods and everything built on them. The numbering evidently intended, described under
"## Findings", is modelled beside them by the two `IntendedIdents` functions, and the
lemmas marked "intended numbering" are about those.

## Left out

- `preserve_and_parse` and `resolve_preserved` (rust_writer/src/preserver.rs:170-212) are not modelled. They do file I/O, parse with `syn`, print with `prettyplease` and restore text with regular expressions.
- `get_inner` has no definition in rust_writer/src/preserver/types.rs. It is modelled as a read of `inner` that consumes nothing. `add_inners` takes a `seq<string>`.
- PreserverTypes.DelimitersCount.Count: `+=` on a `u8` is modelled as wrapping, as in a release build, where a debug build would panic on overflow. `PreserverTypes.CountedExact` gives the exact counts when no counter passes 255.
- Lines come from `str::lines` (`Text.Lines`). A line is split at `\n`, and one trailing `\r` is removed from it. No Unicode is modelled beyond `IsWhitespace`'s characters.
- The `syn` parser and `ParseStream` are not modelled. An attribute entry is given as an `Entry`: whether it starts with `local =`, and the path if one parses. A malformed path after `local =` keeps syn's own error, modelled as `PathSyntax` without its text.
- An argument of an implementor path is modelled as a generic parameter, as the source re-parses it with `parse_quote!`. The `unreachable!` const-argument case is excluded by the precondition on implementors.
- rust_writer_proc/src/parse/parse_attrs.rs is not part of this model. Both crates' `try_from` are modelled over the validation of rust_writer_procedural/src/parse/parse_attrs.rs.
- `extract_generics`, the visibility of the struct, the constant index `one`, and the tokens that `quote!` generates are not modelled. These tokens include the wrapper struct, the `From`, `ToFind` and `ToMutate` implementations, and the local finder's lifetime choice.
- The visit of the file by the wrapper's `find` and by the local finder is not modelled. For the wrapper its outcomes are inputs, one `bool` per implementor; for the local finder, whose `visit_file` is the user's own code, the input is the flags the visit leaves.
- Text.ToLower: lowercases ASCII letters only, where Rust's `to_lowercase` is Unicode-aware; identifiers with non-ASCII letters are not modelled faithfully.
- ProcResolveFacts.IntendedIdents: the intended count, like the source's, compares whole last segments, so `[Foo<A>, Foo<B>]` is still named `foo`, `foo`; only repeats of one segment are proved apart.
- ProceduralResolveFacts.IntendedIdents: an implementor whose own name ends like a numbered one can still collide, as `[Foo, Foo, Foo_1]` is named `foo`, `foo_1`, `foo_1`; only repeats of one lowercased name are proved apart.
- Indexes are naturals, not `u32`, so the casts between `u32` and `usize` are not modelled. An index in the list given to `find` that names no implementor is ignored, as in the source.
- The procedural `remove_impl_from_attr` (rust_writer_procedural/src/helpers.rs:9-16) is the same code as the proc one. It is modelled by `ProcHelpers.RemoveImplFromAttr`, and its property by the `Syntax` lemmas.
- The AST finder and mutator engine (the `Visit` and `VisitMut` implementors of rust_writer/src/ast) is not modelled. It consists of callbacks over syn's syntax tree.

## Findings

| source | as written | input that shows it | evidently intended | confidence | as-written member | corrected member |
|---|---|---|---|---|---|---|
| rust_writer_proc/src/helpers.rs:51-60 | the repeat count compares the earlier *rewritten* paths' last segments with the current *unrewritten* last segment, and rewriting reverses the lifetimes | implementors `[Alpha<'a, 'b>, Alpha<'a, 'b>]` give the identifiers `alpha`, `alpha`, so two fields get the same name | `alpha`, `alpha_1`: every repeat of a segment gets its own suffix | not executed | ProcResolveFacts.AsWrittenRepeatsCollide | ProcResolveFacts.CorrectedRepeatsApart |
| rust_writer_procedural/src/helpers.rs:48-51 | the repeat count is the number of earlier *produced identifiers* equal to the bare lowercased name, so a name that already got a suffix is not counted again | implementors `[Bar, Bar, Bar]` give `bar`, `bar_1`, `bar_1` | `bar`, `bar_1`, `bar_2`: every repeat of a name gets its own suffix | not executed | ProceduralResolveFacts.AsWrittenThirdRepeatCollides | ProceduralResolveFacts.CorrectedThirdRepeatApart |
