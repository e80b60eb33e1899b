# xsd-parser: a verified model of its type optimizer, identifier cache and XML elements

`xsd-parser` turns XML schemas into Rust types. Between reading a schema and
generating code it keeps a graph of types (`MetaTypes`), which an optimizer
rewrites pass by pass; the generated code reads and writes XML documents with a
small runtime. This project models the parts of both that are hardest to get
right and proves what they are for.

**Flattening** (`Occurs`, `ContentModel`, `Flatten`, `FlattenWords`,
`FlattenTheorems`, `GroupGraph`, `GroupFrames`, `FlattenPass`, `FlattenLimits`,
`FlatSequences`, `FlattenSequences`, `SequenceCases`, `WordCounts`,
`FlattenTight`, `MixedTight`, `FlattenBounds`, `FlattenElements`,
`PassResults`). Nested `all`, `choice` and `sequence` groups are merged into one
flat group, and bounds are moved to the complex type. The meaning of a content model is the set of words of children it
accepts (sections 3.8.4 and 3.9.4 of XML Schema Part 1: Structures). `Builder` is the
lazily materialised builder of the source, proved equal to an eager one; the
main theorems say that flattening loses no word, for one type and for the whole
pass. Where the source needs distinct identifiers, `FlattenLimits` gives the
exact condition for one step of the builder, and `FlattenSequences` the one for
whole contents made of nested sequences, with valid schemas that lose words. In
the other direction, flattening gives no more room than necessary: every bound
it computes is attained by a word accepted before, the kind of a group changes
exactly where it has to, and the elements are the leaves below.

**Emptiable types** (`Emptiable`). What is reported as emptiable accepts a word
without children, and with choices at any depth it is proved exactly which
groups do, and exactly when the report is right.

**Cardinality of choices** (`ChoiceCardinality`, `ChoicePass`). The bounds of
the alternatives are merged with those of the complex type. No word is lost if
one of the two repetitions is at most single or unbounded; where a most frequent
alternative is a leaf with an identifier of its own, that is exact. The pass
lists types whose content resolves to a choice but rewrites only direct ones, so
it stops at a choice behind a reference; when that happens is proved exactly.

**Removal of duplicates** (`TypeGraph`, `TypeHash`, `RemoveDuplicates`). Types
that are equal up to references are replaced by references until nothing
changes. The loop terminates on acyclic references by a lexicographic measure,
and every type, recursive or not, keeps its unfolding to every depth.

**XML elements** (`XmlModel`, `XmlWriter`, `XmlReader`, `XmlRoundTrip`,
`XmlFaithful`, `XmlInherited`, `XmlDocuments`, `XmlPrefixes`). A printer and a parser of unstructured elements,
two state machines over events: one keeps a stack of namespace declarations, the
other a lazily filled cache per level. The result of writing and reading back is
known for every element, and it is the same element exactly if, element by
element, the namespaces are restorable from those of the parent, whatever else a
document has before the root and in between. An element that
is written comes with the order in which each of its namespace maps happens to
be listed.

**Identifier cache** (`IdentCache`). A recursive search over the dependencies of
schemas with a shared set of visited schemas, and an iterator with an explicit
stack. What is resolved is an identifier held by the cache that has the requested
fields. The search is complete on cyclic graphs and goes depth first, the
iterator emits everything once, and the two agree off dependency cycles.

**Traits** (`Relations`, `TraitInfos`). The traits a derived type names directly
are the transitive reduction of all its traits.

**Unions** (`Unions`, `UnionRoutes`, `FlattenUnions`, `EnumVariants`,
`EnumUnions`). Nested unions are flattened, and unions with enumerations merged,
by folds that rewrite the graph in place. Both equal a specification on the list
of leaves, for the whole pass and independently of the order in which types are
visited; the leaves are the ends of all routes through the members, in order.

Methods and classes follow the source's imperative code; the functions beside
them specify it, and the lemmas are about these functions. Rewrites that the
source does in the order of a hash map or set are modelled with an arbitrary
order.

Where the code and its documentation differ, the model follows the code: the
documentation of `merge_choice_cardinalities` promises to handle all choice
types, but a choice behind a reference makes it panic; and `is_emptiable`, which
stands for types that may have no element, asks a choice for all of its
alternatives to be optional where one would do.

## Model

| member | source | states |
|---|---|---|
| FlattenTheorems.FlattenableLosesNoWord | xsd-parser/src/pipeline/optimizer/flatten_complex_type.rs:75-105 | every word the complex type accepts is accepted after flattening; the condition is on the groups before: a finite tree, no identifier repeated in nested choices, and none in a sequence with nested groups |
| FlattenTheorems.FlattenLosesNoWord | xsd-parser/src/pipeline/optimizer/flatten_complex_type.rs:75-105 | the same with less asked of sequences, whether the groups keep their kind or become one mixed choice whose bounds move to the type: only a content that still is a sequence afterwards needs distinct identifiers |
| FlattenPass.FlattenAllLosesNoWord | xsd-parser/src/pipeline/optimizer/flatten_complex_type.rs:51-73 | the same across the whole pass, in any order of the types and whatever the others are like, as long as their contents are not among the groups below the content in question |
| FlattenPass.SharedContentLosesWord | xsd-parser/src/pipeline/optimizer/flatten_complex_type.rs:51-105 | a concrete type graph in which a type loses a word because it shares its content with one flattened before it |
| PassResults.FlattenAllEach | xsd-parser/src/pipeline/optimizer/flatten_complex_type.rs:51-73 | the whole pass does to each type and its content what flattening that type alone does, errors of other types included, as long as their contents are not among its groups |
| FlattenTheorems.MixedBounds | xsd-parser/src/pipeline/optimizer/flatten_complex_type.rs:201-238 | when the result is a mixed choice, each word of the complex type consists of flattened identifiers only, and its length lies in the updated bounds of the type |
| FlattenTheorems.MixedLosesNoWord | xsd-parser/src/pipeline/optimizer/flatten_complex_type.rs:201-238 | the mixed choice, child by child, accepts every word the complex type accepted |
| FlattenTheorems.PlainLosesNoWord | xsd-parser/src/pipeline/optimizer/flatten_complex_type.rs:344-384 | when the kind is kept, the flattened type accepts every word the nested groups accept, repetition by repetition; a sequence must repeat no identifier |
| FlattenTheorems.SequenceKeepsCounts | xsd-parser/src/pipeline/optimizer/flatten_complex_type.rs:299-316 | also with repeated identifiers every identifier occurs as often as the summed and multiplied bounds admit; only order may be lost |
| FlattenBounds.KindKeptIff | xsd-parser/src/pipeline/optimizer/flatten_complex_type.rs:339-371 | a content with nested groups keeps its kind, and the complex type its bounds, if and only if all groups below are of this kind and, all groups excepted, occur at most once; otherwise it becomes a choice of single alternatives |
| FlattenBounds.MovedBoundsAttained | xsd-parser/src/pipeline/optimizer/flatten_complex_type.rs:361-371 | the bounds that move to the complex type are attained: it accepted a word of exactly the new minimum of children, and one of exactly the new maximum, or arbitrarily long ones |
| FlattenBounds.MinimumAttainedIff | xsd-parser/src/pipeline/optimizer/flatten_complex_type.rs:388-400 | where the choices nested below have an alternative of at most one child, the new minimum is attained if and only if the content is no longer choice itself or may be left out |
| FlattenBounds.KeptCountsAttained | xsd-parser/src/pipeline/optimizer/flatten_complex_type.rs:373-383 | where an all group or a sequence keeps its kind, the bounds of each identifier are attained by words of the content before |
| FlattenBounds.KeptAlternativesAttained | xsd-parser/src/pipeline/optimizer/flatten_complex_type.rs:373-383 | where a choice keeps its kind, both bounds of every alternative are attained by words of the content before |
| FlattenBounds.OnlyContentAndBounds | xsd-parser/src/pipeline/optimizer/flatten_complex_type.rs:90-104 | the content is replaced by a bare group, the complex type gets other bounds, and nothing else changes; without nested groups nothing changes at all |
| FlattenBounds.FlattenErrors | xsd-parser/src/pipeline/optimizer/flatten_complex_type.rs:75-90 | which error is reported for an unknown type, another kind of type, a missing content, an unknown content and a content that is no group |
| FlattenElements.ElementsTakenOver | xsd-parser/src/pipeline/optimizer/flatten_complex_type.rs:281-330 | each element of a flattened content is a leaf of one of the groups below, unchanged but for its bounds |
| FlattenElements.LeavesListed | xsd-parser/src/pipeline/optimizer/flatten_complex_type.rs:281-330 | no leaf below is dropped: an element of the flattened content has its identifier and its type |
| FlattenElements.MismatchReported | xsd-parser/src/pipeline/optimizer/flatten_complex_type.rs:299-312 | two leaves of one identifier and different types are an error, unless the identifier is still repeated in the flattened content |
| FlattenElements.MixedIff | xsd-parser/src/pipeline/optimizer/flatten_complex_type.rs:344-357 | a flattened content is mixed if and only if one of the groups below was |
| FlattenTight.ModeIff | xsd-parser/src/pipeline/optimizer/flatten_complex_type.rs:344-355 | a partially flattened group is still plain if and only if all groups met so far are of its kind and occur at most once, or are all groups |
| FlattenTight.ElementsCountsTight | xsd-parser/src/pipeline/optimizer/flatten_complex_type.rs:373-383 | in a plain all group or sequence the bounds of every identifier are the fewest and the most occurrences in the nested groups |
| FlattenTight.ElementsAlternativesTight | xsd-parser/src/pipeline/optimizer/flatten_complex_type.rs:373-383 | in a plain choice both bounds of every alternative are accepted by the nested choices |
| MixedTight.ElementsLength | xsd-parser/src/pipeline/optimizer/flatten_complex_type.rs:201-238 | the range that is kept for a mixed group is that of the fewest and the most children, a choice counting as at most one child at least |
| WordCounts.LeastWord | xsd-parser/src/models/meta/element.rs:20-47 | the fewest occurrences a content model asks for are attained by some word |
| WordCounts.MostWord | xsd-parser/src/models/meta/element.rs:20-47 | the most occurrences are attained by some word, or exceeded without end |
| WordCounts.CountsBetween | xsd-parser/src/models/meta/element.rs:20-47 | every word has at least the fewest and at most the most |
| FlattenPass.StepWrites | xsd-parser/src/pipeline/optimizer/flatten_complex_type.rs:75-105 | flattening one type writes that type and its content only; groups stay groups, and complex types keep their content |
| FlattenTheorems.LeavesUntouched | xsd-parser/src/pipeline/optimizer/flatten_complex_type.rs:161-184 | a content without nested groups is not replaced at all, nor one whose nested groups are all named, if named groups are left alone |
| FlattenTheorems.DepthLimit | xsd-parser/src/pipeline/optimizer/flatten_complex_type.rs:156-161 | at the depth limit a group is taken as it is |
| FlattenLimits.RepeatedAlternative | xsd-parser/src/pipeline/optimizer/flatten_complex_type.rs:299-316 | adding a repeated identifier to a plain choice keeps every word if and only if the bounds of the two alternatives meet a guard; the source sums them |
| FlattenLimits.RepeatedInSequence | xsd-parser/src/pipeline/optimizer/flatten_complex_type.rs:299-316 | adding a repeated identifier to a plain sequence keeps every word if and only if nothing that may occur stands in between |
| FlattenLimits.RepeatedAlternativeLosesWord | xsd-parser/src/pipeline/optimizer/flatten_complex_type.rs:344-384 | a concrete type graph on which flattening loses the word of a single child |
| FlattenSequences.SequencesKeepAllIff | xsd-parser/src/pipeline/optimizer/flatten_complex_type.rs:75-105 | flattening a content made of nested sequences keeps every word of the type if and only if equal identifiers are adjacent among its leaves; the content occurs at most once, and its leading leaves have no equal identifiers apart |
| FlattenSequences.GroupedSequencesKeepWords | xsd-parser/src/pipeline/optimizer/flatten_complex_type.rs:75-105 | for all bounds, no word is lost if each leaf behind the leading ones is new or the same as all leaves from its first occurrence on |
| FlattenSequences.ContentSummed | xsd-parser/src/pipeline/optimizer/flatten_complex_type.rs:146-187 | the content becomes the leading leaves as they are, with every later leaf added to the first one of its identifier, however deep it was nested |
| FlattenSequences.LeavesAccept | xsd-parser/src/models/meta/element.rs:20-47 | every word of nested sequences is a word of their leaves in document order |
| FlattenSequences.AcceptedByNesting | xsd-parser/src/models/meta/element.rs:20-47 | and the other way round |
| FlatSequences.GroupedKeeps | xsd-parser/src/pipeline/optimizer/flatten_complex_type.rs:299-316 | adding leaves one by one keeps every word if repeated ones follow their own kind |
| FlatSequences.FullWordLost | xsd-parser/src/pipeline/optimizer/flatten_complex_type.rs:299-316 | otherwise a word in which every leaf occurs is lost |
| FlatSequences.TalliedNested | xsd-parser/src/pipeline/optimizer/flatten_complex_type.rs:373-386 | adding leaves that are summed up already is adding all of them |
| FlatSequences.AdjacentMeans | xsd-parser/src/pipeline/optimizer/flatten_complex_type.rs:299-316 | adjacency of equal identifiers, spelled out: nothing else stands between two equal ones |
| SequenceCases.SequenceLosesWord | xsd-parser/src/pipeline/optimizer/flatten_complex_type.rs:75-105 | a concrete valid content, sequence(a, sequence(b, a)), whose flattening rejects the word a b a |
| SequenceCases.LeadingLeavesMayRepeat | xsd-parser/src/pipeline/optimizer/flatten_complex_type.rs:333-342 | a concrete content with equal identifiers apart among its leading leaves, which keeps every word |
| FlattenElements.ConsistentFlattens | xsd-parser/src/pipeline/optimizer/flatten_complex_type.rs:281-330 | a content whose leaves of one identifier stand for the same type is flattened without an error |
| FlattenWords.ElementsRepresented | xsd-parser/src/pipeline/optimizer/flatten_complex_type.rs:146-187 | the invariant of the loop: whatever the group accepts is represented by the flattened state, in each of its modes |
| FlattenWords.ElementsShape | xsd-parser/src/pipeline/optimizer/flatten_complex_type.rs:146-187 | the flattened elements are leaves, distinct where nothing was repeated, of single occurrence in mixed mode |
| FlattenWords.MixedKeeps | xsd-parser/src/pipeline/optimizer/flatten_complex_type.rs:201-238 | switching to mixed mode keeps every represented word |
| FlattenWords.JoinGroup | xsd-parser/src/pipeline/optimizer/flatten_complex_type.rs:333-384 | merging a flattened group as a particle of another keeps the words of both, one after the other or interleaved |
| FlattenWords.AllCounts | xsd-parser/src/pipeline/optimizer/flatten_complex_type.rs:344-350 | a flat all group accepts exactly the words whose identifier counts lie in the tallied bounds |
| FlattenWords.ParticleLength | xsd-parser/src/pipeline/optimizer/flatten_complex_type.rs:366-374 | the number of children of a repeated particle lies in the product of the bounds |
| Flatten.Builder.constructor | xsd-parser/src/pipeline/optimizer/flatten_complex_type.rs:192-199 | a new builder has the mode of its group and has materialised nothing |
| Flatten.Builder.IntoMixed | xsd-parser/src/pipeline/optimizer/flatten_complex_type.rs:201-238 | the lazily built group becomes what the eager flattener makes of it: bounds moved to the mode, elements reset |
| Flatten.Builder.AddElement | xsd-parser/src/pipeline/optimizer/flatten_complex_type.rs:281-330 | adds, sums or widens exactly like the eager flattener, including the error on mismatching variants; nothing is materialised by it |
| Flatten.Builder.Merge | xsd-parser/src/pipeline/optimizer/flatten_complex_type.rs:333-386 | materialises the group and equals the eager merge, in kept and in mixed mode |
| Flatten.Builder.AddFlattened | xsd-parser/src/pipeline/optimizer/flatten_complex_type.rs:373-386 | the loop over the flattened elements equals adding all of them eagerly |
| Flatten.Builder.IntoVariant | xsd-parser/src/pipeline/optimizer/flatten_complex_type.rs:254-279 | a variant is returned exactly if something was merged in |
| Flatten.ExecLazily | xsd-parser/src/pipeline/optimizer/flatten_complex_type.rs:146-187 | the lazy builder ends in the very state, or the very error, of a flattener that copies from the start |
| Flatten.ExecElement | xsd-parser/src/pipeline/optimizer/flatten_complex_type.rs:161-184 | one round of the loop equals one eager step |
| Flatten.Optimizer.FlattenComplexTypeImpl | xsd-parser/src/pipeline/optimizer/flatten_complex_type.rs:75-105 | the types are rewritten as specified, or left as they were with the specified error |
| Flatten.Optimizer.FlattenComplexTypes | xsd-parser/src/pipeline/optimizer/flatten_complex_type.rs:51-73 | the pass visits every complex type with a group as content exactly once and ignores errors |
| ContentModel.LeafParticle | xsd-parser/src/models/meta/element.rs:20-47 | a leaf particle accepts exactly the repetitions of its identifier within its bounds |
| ContentModel.InterleavesCounts | xsd-parser/src/pipeline/optimizer/flatten_complex_type.rs:344-350 | interleaving keeps the number of occurrences of each identifier |
| Occurs.AddAllows | xsd-parser/src/models/schema/occurs.rs:34-52 | the sum of two maxima admits the sum of any counts they admit |
| Occurs.RepeatRange | xsd-parser/src/models/schema/occurs.rs:54-83 | k repetitions of counts within a range add up to a count within the multiplied range, unbounded maxima included |
| Emptiable.ChildlessIff | xsd-parser/src/models/meta/complex.rs:59-83 | a regular group, with choices at any depth, accepts a word without children if and only if a recursive test succeeds that asks some alternative of a choice and all particles otherwise |
| Emptiable.ParticlesRight | xsd-parser/src/models/meta/complex.rs:59-83 | an all or sequence is reported as emptiable exactly if it accepts a word without children, whenever the groups nested in it are reported right |
| Emptiable.ChoiceRightIff | xsd-parser/src/models/meta/complex.rs:59-83 | a choice over groups that are reported right is itself reported right if and only if it has alternatives and all of them or none can be empty: the source asks for all of them |
| Emptiable.EmptiableCanBeEmpty | xsd-parser/src/models/meta/complex.rs:59-83 | whatever is reported as emptiable accepts a word without children, if no choice is without alternatives |
| Emptiable.ComplexChildlessIff | xsd-parser/src/models/meta/complex.rs:175-184 | a complex type accepts a word without children if and only if it is optional itself or its content can be empty |
| Emptiable.ComplexRightIff | xsd-parser/src/models/meta/complex.rs:175-184 | a complex type is reported right if and only if it is optional itself or its content is reported right |
| Emptiable.ReferencesEmptiableIff | xsd-parser/src/models/meta/reference.rs:80-88 | a chain of references is emptiable if and only if one of them is optional or the type at its end is emptiable |
| Emptiable.WithoutModel | xsd-parser/src/models/meta/type_.rs:240-249 | a complex type without content is emptiable, simple values are, custom and dynamic types are not |
| Emptiable.ComputeEmptiable | xsd-parser/src/models/meta/type_.rs:240-249 | the recursion over types, with the loop that returns early, terminates on every type that is no part of itself and decides the specification |
| ChoiceCardinality.MergeLosesNoWord | xsd-parser/src/pipeline/optimizer/merge_choice_cardinality.rs:30-66 | if one of the two maxima is at most one or unbounded, no word of the complex type is lost |
| ChoiceCardinality.MergeKeepsAllIff | xsd-parser/src/pipeline/optimizer/merge_choice_cardinality.rs:41-65 | that condition is exact if a largest alternative is a leaf with an identifier of its own, whatever the other alternatives are: otherwise some word is lost |
| ChoiceCardinality.LostWord | xsd-parser/src/pipeline/optimizer/merge_choice_cardinality.rs:41-65 | the longest repetition of the largest alternative is the word that is lost |
| ChoiceCardinality.MergedExactly | xsd-parser/src/pipeline/optimizer/merge_choice_cardinality.rs:41-65 | the complex type gets the least minimum and the greatest maximum among its own bounds, those of the alternatives, and one; every alternative occurs exactly once afterwards, and nothing else changes |
| ChoiceCardinality.MergeErrors | xsd-parser/src/pipeline/optimizer/merge_choice_cardinality.rs:30-45 | which error is reported for an unknown type, another kind of type, a missing content and a content that is no choice |
| ChoiceCardinality.Regroup | xsd-parser/src/pipeline/optimizer/merge_choice_cardinality.rs:41-52 | k repetitions of the old choice are some number of single alternatives, within k times the bounds |
| ChoiceCardinality.ResetAlternatives | xsd-parser/src/pipeline/optimizer/merge_choice_cardinality.rs:46-54 | the loop computes the widest bounds and leaves single occurrences |
| ChoiceCardinality.Optimizer.MergeChoiceCardinality | xsd-parser/src/pipeline/optimizer/merge_choice_cardinality.rs:30-66 | rewrites content and type as specified, or reports the specified error and changes nothing |
| ChoiceCardinality.Optimizer.MergeChoiceCardinalities | xsd-parser/src/pipeline/optimizer/merge_choice_cardinality.rs:74-97 | the pass visits the complex types with a choice behind their content, each once, until an error |
| ChoicePass.PassSucceeds | xsd-parser/src/pipeline/optimizer/merge_choice_cardinality.rs:74-97 | the pass goes through if and only if no listed choice is hidden behind a reference |
| ChoicePass.HiddenChoiceStopsPass | xsd-parser/src/pipeline/optimizer/merge_choice_cardinality.rs:74-97 | a concrete type graph on which the pass unwraps an error |
| ChoicePass.MergeAllLosesNoWord | xsd-parser/src/pipeline/optimizer/merge_choice_cardinality.rs:74-97 | a whole pass that goes through loses no word of a type that meets the merge condition at the start, if the contents of the other types are not among the groups below its own |
| PassResults.MergeAllEach | xsd-parser/src/pipeline/optimizer/merge_choice_cardinality.rs:74-97 | a whole pass that goes through does to each type and its content what merging that type alone does, under the same condition |
| TypeGraph.GetResolvedImpl | xsd-parser/src/models/meta/types.rs:151-186 | terminates on every graph and returns known types only |
| TypeGraph.ResolveUnfolds | xsd-parser/src/models/meta/types.rs:151-186 | on acyclic references, resolving follows the chain reference by reference and stops before a missing type |
| TypeGraph.ResolveTerminal | xsd-parser/src/models/meta/types.rs:103-106 | resolving is idempotent on acyclic references and ends at a type that is no reference, or a dangling one |
| TypeGraph.ResolvesIff | xsd-parser/src/models/meta/types.rs:151-186 | on every graph, a type resolves to one that is no simple reference if and only if single, non-nillable references lead there |
| TypeGraph.ListedIff | xsd-parser/src/models/meta/complex.rs:125-153 | the passes list a complex type if and only if such references lead from its content to an all, a choice or a sequence, or to a choice |
| TypeGraph.DirectContentListed | xsd-parser/src/models/meta/complex.rs:125-153 | a complex type with a group as content is listed |
| TypeGraph.TypeEqIter | xsd-parser/src/models/meta/type_eq.rs:30-50 | the loop over two iterators decides pointwise equality of lists of the same length |
| TypeGraph.TypeEqIsSameUpToReferences | xsd-parser/src/models/meta/type_.rs:208-229 | types are type-equal if and only if they agree on everything but identifiers, their identifiers resolve alike, and the type is comparable |
| TypeGraph.TypeEqEquivalence | xsd-parser/src/models/meta/type_.rs:208-229 | type equality is symmetric and transitive, and reflexive exactly on types without text elements and custom variants |
| TypeHash.EqualTypesHashAlike | xsd-parser/src/models/meta/type_.rs:187-206 | type-equal types feed identical data to the hasher |
| TypeHash.TypeHashSlice | xsd-parser/src/models/meta/type_eq.rs:18-24 | feeds the length and then every item |
| TypeHash.SliceAgrees | xsd-parser/src/models/meta/type_eq.rs:18-24 | lists that are equal item by item feed the same |
| RemoveDuplicates.Optimizer.RemoveDuplicates | xsd-parser/src/pipeline/optimizer/remove_duplicates.rs:70-115 | terminates on acyclic references; afterwards references are acyclic, no two distinct non-reference types are equal, every type unfolds as before to every depth, and nothing of an entry has changed but its variant, to a simple reference |
| RemoveDuplicates.Optimizer.Round | xsd-parser/src/pipeline/optimizer/remove_duplicates.rs:73-112 | one iteration keeps the meaning of every type and shrinks the measure, or nothing was left to do |
| RemoveDuplicates.Optimizer.FindDuplicates | xsd-parser/src/pipeline/optimizer/remove_duplicates.rs:79-98 | the map of types finds, for every type, the first one equal to it, and plans a replacement unless it is a reference to it already |
| RemoveDuplicates.Optimizer.FindEntry | xsd-parser/src/pipeline/optimizer/remove_duplicates.rs:84-98 | finds an entry equal to the type exactly if there is one |
| RemoveDuplicates.Optimizer.ReplaceAll | xsd-parser/src/pipeline/optimizer/remove_duplicates.rs:105-112 | the planned types become simple references, in whatever order the map is listed |
| RemoveDuplicates.MeaningKept | xsd-parser/src/pipeline/optimizer/remove_duplicates.rs:83-112 | the resolved unfolding of every identifier, to every depth, is the same after a round, recursive types included |
| RemoveDuplicates.AcyclicAfter | xsd-parser/src/pipeline/optimizer/remove_duplicates.rs:105-112 | chains of simple references stay finite |
| RemoveDuplicates.ResolveAfter | xsd-parser/src/pipeline/optimizer/remove_duplicates.rs:105-112 | afterwards an identifier resolves to what its old target became |
| RemoveDuplicates.RoundShrinks | xsd-parser/src/pipeline/optimizer/remove_duplicates.rs:70-112 | a round that replaces something decreases, lexicographically, the non-references, the dangling references or the indirect references |
| RemoveDuplicates.EmptyPlan | xsd-parser/src/pipeline/optimizer/remove_duplicates.rs:100-103 | when nothing is planned no two distinct non-reference types are equal |
| RemoveDuplicates.LeaderUnique | xsd-parser/src/pipeline/optimizer/remove_duplicates.rs:84-98 | a class of equal types has one first type only |
| XmlRoundTrip.RoundTripIff | xsd-parser-types/src/xml/element.rs:199-337 | every writable element is read back without error, and is rebuilt, up to xmlns attributes and under the name it was written with, if and only if every element in it is restorable from the namespaces of the one around it: left-out declarations agree with the parent, written ones have a name, and lost bindings are taken back by attributes |
| XmlRoundTrip.BindingsRestored | xsd-parser-types/src/xml/element.rs:204-239 | for one element: its start tag leads from the bindings around it to its own if and only if it is restorable from them |
| XmlRoundTrip.DeclaredUnlessLeftOut | xsd-parser-types/src/quick_xml/serialize.rs:693-711 | a prefix of the namespace map is declared in the start tag if and only if the guard of write_xmlns does not leave it out |
| XmlRoundTrip.RoundTripFromInput | xsd-parser-types/src/quick_xml/deserialize.rs:1304-1312 | the same for a reader that is fed one event at a time |
| XmlDocuments.DocumentRoundTrip | xsd-parser-types/src/quick_xml/deserialize.rs:1242-1275 | the same for documents with declarations, comments and texts before the root, processing instructions and the like inserted anywhere, and anything behind the root |
| XmlDocuments.DocumentFromInput | xsd-parser-types/src/quick_xml/deserialize.rs:1304-1312 | the same for a document that is supplied event by event |
| XmlDocuments.OthersIgnored | xsd-parser-types/src/xml/element.rs:418-422 | declarations, processing instructions, document types and references change nothing, wherever they stand |
| XmlDocuments.OtherIgnored | xsd-parser-types/src/xml/element.rs:426-512 | one such event, inserted at any place of any list of events, changes nothing |
| XmlDocuments.PrologIgnored | xsd-parser-types/src/xml/element.rs:418-422 | before the root no event that opens or closes no tag changes anything |
| XmlDocuments.EpilogIgnored | xsd-parser-types/src/quick_xml/deserialize.rs:1304-1312 | after the root nothing is read |
| XmlDocuments.TagErrors | xsd-parser-types/src/quick_xml/deserialize.rs:1170-1191 | a tag is refused for a reserved declaration, then for a repeated attribute name, and for nothing else |
| XmlDocuments.ValueEventsAlike | xsd-parser-types/src/xml/element.rs:264-330 | texts, character data and comments are written as events of their kind, and read as values of their kind |
| XmlDocuments.TagsOf | xsd-parser-types/src/xml/element.rs:203-262 | an element without values is one empty tag, any other has a start and an end tag of its name |
| XmlInherited.InheritedNotRepeated | xsd-parser-types/src/quick_xml/serialize.rs:693-711 | a binding that is inherited unchanged from the parent is not written again, whatever its prefix, if no other prefix is bound to the namespace |
| XmlInherited.LeftOutIff | xsd-parser-types/src/quick_xml/serialize.rs:693-711 | below an element that binds the namespace, a declaration is left out if and only if no prefix listed before is bound to it and the prefix is the last one the element above lists for it |
| XmlFaithful.FaithfulRoundTrip | xsd-parser-types/src/xml/element.rs:199-337 | a condition that does not mention the stack of the writer, in terms of the namespaces and xmlns attributes of an element and its ancestors, suffices for the round trip |
| XmlFaithful.ExtendingIsFaithful | xsd-parser-types/src/xml/element.rs:200-243 | namespace maps that extend the parent's without rebinding, with an entry for each xmlns attribute, meet that condition |
| XmlRoundTrip.WrittenIsReread | xsd-parser-types/src/xml/element.rs:392-512 | the exact element that is read back, for every writable element |
| XmlFaithful.RestoredIsLost | xsd-parser-types/src/quick_xml/serialize.rs:693-711 | an element that overrides a binding and restores it further in is writable, and read back as a different element |
| XmlRoundTrip.StartTagDistinct | xsd-parser-types/src/xml/element.rs:204-239 | no attribute name is written twice in a start tag |
| XmlRoundTrip.StartTagLegal | xsd-parser-types/src/xml/element.rs:204-239 | no reserved namespace is declared in a start tag |
| XmlRoundTrip.OpenKeepsPlain | xsd-parser-types/src/xml/element.rs:218-239 | all attributes other than namespace declarations are written, in order |
| XmlRoundTrip.WrittenAttributes | xsd-parser-types/src/xml/element.rs:208-216 | each prefix of the namespace map is either declared in the start tag or active already with that namespace |
| XmlWriter.NextItem | xsd-parser-types/src/xml/element.rs:199-337 | each call takes exactly the first pending event; silent transitions terminate |
| XmlWriter.Serialize | xsd-parser-types/src/quick_xml/serialize.rs:843-851 | the machine produces exactly the preorder events of the element, stays done, and leaves the helper as it was |
| XmlWriter.WriteStart | xsd-parser-types/src/xml/element.rs:204-239 | begins a scope and writes the declarations and kept attributes of one element |
| XmlWriter.StartItem | xsd-parser-types/src/xml/element.rs:203-262 | the first event of an element: its start tag, or an empty tag whose scope is ended at once |
| XmlWriter.WriteNamespaces | xsd-parser-types/src/xml/element.rs:208-216 | the loop over the namespace map declares what is not active |
| XmlWriter.KeepAttributes | xsd-parser-types/src/xml/element.rs:222-239 | the filter keeps the attributes that are no declarations, and declarations of prefixes without a namespace entry |
| XmlWriter.ScopeRestored | xsd-parser-types/src/quick_xml/serialize.rs:640-652 | ending the innermost scope takes back exactly what was declared since it began |
| XmlWriter.FinishInside | xsd-parser-types/src/quick_xml/serialize.rs:640-652 | ending an inner scope leaves everything declared outside in place |
| XmlWriter.SerializeHelper.constructor | xsd-parser-types/src/quick_xml/serialize.rs:616-620 | starts at level zero without declarations |
| XmlWriter.SerializeHelper.BeginNsScope | xsd-parser-types/src/quick_xml/serialize.rs:633-635 | one level more, no other change |
| XmlWriter.SerializeHelper.EndNsScope | xsd-parser-types/src/quick_xml/serialize.rs:640-652 | one level less, if there is one, and every entry of an inner level popped |
| XmlWriter.SerializeHelper.AddNamespaceEntry | xsd-parser-types/src/quick_xml/serialize.rs:793-808 | writes the declaration and stacks it on the current level |
| XmlWriter.SerializeHelper.WriteXmlns | xsd-parser-types/src/quick_xml/serialize.rs:693-711 | declares unless the innermost declaration of the namespace has this very prefix |
| XmlWriter.SerializeHelper.AddQnameNamespace | xsd-parser-types/src/quick_xml/serialize.rs:659-687 | adopts the prefix of the innermost declaration of the namespace, or declares it |
| XmlWriter.SerializeHelper.GetNamespacePrefix | xsd-parser-types/src/quick_xml/serialize.rs:780-791 | the prefix of the innermost declaration, or an error if there is none |
| XmlPrefixes.BalancedRunRestores | xsd-parser-types/src/quick_xml/serialize.rs:633-652 | every balanced run between the begin and the end of a scope restores level and stack |
| XmlPrefixes.PrefixMeansNamespace | xsd-parser-types/src/quick_xml/serialize.rs:780-791 | the prefix handed out resolves to the namespace for a reader if and only if no later declaration uses the prefix again |
| XmlPrefixes.CleanPrefixes | xsd-parser-types/src/quick_xml/serialize.rs:659-711 | over every run that never binds an active prefix to two namespaces, the prefixes returned, written or chosen mean what the writer thinks |
| XmlPrefixes.ResolvesInScope | xsd-parser-types/src/quick_xml/serialize.rs:780-791 | resolving on the stack is looking the prefix up among the bindings in scope (sections 6.1 and 6.2 of Namespaces in XML 1.0) |
| XmlPrefixes.EventsWellNested | xsd-parser-types/src/xml/element.rs:199-337 | start and end events pair up by name, whatever surrounds them |
| XmlReader.DeserializeHelper.constructor | xsd-parser-types/src/quick_xml/deserialize.rs:1194-1203 | nothing open, and a cache entry for the outermost level |
| XmlReader.DeserializeHelper.Namespaces | xsd-parser-types/src/quick_xml/deserialize.rs:695-713 | equals the innermost-wins bindings of the open elements, whether cached before, shared with an outer level or computed now |
| XmlReader.DeserializeHelper.PopPending | xsd-parser-types/src/quick_xml/deserialize.rs:1154-1167 | leaves the element that ended with the previous event and keeps the cache coherent |
| XmlReader.DeserializeHelper.HandleEvent | xsd-parser-types/src/quick_xml/deserialize.rs:1153-1191 | the cache stays coherent over every event, with lazy entries and deferred pops; an error exactly for reserved declarations |
| XmlReader.DeserializeHelper.Push | xsd-parser-types/src/quick_xml/deserialize.rs:1170-1183 | enters an element: its declarations, if legal, and a cache entry if anything is declared |
| XmlReader.DeserializeHelper.LooksDeclaring | xsd-parser-types/src/quick_xml/deserialize.rs:1174-1180 | without an attribute that looks like a declaration there is none |
| XmlReader.DeserializeHelper.PopCache | xsd-parser-types/src/quick_xml/deserialize.rs:1159-1166 | drops exactly the trailing entries of inner levels |
| XmlReader.PushedCoherent | xsd-parser-types/src/quick_xml/deserialize.rs:1170-1184 | entering an element keeps the cache coherent, with or without a declaration |
| XmlReader.PoppedCoherent | xsd-parser-types/src/quick_xml/deserialize.rs:1158-1166 | dropping the entries of inner levels keeps the cache coherent |
| XmlReader.TopInScope | xsd-parser-types/src/quick_xml/deserialize.rs:695-713 | the last cache entry stands for all inner levels |
| XmlReader.OrdinaryIsFree | xsd-parser-types/src/quick_xml/deserialize.rs:1170-1183 | which declarations are refused: those that redefine the prefixes xml and xmlns or their namespaces, the default namespace excepted |
| XmlReader.Init | xsd-parser-types/src/xml/element.rs:392-424 | the first event: a machine, a finished element, or the event handed back |
| XmlReader.Next | xsd-parser-types/src/xml/element.rs:426-512 | the nested machines do what one stack of unfinished elements does with the event |
| XmlReader.DeserializeImpl.constructor | xsd-parser-types/src/quick_xml/deserialize.rs:1223-1231 | nothing read yet |
| XmlReader.DeserializeImpl.HandleSkip | xsd-parser-types/src/quick_xml/deserialize.rs:1278-1296 | swallows a skipped element up to its end tag, the end of the file excepted |
| XmlReader.DeserializeImpl.Dispatch | xsd-parser-types/src/quick_xml/deserialize.rs:1242-1275 | hands the event to the machine and keeps what it returns; nothing is ever skipped |
| XmlReader.DeserializeImpl.HandleEvent | xsd-parser-types/src/quick_xml/deserialize.rs:1233-1276 | one event is one step of the reference reader |
| XmlReader.DeserializeImpl.Deserialize | xsd-parser-types/src/quick_xml/deserialize.rs:1304-1312 | reads call by call until an element is complete or an error occurs, like the reference reader, on every input on which one of them happens |
| XmlReader.InputIsList | xsd-parser-types/src/quick_xml/deserialize.rs:1304-1312 | reading call by call is reading the list of the events supplied |
| IdentCache.IdentCache.constructor | xsd-parser/src/models/ident_cache.rs:23-31 | an empty cache |
| IdentCache.IdentCache.Insert | xsd-parser/src/models/ident_cache.rs:64-86 | adds the identifier to the entry of its schema, or of its namespace if the schema is unknown, and changes nothing else |
| IdentCache.IdentCache.AddSchema | xsd-parser/src/models/ident_cache.rs:92-101 | adds an empty entry unless there is one, and lists the schema under its namespace |
| IdentCache.IdentCache.AddDependency | xsd-parser/src/models/ident_cache.rs:111-120 | appends the dependency exactly if the schema is known and does not have it |
| IdentCache.IdentCache.AddGlobalNamespace | xsd-parser/src/models/ident_cache.rs:123-126 | the namespace is known and global from now on |
| IdentCache.IdentCache.Resolve | xsd-parser/src/models/ident_cache.rs:140-183 | succeeds exactly if one single entry answers, is unknown exactly if none does, ambiguous exactly if two do; the result is held by that entry and has the kind and name, and the namespace and schema, that were asked for |
| IdentCache.IdentCache.SearchInSchema | xsd-parser/src/models/ident_cache.rs:250-272 | terminates on cyclic graphs and finds the first match in depth-first order; otherwise everything below is visited |
| IdentCache.IdentCache.ResolveForSchema | xsd-parser/src/models/ident_cache.rs:222-248 | the result is held by an entry in reach and has the kind and name, and the namespace and schema, that were asked for; fails exactly if no identifier held in reach has; what is reachable from the schema goes first |
| IdentCache.MatchesIff | xsd-parser/src/models/ident_cache.rs:275-295 | an entry matches if and only if it holds an identifier of the requested kind and name, and of the requested namespace and schema where given; the identifier made is that one |
| IdentCache.IdentCache.AnswersIff | xsd-parser/src/models/ident_cache.rs:140-183 | where schemas are listed under their namespaces, the entries that answer are all those that hold an identifier as it was asked for |
| IdentCache.InsertedIsHeld | xsd-parser/src/models/ident_cache.rs:64-86 | an inserted identifier is held from then on, and besides only what was held before |
| IdentCache.DependenciesAreIds | xsd-parser/src/models/ident_cache.rs:264-268 | all dependencies are followed, in order and whatever their kind |
| IdentCache.VisitIff | xsd-parser/src/models/ident_cache.rs:250-272 | a search lists exactly the known schemas that are reached around those visited before |
| IdentCache.SelfFirst | xsd-parser/src/models/ident_cache.rs:250-272 | a schema comes before everything below it |
| IdentCache.EarlierFirst | xsd-parser/src/models/ident_cache.rs:264-268 | what is reached from earlier dependencies comes before what is not |
| IdentCache.SearchComplete | xsd-parser/src/models/ident_cache.rs:250-272 | a search that shares the visited schemas of failed searches still finds a reachable match if there is one |
| IdentCache.VisitIsReachability | xsd-parser/src/models/ident_cache.rs:250-272 | the depth-first order lists exactly the reachable known schemas |
| IdentCache.VisitCovers | xsd-parser/src/models/ident_cache.rs:250-272 | visiting closes the visited set under dependencies |
| IdentCache.SchemaSetIter.constructor | xsd-parser/src/models/ident_cache.rs:297-309 | everything visible from the schema remains to be emitted |
| IdentCache.SchemaSetIter.Next | xsd-parser/src/models/ident_cache.rs:315-349 | emits the first remaining item whose key is new and leaves the others; terminates on every dependency graph |
| IdentCache.SchemaSetIter.Descend | xsd-parser/src/models/ident_cache.rs:335-346 | advancing the innermost dependency iterator changes no remaining item |
| IdentCache.SchemaSetIter.TakeType | xsd-parser/src/models/ident_cache.rs:319-334 | advancing the type iterator emits a type exactly if its key is new |
| IdentCache.CollectSet | xsd-parser/src/pipeline/interpreter/state/crate_node_cache.rs:353 | running the iterator to its end collects exactly the items visible from the schema whose key is new, in order |
| IdentCache.EmittedOnce | xsd-parser/src/models/ident_cache.rs:312-350 | each type and name of the reachable known schemas is emitted exactly once, attributed to the first schema of the order that has it |
| IdentCache.CollectedIff | xsd-parser/src/models/ident_cache.rs:312-350 | an identifier is collected if and only if the first schema of the order that has its kind and name holds it |
| IdentCache.IteratorAgreesWithSearch | xsd-parser/src/models/ident_cache.rs:250-272 | if the root is on no dependency cycle, that schema is the one the recursive search finds first |
| IdentCache.IteratorDiffersOnCycle | xsd-parser/src/models/ident_cache.rs:296-309 | a concrete cyclic graph on which the two differ |
| TraitInfos.TraitInfos.constructor | xsd-parser/src/pipeline/generator/state.rs:64-110 | all traits are those of the dynamic types; the direct ones are those no longer path leads to |
| TraitInfos.TraitInfos.CollectDerived | xsd-parser/src/pipeline/generator/state.rs:67-94 | each derived type, and the type behind a derived dynamic type, gets the base as a trait, and nothing else changes |
| TraitInfos.TraitInfos.ReduceAll | xsd-parser/src/pipeline/generator/state.rs:96-107 | direct traits are all traits without those of the second level |
| TraitInfos.TraitInfos.CollectTraits | xsd-parser/src/pipeline/generator/state.rs:112-127 | collects exactly what is reached at a depth above one; terminates on acyclic relations |
| TraitInfos.SameReachability | xsd-parser/src/pipeline/generator/state.rs:96-107 | the direct traits reach exactly what all traits reach |
| TraitInfos.DirectIsMinimal | xsd-parser/src/pipeline/generator/state.rs:96-107 | every relation with the same reachability has all direct traits as edges: the reduction is the least one |
| TraitInfos.TraitRelationExact | xsd-parser/src/pipeline/generator/state.rs:67-94 | the trait relation holds exactly the traits the types give |
| TraitInfos.TraitEdges | xsd-parser/src/pipeline/generator/state.rs:67-94 | each derived type has the base as a trait, and so has the type that a derived dynamic type stands for; there are no other traits |
| Relations.AboveShrinks | xsd-parser/src/pipeline/generator/state.rs:112-127 | less lies above whatever is higher up, unless it is above itself |
| FlattenUnions.FlatteningKeepsLeaves | xsd-parser/src/pipeline/optimizer/flatten_unions.rs:68-90 | the ordered leaves of every type, with display names, are the same before and after the whole in-place pass |
| FlattenUnions.NothingNested | xsd-parser/src/pipeline/optimizer/flatten_unions.rs:68-90 | afterwards no union contains another, and every rewritten one has only leaves as members |
| FlattenUnions.NestedIff | xsd-parser/src/pipeline/optimizer/flatten_unions.rs:52-60 | a union counts as nested if and only if another union is reached from it |
| FlattenUnions.FlattenedExactly | xsd-parser/src/pipeline/optimizer/flatten_unions.rs:37-63 | such a union becomes the union of its leaves, with its base and without facets; every other type stays as it is |
| FlattenUnions.FlatteningIsIdempotent | xsd-parser/src/pipeline/optimizer/flatten_unions.rs:68-90 | a second pass changes nothing |
| FlattenUnions.Optimizer.FlattenUnionImpl | xsd-parser/src/pipeline/optimizer/flatten_unions.rs:92-119 | adds exactly the leaves of the type, and the number of unions met |
| FlattenUnions.Optimizer.FlattenUnion | xsd-parser/src/pipeline/optimizer/flatten_unions.rs:37-63 | an error, or exactly the nested union replaced by the union of its leaves |
| FlattenUnions.Optimizer.FlattenUnions | xsd-parser/src/pipeline/optimizer/flatten_unions.rs:68-90 | whatever the order, every nested union ends up as the union of its original leaves; no error is unwrapped |
| FlattenUnions.FlattenUnionInfo.constructor | xsd-parser/src/pipeline/optimizer/flatten_unions.rs:8-11 | nothing collected yet |
| FlattenUnions.LeavesKept | xsd-parser/src/pipeline/optimizer/flatten_unions.rs:54-60 | rewriting some of the unions changes the leaves of no type |
| Unions.LeafBelow | xsd-parser/src/pipeline/optimizer/flatten_unions.rs:92-119 | each leaf is a known type that is neither a union nor a simple reference, reached from the union |
| Unions.ReachedIsLeaf | xsd-parser/src/pipeline/optimizer/flatten_unions.rs:92-119 | each known type that is reached and is neither a union nor a simple reference is the type of some leaf |
| UnionRoutes.LeavesInOrder | xsd-parser/src/pipeline/optimizer/flatten_unions.rs:92-119 | the leaves are the ends of all routes through unions and simple references, each once, in the order of the member positions taken, under the display name of the last member on the route |
| Unions.RewrittenAcyclic | xsd-parser/src/pipeline/optimizer/flatten_unions.rs:54-60 | rewriting unions keeps the union graph acyclic |
| EnumUnions.Optimizer.MergeEnumUnionImpl | xsd-parser/src/pipeline/optimizer/merge_enum_unions.rs:86-162 | the accumulator is what the leaves met so far are merged to, wherever it switches from a union to an enumeration |
| EnumUnions.Optimizer.SwitchToEnum | xsd-parser/src/pipeline/optimizer/merge_enum_unions.rs:103-124 | at the switch the leaves collected so far become deduplicated variants |
| EnumUnions.Optimizer.AddEnum | xsd-parser/src/pipeline/optimizer/merge_enum_unions.rs:103-136 | an enumeration adds its variants and turns the accumulator into an enumeration |
| EnumUnions.Optimizer.AddOther | xsd-parser/src/pipeline/optimizer/merge_enum_unions.rs:140-160 | any other leaf becomes a union member or a variant |
| EnumUnions.Optimizer.MergeEnumUnion | xsd-parser/src/pipeline/optimizer/merge_enum_unions.rs:36-57 | an error, no change without leaves, or the type its leaves are merged to |
| EnumUnions.Optimizer.MergeEnumUnions | xsd-parser/src/pipeline/optimizer/merge_enum_unions.rs:62-84 | whatever the order, every union ends up as what its original leaves are merged to, although the pass works in place |
| EnumUnions.MergeKept | xsd-parser/src/pipeline/optimizer/merge_enum_unions.rs:51-54 | merging some of the unions changes what no other is merged to |
| EnumUnions.MergingIsIdempotent | xsd-parser/src/pipeline/optimizer/merge_enum_unions.rs:62-84 | a second pass changes nothing |
| EnumUnions.MergedUnionsAreFlat | xsd-parser/src/pipeline/optimizer/merge_enum_unions.rs:62-84 | what is still a union afterwards has only leaves as members, none of them an enumeration |
| EnumUnions.MergedKind | xsd-parser/src/pipeline/optimizer/merge_enum_unions.rs:86-162 | leaves are merged to an enumeration if and only if one of them is an enumeration, otherwise to the union of just these leaves |
| EnumUnions.MergedIdents | xsd-parser/src/pipeline/optimizer/merge_enum_unions.rs:103-160 | a merged enumeration has, each once, exactly the identifiers of the variants of its enumerations and the names of its other leaves |
| EnumUnions.MergedVariant | xsd-parser/src/pipeline/optimizer/merge_enum_unions.rs:103-160 | type and display name of each merged variant come from a leaf that brings its identifier along |
| EnumVariants.FindOrInsert | xsd-parser/src/traits/vec_helper.rs:37-50 | the first position of the identifier, after appending the new item exactly if there is none |
| EnumVariants.InsertVariant | xsd-parser/src/pipeline/optimizer/merge_enum_unions.rs:130-135 | one more variant in a list without repetitions: renamed if known, appended if not |
| EnumVariants.DeduplicatedMeaning | xsd-parser/src/traits/vec_helper.rs:37-50 | each result has the type of the first and the display name of the last occurrence of its identifier |
| EnumVariants.DeduplicatedInOrder | xsd-parser/src/traits/vec_helper.rs:37-50 | the results are ordered by first occurrence |
| EnumVariants.DeduplicatedIdents | xsd-parser/src/traits/vec_helper.rs:37-50 | no identifier is repeated, and none is lost |
| EnumVariants.DeduplicatedAppend | xsd-parser/src/pipeline/optimizer/merge_enum_unions.rs:130-135 | parts of a list may be deduplicated beforehand without changing the result |

## Left out

- The parser, the resolvers, readers and writers of bytes, asynchronous reading, code rendering, naming and configuration are not modelled.
- Counts are naturals: the wrap-around of `usize` in sums and products of bounds is not modelled; the maximal recursion depth of flattening is the largest 64-bit value.
- Groups below a flattened content are finite trees (section 3.8.6 of XML Schema Part 1 excludes circular groups); the source recurses on circular ones until its depth limit.
- FlattenTheorems.FlattenLosesNoWord: asks that nested choices repeat no identifier, because the source sums their bounds; FlattenLimits states exactly what a repeated one costs. Of a sequence it asks the same; FlattenSequences says when that can be dropped.
- FlattenPass.FlattenAllLosesNoWord: asks that the contents of the other types are not among the groups below the content in question; where they are, words can be lost (FlattenPass.SharedContentLosesWord).
- FlattenSequences.SequencesKeepAllIff: is about sequences that are nested exactly once, in a content that occurs at most once. It asks that the leaves before the first nested sequence have no equal identifiers apart: these leaves are copied as they are, so that adjacency is not needed of them (SequenceCases.LeadingLeavesMayRepeat), and whether a later leaf of such an identifier costs a word then depends on the bounds. That grouped leaves suffice is proved without this (FlattenSequences.GroupedSequencesKeepWords).
- FlattenBounds.MovedBoundsAttained: asks that everything below may occur, that bounds are not contradictory, and that every choice has an alternative of at most one child; the source counts a choice as one child at most in its minimum. FlattenBounds.MinimumAttainedIff says when that costs the minimum of the content itself.
- ChoiceCardinality.MergeKeepsAllIff: the converse asks for a largest alternative that is a leaf with an identifier of its own; where only a nested group is repeated, it depends on the words of that group. The direction that no word is lost holds for all choices.
- Emptiable.ChildlessIff: asks for non-contradictory bounds, for groups where the elements refer to groups, and that an identifier stands for text elements or for children, not for both.
- Emptiable.EmptiableCanBeEmpty: a choice without alternatives is emptiable in the source although it accepts nothing; Emptiable.ChoiceRightIff covers it.
- The words of a content model list element declarations; whether a word determines its declarations (unique particle attribution) is not modelled.
- RemoveDuplicates.Optimizer.RemoveDuplicates: asks for acyclic simple references; a reference into a cycle of references can keep the loop running.
- RemoveDuplicates.Optimizer.FindEntry: looks through the entries one by one instead of by hash; that equal types hash alike is proved separately in TypeHash.
- Facets, forms, default values, documentation and namespaces in scope are plain text in the type graph; they are only compared.
- Optimizations that rest on maps of type definitions or base types (`resolve_typedefs`, `remove_duplicate_union_variants`, `use_unrestricted_base_type`) are not modelled.
- FlattenUnions.Optimizer.FlattenUnion: the facets of a rewritten union are dropped, as in the source; nothing is stated about the values they excluded.
- EnumUnions.Optimizer.MergeEnumUnion: the use of a variant is reset to its default, as in the source; nothing more is stated about it.
- Unions, traits and emptiable types ask for acyclic graphs, on which the recursion of the source ends: below the type in question for single types, everywhere for whole passes.
- Names, prefixes, namespaces and texts are strings without escaping and encoding; the tokenizer is an arbitrary input of events and errors. The resolver of the XML library is not part of this model: it is taken to reject redefined reserved names except for the default namespace, to record no binding for `xml`, and to treat an attribute `xmlns:` like `xmlns`.
- XmlFaithful.FaithfulRoundTrip: gives a sufficient condition that does not mention the stack of the writer; the exact condition does (XmlRoundTrip.RoundTripIff).
- XmlReader.DeserializeImpl.Deserialize: asks for an input on which reading ends; a reader without a root element runs on after the end of the file, which is not modelled.
- XmlRoundTrip.RoundTripIff: asks that attribute names are distinct, that none is `xmlns:`, and that no reserved name is redefined; on others the reader may report an error.
- The state of the reader after an error is not specified.
- Scopes of simple values of any type and of nillable values, `finish_vec`, and the typed serializers and deserializers that generated code contains are not modelled.
- The detection of loops between generated types is not modelled.
- `resolve_allow_unknown` is a match on the result of `resolve` and not modelled.
