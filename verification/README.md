# docfx API reference generation, modelled in Dafny

This project models three connected pieces of docfx's API-reference generation and proves properties about them.

1. **The reference-fragment merge engine** (`ReferenceItem.Merge` and its helpers). Two partial descriptions of one symbol are folded into one, in place:
   - the scalar fields are coalesced;
   - comment ids are merged under the `!:` error-sentinel rule;
   - the three per-language name projections are merged list by list and link by link.

   `reference_item.dfy` has one module, `ReferenceItems`. `ReferenceItem` is a class whose fields `Merge` reassigns. Each method is proved against a function that specifies the new state: `MergedState`, `MergedOptionalParts`, `MergedList`.
2. **Page assembly and the table of contents** (`DotnetApiDocs.ToYaml`). For each top-level type of an assembly it decides:
   - whether the type gets a page;
   - what the page holds, and in which order;
   - which table-of-contents entry the page adds;
   - how those entries are grouped and sorted.

   Modules, with the LINQ operators it uses as functions in `Sequences`:
   - `type_system.dfy` (`TypeSystem`): the input records;
   - `toc.dfy` (`Toc`): the table-of-contents grouping;
   - `api_docs.dfy` (`DotnetApiDocs`): the filter, the page builder, and the loop `ToYaml`;
   - `sequences.dfy` (`Sequences`): the LINQ operators.
3. **The reference page schema** (`reference.d.ts`). `schema.dfy` (`Schema`) models the inline runs, the six page components and the page as datatypes. Its predicates cover the Id character set and the two-layer limit on nested Sections.

`wrappers.dfy` holds `Option` and `Result`.

Formatter output (declarations, display names, jump-list signatures, formatted parameter types) comes from the decompiler's type system and the C# output visitors. So do parsed documentation comments. These are fields of the input records (`TypeSystem.TypeDefinition`, `TypeSystem.Member`, `TypeSystem.XmlComment`).

Culture-sensitive string ordering, used by `OrderBy` on namespaces and names, is a parameter `le`. Lemmas that need it to be a total order say so.

The files the tool writes are result values:
- `DotnetApiDocs.Output` holds the pages written, the last table of contents written, and the fault that aborted the run, if any.

### Behaviour worth knowing

**Merge engine (`ReferenceItem.cs`)**
- Lines 106-108: on a scalar conflict the **incoming** value wins (`source ?? target` with `source = other`). The conflict is only `Debug.Assert`ed, so release builds keep it silently.
- Line 139: projection lists of unequal length are left untouched, silently in release builds.
- Merging an item with a copy of itself is not a no-op in every case. A definition item whose comment id is an unresolved `!:` sentinel loses that id: `MergeWithCopy`, `MergeWithCopyClearsSentinel`.

**Page assembly and table of contents (`DotnetApiDocs.cs`)**
- Jump lists are in declaration order, not sorted: `MethodsListedInOrder`.
- A page has no per-member detail sections, and a delegate's page has no return block: `DelegateSections`.
- Type Parameters come after Remarks, inside the kind's content (lines 146 and 179).
- Label groups follow the declaration order of `TypeLabel` (line 19), so Structs come before Enums: `StructsBeforeEnums`.
- Entries with the same name keep the order in which they were collected, because `OrderBy` is stable: `SameNameKeepsCollectionOrder`.
- A public `FunctionPointer` type passes the filter, because its label is `Delegates`. `DumpPage` then throws on it: `FunctionPointerAborts`.
- A public delegate without a documentation comment makes `DumpDelegate` throw NullReferenceException (line 180), which ends the run. The page builder `PageFor` and the loop `ToYaml` model this as written: `UndocumentedDelegateAbortsRun`. The corrected builder `PageForCorrected` is the same except on exactly those delegates: `PagesDiffer`, `RunsAgreeWithoutUndocumentedDelegates`. See "## Findings".

**Page schema (`reference.d.ts`)**
- The Id regular expression on line 3 has no anchors. The model reads it as a whole-string match. Under that reading, the page id of a generic type (full type name with a `` ` `` arity mark) is not a valid Id: `GenericPageIllFormed`.

## Model

| member | source | states |
|---|---|---|
| ReferenceItems.Coalesce | src/Microsoft.DocAsCode.Metadata.ManagedReference.Common/Models/ReferenceItem.cs:69-79 | `source ?? target`: the incoming value when present, otherwise the existing one; null only if both are null |
| ReferenceItems.IsResolved | src/Microsoft.DocAsCode.Metadata.ManagedReference.Common/Models/ReferenceItem.cs:83-84 | a comment id is resolved when present and not starting with `!:` (ordinal); defines the cases of `MergeCommentId` |
| ReferenceItems.CoalesceCommutesWhenAgreeing | src/Microsoft.DocAsCode.Metadata.ManagedReference.Common/Models/ReferenceItem.cs:69-79 | when the two sides agree (the asserted condition), the order of coalescing does not matter |
| ReferenceItems.CoalesceAssociative | src/Microsoft.DocAsCode.Metadata.ManagedReference.Common/Models/ReferenceItem.cs:69-79 | coalescing is associative, so fragments can be folded in any grouping |
| ReferenceItems.MergeCommentId | src/Microsoft.DocAsCode.Metadata.ManagedReference.Common/Models/ReferenceItem.cs:81-98 | both ids resolved: the incoming one; exactly one resolved: that one; neither resolved: null. The result is null or resolved |
| ReferenceItems.MergeCommentIdExamples | src/Microsoft.DocAsCode.Metadata.ManagedReference.Common/Models/ReferenceItem.cs:81-98 | `("!:x","C1")` gives `"C1"`, `("!:x","!:y")` gives null, a resolved incoming id beats a resolved existing one, a null id counts as unresolved |
| ReferenceItems.MergeCommentIdCommutes | src/Microsoft.DocAsCode.Metadata.ManagedReference.Common/Models/ReferenceItem.cs:81-98 | unless both ids are resolved and differ, the argument order does not matter |
| ReferenceItems.CombineLink | src/Microsoft.DocAsCode.Metadata.ManagedReference.Common/Models/ReferenceItem.cs:143-145 | one step of the per-index loop: name and display name kept, the external flag is the AND of both, an existing href is kept, otherwise the incoming one is taken |
| ReferenceItems.MergedList | src/Microsoft.DocAsCode.Metadata.ManagedReference.Common/Models/ReferenceItem.cs:127-147 | an empty incoming list is skipped; an empty existing list takes the incoming items; unequal lengths leave the list untouched; equal lengths keep length, names and display names, AND the external flags, and keep an existing href, otherwise taking the incoming one |
| ReferenceItems.MergeLists | src/Microsoft.DocAsCode.Metadata.ManagedReference.Common/Models/ReferenceItem.cs:127-147 | the per-index loop over the existing list produces exactly `MergedList` |
| ReferenceItems.MergedListIdempotent | src/Microsoft.DocAsCode.Metadata.ManagedReference.Common/Models/ReferenceItem.cs:139-146 | merging a list with itself leaves it unchanged |
| ReferenceItems.MergedListCommutes | src/Microsoft.DocAsCode.Metadata.ManagedReference.Common/Models/ReferenceItem.cs:137-146 | for congruent lists (same names, hrefs that agree), or when one side is empty, the list merge is order-independent |
| ReferenceItems.MergedListAssociative | src/Microsoft.DocAsCode.Metadata.ManagedReference.Common/Models/ReferenceItem.cs:137-146 | for pairwise compatible lists, merging three fragments in either grouping gives the same list |
| ReferenceItems.MergedParts | src/Microsoft.DocAsCode.Metadata.ManagedReference.Common/Models/ReferenceItem.cs:120-154 | the merged map has the languages of both sides; a language only in `self` keeps its list; a language only in `other` is added with `other`'s list; a shared language gets `MergedList` |
| ReferenceItems.MergedOptionalParts | src/Microsoft.DocAsCode.Metadata.ManagedReference.Common/Models/ReferenceItem.cs:118-159 | if either map is null the result is `self ?? other`, otherwise the merged map |
| ReferenceItems.MergeParts | src/Microsoft.DocAsCode.Metadata.ManagedReference.Common/Models/ReferenceItem.cs:118-160 | the loop over the incoming map (merge an existing key, add a new one) produces exactly `MergedOptionalParts`, whatever order the keys are visited in |
| ReferenceItems.MergedPartsIdempotent | src/Microsoft.DocAsCode.Metadata.ManagedReference.Common/Models/ReferenceItem.cs:120-154 | merging a map with itself leaves it unchanged |
| ReferenceItems.MergedPartsCommute | src/Microsoft.DocAsCode.Metadata.ManagedReference.Common/Models/ReferenceItem.cs:120-154 | when the lists of the shared languages are compatible, the map merge is order-independent |
| ReferenceItems.MergedOptionalPartsCommute | src/Microsoft.DocAsCode.Metadata.ManagedReference.Common/Models/ReferenceItem.cs:118-159 | the same, for possibly-null maps |
| ReferenceItems.MergedLanguages | src/Microsoft.DocAsCode.Metadata.ManagedReference.Common/Models/ReferenceItem.cs:118-159 | after a merge a slot holds exactly the languages of both sides |
| ReferenceItems.EmptySideYieldsOther | src/Microsoft.DocAsCode.Metadata.ManagedReference.Common/Models/ReferenceItem.cs:127-135 | for a shared language where one side's list is empty, the result is the other side's list |
| ReferenceItems.CloneList | src/Microsoft.DocAsCode.Metadata.ManagedReference.Common/Models/ReferenceItem.cs:63 | the copied list holds equal LinkItems in the same order |
| ReferenceItems.CloneParts | src/Microsoft.DocAsCode.Metadata.ManagedReference.Common/Models/ReferenceItem.cs:55-66 | null stays null; otherwise the copy maps every language to an equal list |
| ReferenceItems.MergedState | src/Microsoft.DocAsCode.Metadata.ManagedReference.Common/Models/ReferenceItem.cs:100-116 | the scalars take the incoming value when present; the comment id is merged only if the item is a definition after that, and is otherwise unchanged; each of the three slots is merged with `MergedOptionalParts` |
| ReferenceItems.MergeWithCopy | src/Microsoft.DocAsCode.Metadata.ManagedReference.Common/Models/ReferenceItem.cs:100-116 | merging a state with itself changes only one thing: a definition's unresolved comment id becomes null |
| ReferenceItems.MergeWithCopyClearsSentinel | src/Microsoft.DocAsCode.Metadata.ManagedReference.Common/Models/ReferenceItem.cs:109-112 | a definition carrying `"!:T:X"` is not a fixed point of merging with its copy |
| ReferenceItems.MergedStateCommutes | src/Microsoft.DocAsCode.Metadata.ManagedReference.Common/Models/ReferenceItem.cs:100-116 | for fragments without conflicts, merge order does not matter, provided the result is a definition or the comment ids are equal |
| ReferenceItems.MergePreservesParallelSlots | src/Microsoft.DocAsCode.Metadata.ManagedReference.Common/Models/ReferenceItem.cs:114-116 | if the three slots of both sides hold the same languages, so do the merged slots |
| ReferenceItems.ReferenceItem.constructor | src/Microsoft.DocAsCode.Metadata.ManagedReference.Common/Models/ReferenceItem.cs:17-45 | a new item has every property null |
| ReferenceItems.ReferenceItem.Clone | src/Microsoft.DocAsCode.Metadata.ManagedReference.Common/Models/ReferenceItem.cs:47-53 | the clone is a new object whose fields equal the original's, maps copied list by list |
| ReferenceItems.ReferenceItem.Merge | src/Microsoft.DocAsCode.Metadata.ManagedReference.Common/Models/ReferenceItem.cs:100-116 | a null `other` yields ArgumentNullException and changes nothing; otherwise nothing is thrown and the new state is `MergedState(old state, other's state)` |
| ReferenceItems.MergeWithOwnClone | src/Microsoft.DocAsCode.Metadata.ManagedReference.Common/Models/ReferenceItem.cs:47-53 | `item.Merge(item.Clone())` leaves every field as it was, except a definition's unresolved comment id, which becomes null |
| Schema.ValidIdRejects | cli/src/reference.d.ts:1-5 | a string containing a character outside `[a-zA-Z0-9-_.@/]` is not a valid Id |
| Schema.ValidId | cli/src/reference.d.ts:1-5 | an Id is a non-empty string over `[a-zA-Z0-9-_.@/]`; see `ValidIdRejects`, `PageWellFormedIff` |
| Schema.HighlightLanguage | cli/src/reference.d.ts:80-87 | a Declaration is highlighted in its own language if it has one, otherwise in the page's |
| Schema.SectionsWithin | cli/src/reference.d.ts:65-72 | a component holds Sections at most the given number of layers deep; see `ThreeLayersIllFormed`, `TwoLayersWellFormed` |
| Schema.WellFormed | cli/src/reference.d.ts:65-72 | Sections nest at most two layers; see `ThreeLayersIllFormed`, `TwoLayersWellFormed`, `PageComponentsWellFormed` |
| Schema.WellFormedPage | cli/src/reference.d.ts:40-61 | a page is well formed when its id is a valid Id, every component is well formed, and every key/value record has each key once: the page metadata, every `Fact` component at any depth, and every parameter row's `fact` (`Schema.FactsKeyed`); see `PageWellFormedIff` |
| Schema.ThreeLayersIllFormed | cli/src/reference.d.ts:65-72 | a Section inside a Section inside a Section is ill formed, whatever the innermost holds |
| Schema.TwoLayersWellFormed | cli/src/reference.d.ts:65-72 | a Section whose children nest at most one layer is well formed |
| Sequences.Distinct | src/docfx/dotnet/DotnetApiDocs.cs:235-238 | the `GroupBy` keys: no key twice, and exactly the keys of the input |
| Sequences.DistinctInOrder | src/docfx/dotnet/DotnetApiDocs.cs:235-238 | the `GroupBy` keys come out in order of first appearance: a key before another first occurs in the input before the other's first occurrence |
| Sequences.Where | src/docfx/dotnet/DotnetApiDocs.cs:151-153 | `Where` keeps only elements satisfying the predicate, never more than the input |
| Sequences.WhereMultiset | src/docfx/dotnet/DotnetApiDocs.cs:151-153 | `Where` keeps every occurrence that satisfies the predicate, and no other |
| Sequences.WhereAppend | src/docfx/dotnet/DotnetApiDocs.cs:151-153 | `Where` distributes over concatenation |
| Sequences.InsertBy | src/docfx/dotnet/DotnetApiDocs.cs:235-240 | inserts one element, which lands in front or after the old head; see `InsertByMultiset`, `InsertBySorted`, `InsertByWhere` |
| Sequences.SortBy | src/docfx/dotnet/DotnetApiDocs.cs:235-240 | `OrderBy`: the output has the input's length; `SortByMultiset`, `SortBySorted` and `SortByStable` make it a stable sort |
| Sequences.SortByMultiset | src/docfx/dotnet/DotnetApiDocs.cs:235-240 | `OrderBy` permutes its input |
| Sequences.SortBySorted | src/docfx/dotnet/DotnetApiDocs.cs:235-240 | under a total order, `OrderBy`'s output is sorted |
| Sequences.SortByStable | src/docfx/dotnet/DotnetApiDocs.cs:240 | `OrderBy` is stable: elements the comparison cannot tell apart come out in the order they went in |
| Sequences.SortByNoDuplicates | src/docfx/dotnet/DotnetApiDocs.cs:235-238 | sorting distinct keys keeps them distinct |
| Sequences.SortByMembers | src/docfx/dotnet/DotnetApiDocs.cs:235-240 | sorting neither adds nor drops an element |
| Sequences.GroupsPartition | src/docfx/dotnet/DotnetApiDocs.cs:235-240 | grouping by distinct keys that cover every element puts each element in exactly one group |
| Toc.EntryLinks | src/docfx/dotnet/DotnetApiDocs.cs:240 | one `{name, href}` link per entry, in order |
| Toc.LabelGroups | src/docfx/dotnet/DotnetApiDocs.cs:238-240 | one group per label key, each holding the entries with that label sorted by name; see `LabelGroupsKeys` |
| Toc.GroupByLabel | src/docfx/dotnet/DotnetApiDocs.cs:238-240 | the label groups of a namespace; see `LabelGroupsOrdered`, `GroupByLabelPartitions` |
| Toc.NamespaceGroups | src/docfx/dotnet/DotnetApiDocs.cs:235-238 | one group per namespace key, holding that namespace's label groups; see `NamespaceGroupsKeys` |
| Toc.GroupToc | src/docfx/dotnet/DotnetApiDocs.cs:235-240 | the whole grouping; see `NamespacesAscending`, `GroupTocPartitions` |
| Toc.RenderGroups | src/docfx/dotnet/DotnetApiDocs.cs:238-240 | each label group rendered as its label marker followed by its links; see `RenderGroupsLinks` |
| Toc.RenderToc | src/docfx/dotnet/DotnetApiDocs.cs:234-241 | one rendered namespace per group, with the group's namespace as name |
| Toc.BuildToc | src/docfx/dotnet/DotnetApiDocs.cs:232-241 | the table of contents written for the collected entries; see `BuildTocLinksEveryEntry` |
| Toc.NamespacesAscending | src/docfx/dotnet/DotnetApiDocs.cs:235 | the table's namespaces are those of the entries, each once, in ascending order |
| Toc.LabelGroupsAscending | src/docfx/dotnet/DotnetApiDocs.cs:19 | within a namespace the label groups strictly follow `TypeLabel`'s declaration order |
| Toc.LabelGroupsCover | src/docfx/dotnet/DotnetApiDocs.cs:238 | every label present in a namespace has a group |
| Toc.LabelGroupSorted | src/docfx/dotnet/DotnetApiDocs.cs:240 | a label group's entries carry its label and are sorted by name |
| Toc.SameNameKeepsCollectionOrder | src/docfx/dotnet/DotnetApiDocs.cs:240 | within a label group, entries with the same name keep the order in which they were collected |
| Toc.LabelGroupsOrdered | src/docfx/dotnet/DotnetApiDocs.cs:238-240 | the three properties above together, for one namespace |
| Toc.GroupByLabelPartitions | src/docfx/dotnet/DotnetApiDocs.cs:238-240 | together, a namespace's label groups hold exactly its entries |
| Toc.GroupTocPartitions | src/docfx/dotnet/DotnetApiDocs.cs:235-240 | the whole grouping holds a permutation of the collected entries |
| Toc.RenderGroupsLinks | src/docfx/dotnet/DotnetApiDocs.cs:238-240 | a namespace's rendered items hold one link per grouped entry, in group order; everything else is a label marker |
| Toc.RenderTocLinks | src/docfx/dotnet/DotnetApiDocs.cs:235-241 | the table's links, namespace after namespace, are those of the grouped entries |
| Toc.EntryLinksPermutation | src/docfx/dotnet/DotnetApiDocs.cs:240 | permuted entries have permuted links |
| Toc.BuildTocLinksEveryEntry | src/docfx/dotnet/DotnetApiDocs.cs:232-241 | the table links every collected entry exactly once: its links are those of a permutation of the entries, so as a multiset they are the entries' own links |
| Toc.StructsBeforeEnums | src/docfx/dotnet/DotnetApiDocs.cs:19 | an Enums entry collected before a Structs entry still lists after it |
| DotnetApiDocs.Label | src/docfx/dotnet/DotnetApiDocs.cs:76-84 | Class, Interface, Enum and Struct get their own labels; Delegate and FunctionPointer share Delegates; every other kind, and only those, gets None |
| DotnetApiDocs.ShouldIgnoreType | src/docfx/dotnet/DotnetApiDocs.cs:122-131 | non-public types, `<Module>`, `GeneratedInternalTypeHelper` and anything in `XamlGeneratedNamespace` are ignored; see `EmittedExactly` |
| DotnetApiDocs.Emitted | src/docfx/dotnet/DotnetApiDocs.cs:86-87 | the loop goes on to build a page exactly for labelled types that are not ignored; see `EmittedExactly` |
| DotnetApiDocs.EmittedExactly | src/docfx/dotnet/DotnetApiDocs.cs:86-87 | a page is built for exactly the public types of a labelled kind that are not named `<Module>` or `GeneratedInternalTypeHelper` and not in `XamlGeneratedNamespace` |
| DotnetApiDocs.TryGetValue | src/docfx/dotnet/DotnetApiDocs.cs:290-293 | null for a null dictionary or a missing key, otherwise the stored value |
| DotnetApiDocs.TypeParametersSection | src/docfx/dotnet/DotnetApiDocs.cs:218-230 | no section without type parameters; otherwise one parameter list with a row per type parameter, in order, described from the `typeparam` docs |
| DotnetApiDocs.ParameterListSection | src/docfx/dotnet/DotnetApiDocs.cs:201-216 | no section without parameters; otherwise a row per parameter, in order, with its formatted type and its `param` description |
| DotnetApiDocs.JumplistSection | src/docfx/dotnet/DotnetApiDocs.cs:185-199 | no section for an empty group; otherwise a row per member in declaration order (unsorted): signature and summary |
| DotnetApiDocs.TextListSection | src/docfx/dotnet/DotnetApiDocs.cs:107-108 | the Examples (and See also) section is present exactly when the list is present and non-empty, one text block per entry |
| DotnetApiDocs.RemarksSection | src/docfx/dotnet/DotnetApiDocs.cs:110-111 | the Remarks section is present exactly when the remarks are neither null nor empty |
| DotnetApiDocs.EnumBody | src/docfx/dotnet/DotnetApiDocs.cs:159-175 | no content without static fields; otherwise one "Fields" parameter list with a row per static field, its constant value as default |
| DotnetApiDocs.ClassLikeGroups | src/docfx/dotnet/DotnetApiDocs.cs:148-154 | the seven jump-list groups in the order `DumpClassLike` adds them; see `ClassLikeGroupOrder` |
| DotnetApiDocs.Jumplists | src/docfx/dotnet/DotnetApiDocs.cs:185-199 | one `AddJumplist` per group: never more sections than groups, each a non-empty list section |
| DotnetApiDocs.ClassLikeBody | src/docfx/dotnet/DotnetApiDocs.cs:144-157 | type parameters, then the jump lists of the seven groups; see `ClassLikeSections` |
| DotnetApiDocs.InvokeMethod | src/docfx/dotnet/DotnetApiDocs.cs:180 | `First(m => m.Name == "Invoke")`: the first method named Invoke, or none when no method has that name |
| DotnetApiDocs.DelegateBodyAsWritten | src/docfx/dotnet/DotnetApiDocs.cs:177-183 | without an Invoke method it fails with NoInvokeMethod; with one but without a doc comment it fails with NullReference; otherwise it succeeds |
| DotnetApiDocs.DelegateBody | src/docfx/dotnet/DotnetApiDocs.cs:177-183 | with `comment?.param`, the delegate content is built exactly when an Invoke method exists |
| DotnetApiDocs.DelegateBodyAgrees | src/docfx/dotnet/DotnetApiDocs.cs:177-183 | for a documented delegate the corrected body is the one the code builds |
| DotnetApiDocs.UndocumentedDelegateAborts | src/docfx/dotnet/DotnetApiDocs.cs:180 | an undocumented delegate with an Invoke method aborts as written and gets a page when corrected |
| DotnetApiDocs.KindBody | src/docfx/dotnet/DotnetApiDocs.cs:133-142 | as written: class, struct and interface get the class-like content, enums the enum content, delegates `DumpDelegate` as written (so an undocumented delegate fails with NullReference); any other kind fails with NotSupported naming the kind |
| DotnetApiDocs.KindBodyCorrected | src/docfx/dotnet/DotnetApiDocs.cs:133-142 | the same with the corrected `DumpDelegate`: delegates get `DelegateBody`, every other kind the content as written |
| DotnetApiDocs.KindBodiesDiffer | src/docfx/dotnet/DotnetApiDocs.cs:177-183 | the two versions differ exactly on undocumented delegates with an Invoke method, where the code as written fails with NullReference and the corrected one succeeds |
| DotnetApiDocs.AssemblyName | src/docfx/dotnet/DotnetApiDocs.cs:101 | the module name followed by ".dll", or just ".dll" when there is no module |
| DotnetApiDocs.PageFor | src/docfx/dotnet/DotnetApiDocs.cs:92-116 | as written: a page is built exactly when the kind's content can be; otherwise it fails with that content's fault |
| DotnetApiDocs.PageForCorrected | src/docfx/dotnet/DotnetApiDocs.cs:92-116 | the page with the corrected `DumpDelegate`: built exactly when the corrected kind content can be |
| DotnetApiDocs.PagesDiffer | src/docfx/dotnet/DotnetApiDocs.cs:177-183 | the corrected page equals the page as written on every type except undocumented delegates with an Invoke method, which fail with NullReference as written and get a page when corrected |
| DotnetApiDocs.PageBody | src/docfx/dotnet/DotnetApiDocs.cs:105-116 | the body opens with the declaration and adds at most the three comment sections around the kind's content; see `PageBodyOrder` |
| DotnetApiDocs.ClassLikeGroupOrder | src/docfx/dotnet/DotnetApiDocs.cs:148-154 | the member groups come in the fixed order Constructors, Fields, Properties, Methods, Operators, Explicit Interface Implementations, Events |
| DotnetApiDocs.JumplistsSections | src/docfx/dotnet/DotnetApiDocs.cs:185-188 | a group adds a section exactly when it has members, in group order |
| DotnetApiDocs.ClassLikeSections | src/docfx/dotnet/DotnetApiDocs.cs:144-157 | class-like content is Type Parameters when there are any, then one section per non-empty member group in the fixed order; every section is a non-empty list |
| DotnetApiDocs.MethodsListedInOrder | src/docfx/dotnet/DotnetApiDocs.cs:151 | the i-th ordinary method is the i-th row of the Methods jump list, so jump lists are not sorted |
| DotnetApiDocs.DelegateSections | src/docfx/dotnet/DotnetApiDocs.cs:177-183 | a delegate's content is Type Parameters and Parameters, each only if non-empty; there is no return block |
| DotnetApiDocs.KindBodyShape | src/docfx/dotnet/DotnetApiDocs.cs:133-142 | any kind's content is made of non-empty list sections under the kind headers only |
| DotnetApiDocs.PageBodyOrder | src/docfx/dotnet/DotnetApiDocs.cs:105-116 | the body opens with the declaration, then Examples and Remarks if non-empty, then the kind's content, then See also if non-empty |
| DotnetApiDocs.CommentSectionsIff | src/docfx/dotnet/DotnetApiDocs.cs:107-116 | Examples, Remarks and See also each appear on the page exactly when the comment has them |
| DotnetApiDocs.PageHeader | src/docfx/dotnet/DotnetApiDocs.cs:92-103 | id is the full type name, language "csharp", title is name plus kind, summary from the comment; exactly the two facts Namespace and Assembly |
| DotnetApiDocs.DeclarationHighlightedAsCSharp | src/docfx/dotnet/DotnetApiDocs.cs:105 | the declaration that opens a page carries no language of its own, so it is highlighted in the page's language, "csharp" |
| DotnetApiDocs.PageComponentsWellFormed | src/docfx/dotnet/DotnetApiDocs.cs:105-116 | every component of a built page nests Sections at most one layer deep (`SectionsWithin(c, 1)`), so within the schema's two, and holds no `Fact` and no parameter row with facts, so no repeated key |
| DotnetApiDocs.PageWellFormedIff | src/docfx/dotnet/DotnetApiDocs.cs:94 | a built page is well formed exactly when the full type name is a valid Id |
| DotnetApiDocs.GenericPageIllFormed | src/docfx/dotnet/DotnetApiDocs.cs:94 | the page of a type whose full name contains a generic arity mark is ill formed |
| DotnetApiDocs.FunctionPointerAborts | src/docfx/dotnet/DotnetApiDocs.cs:135-141 | a public function-pointer type passes the filter and then fails with NotSupported |
| DotnetApiDocs.Run | src/docfx/dotnet/DotnetApiDocs.cs:74-120 | the loop adds exactly one table-of-contents entry per page written, for any page builder |
| DotnetApiDocs.TocEntryFor | src/docfx/dotnet/DotnetApiDocs.cs:120 | the entry `(namespace, label, name, "{FullTypeName}.yml")` added after a page is written; see `RunEmitsEachType` |
| DotnetApiDocs.Step | src/docfx/dotnet/DotnetApiDocs.cs:74-120 | one iteration never retracts what was written, adds a page exactly when it adds an entry, at most one of each, and does nothing once a fault has been raised |
| DotnetApiDocs.FaultIsFinal | src/docfx/dotnet/DotnetApiDocs.cs:140 | once a fault is raised, the remaining types change nothing |
| DotnetApiDocs.TocFile | src/docfx/dotnet/DotnetApiDocs.cs:232-241 | a table of contents exists exactly when at least one page was written |
| DotnetApiDocs.ToYamlResult | src/docfx/dotnet/DotnetApiDocs.cs:21-242 | the table of contents exists exactly when a page was written, and then it has one link per page |
| DotnetApiDocs.ToYaml | src/docfx/dotnet/DotnetApiDocs.cs:21-242 | the loop, which stops at the first fault, leaves exactly the pages, table of contents and fault of `ToYamlResult`, the run of the page builder as written |
| DotnetApiDocs.AssemblePage | src/docfx/dotnet/DotnetApiDocs.cs:92-183 | appending the parts to the body in the code's order, a delegate throwing at `First` without Invoke and at `comment.param` without a comment, gives the page or fault `PageFor` describes |
| DotnetApiDocs.RunEmitsEachType | src/docfx/dotnet/DotnetApiDocs.cs:74-120 | a run without faults writes one page per emitted type, in order, with one matching table-of-contents entry each; other types leave no trace |
| DotnetApiDocs.RunFaultsAtFirstFailure | src/docfx/dotnet/DotnetApiDocs.cs:74-120 | a run with a fault stops at an emitted type whose page cannot be built, keeping what was written before it |
| DotnetApiDocs.RunsAgree | src/docfx/dotnet/DotnetApiDocs.cs:74-120 | two page builders that agree on every emitted type give the same run |
| DotnetApiDocs.RunsAgreeWithoutUndocumentedDelegates | src/docfx/dotnet/DotnetApiDocs.cs:177-183 | when no emitted type is an undocumented delegate, the run as written is the corrected run |
| DotnetApiDocs.UndocumentedDelegateAbortsRun | src/docfx/dotnet/DotnetApiDocs.cs:180 | one emitted undocumented delegate with an Invoke method anywhere in the module makes the run as written end in a fault |
| DotnetApiDocs.UndocumentedDelegateRun | src/docfx/dotnet/DotnetApiDocs.cs:180 | a module whose only type is such a delegate: as written no page, no table of contents and a NullReference fault; corrected, one page and no fault |
| DotnetApiDocs.TocListsEveryPage | src/docfx/dotnet/DotnetApiDocs.cs:120 | after a run without faults, the table of contents' links are, up to order, exactly one `{name, href}` link per emitted type, and its namespaces ascend |

## Left out

- Aliasing in the merge engine is not modelled. LinkItems, their lists and the per-language SortedLists are values. In the code:
  - `self.Add(pair.Key, pair.Value)`, `AddRange` and `self ?? other` share list and LinkItem objects between the two items;
  - a later in-place update of a shared LinkItem also changes `other`.
- The iteration order of the SortedList is not modelled. `MergeParts` visits keys in any order; each step touches only its own key, so the result is the same.
- Null entries in the merge engine are not modelled: the model's lists and LinkItems are values and cannot be null. In the code:
  - a null list in a per-language SortedList makes `MergeParts` throw when it reads `sourceParts.Count` or `targetParts.Count` (`ReferenceItem.cs` lines 127-131);
  - a null LinkItem in such a list makes `CloneParts` throw when it calls `x.Clone()` (`ReferenceItem.cs` line 63).
- SyntaxLanguage is modelled as its ordinal.
- The `Debug.Assert` checks in `ReferenceItem.cs` do nothing in a release build. Their conditions (`Agree`, `Congruent`, `Compatible`) appear only as lemma preconditions.
- The decompiler, Roslyn and the C# output visitors are not modelled (`FormatCSharpDeclaration`, `FormatCSharpType`, `RemoveAttribute`, the name ambiences; SymbolFormatter.cs is not part of this model). Their output strings are fields of the input records.
- Documentation comments are not parsed; XmlComment.cs is not part of this model. The parsed comment, or its absence, is a field of the type. A member's summary is a field of the member.
- File and YAML output is not modelled:
  - creating the output directory;
  - the `#YamlMime:Reference` header;
  - serialisation, and the omission of default values;
  - file names (`{FullTypeName}.yml`, `TOC.yml`).

  A page's file name is its id plus ".yml".
- The table of contents is written again after every emitted page. The model keeps only the last version written. After a fault this is the version for the pages written before it.
- Culture-sensitive string comparison is the parameter `le`. Only the lemmas that need a total order require one.
- The text of exception messages is not modelled. NotSupported carries only the kind's name.
- Exceptions raised inside the decompiler, the formatters or the XML loader are not modelled.
- Each member list (constructors, fields, properties, methods, events) holds the type's own members, as returned with `IgnoreInheritedMembers`. `methods` also stands for `type.Methods` when looking for Invoke.
- ReferencePage.cs has a `fact` property; it fills the page's `metadata` slot.
- Schema deviations from `reference.d.ts`:
  - Jump-list and parameter descriptions and a Declaration's `languageId` are optional, because the assembler can emit them as null or leave them out.
  - `deprecated` on rows is `false`, which the serialiser omits.
- `renderHtml.ts`, `docfx.ts`, `Program.cs` and the test files are not part of this model.

## Findings

| source | as written | input that shows it | evidently intended | confidence | as-written member | corrected member |
|---|---|---|---|---|---|---|
| src/docfx/dotnet/DotnetApiDocs.cs:180 | `DumpDelegate` passes `comment.param` with no null check | a public delegate with an `Invoke` method and no documentation comment (`comment` is null) throws NullReferenceException and aborts the whole run | `comment?.param`, like `comment?.typeparam` on line 179: the parameters are listed without descriptions | high; not executed | DotnetApiDocs.DelegateBodyAsWritten, DotnetApiDocs.UndocumentedDelegateAborts, DotnetApiDocs.UndocumentedDelegateAbortsRun | DotnetApiDocs.DelegateBody, DotnetApiDocs.PageForCorrected |
