# kofedev engine: the node tree, the language registry and the descriptor matrix

This project is a Dafny model of the consistency core of the kofedev "engine" content service.
The service keeps three kinds of records:
- **nodes**: topics arranged in a tree by a parent reference;
- **languages**: localizations carrying the flags `initial`, `bydefault` and `active`;
- **descriptors**: the localized texts of one (node, language) pair.

The model is one `Storage.Store` object. It holds an id-keyed map per record kind, as the
repositories do, and an id sequence per kind. The services are methods that change the store in
place, with one module per Java class:
- `NodeService`, `LanguageService`, `DescriptorService`: the services.
- `NodeEntity`, `LanguageEntity`: the link helpers of the entities.
- `LanguageController`: the request guards of the language endpoints.

The references that persist are the owning sides of the JPA relations: a node's parent, and a
descriptor's node and language. A node's children and a node's or language's descriptors are
derived from them (`Tree.ChildrenOf`, `Matrix.DescriptorsOf`, `Matrix.DescriptorsIn`).

Every service operation and endpoint keeps the invariant `Store.Valid()`, with these exceptions:
- `DescriptorService.CreateNewDescriptorForLanguage` keeps only the id part. It is called only
  inside the two expansion loops, and the descriptor it stores has no node until the loop's next
  step links it.
- The `NodeEntity`/`LanguageEntity` link helpers state how the links change and make no claim
  about the invariant.

The invariant says:
- every stored id was issued by its sequence;
- every parent reference resolves, and the parent relation is acyclic. A ghost rank witnesses
  this, and `Tree.RankedHasNoCycle` turns it into "no parent chain revisits a node".
- every descriptor links a live node and a live language, and no two descriptors share a pair;
- at most one language is the default, the default is active, and at most one language is
  initial.

Density is kept separately: `Store.Complete()` says every (node, language) pair has its
descriptor. Every operation keeps it except the as-written first-language initialisation and the
init endpoint that calls it (see Findings).

A status message (`msg`) is a sequence of `Entities.Reason` tokens. Each service returns it,
with the record id and the `done` flag, in an `Entities.Outcome`. A `null` result is `None`.

## Model

| member | source | states |
|---|---|---|
| Registry.ActiveIds | src/main/java/dev/kofe/engine/language/LanguageRepo.java:9 | `findByActive(true)` yields exactly the active languages |
| Registry.LowestId | src/main/java/dev/kofe/engine/language/LanguageRepo.java:7 | `findTopByOrderByIdAsc` yields a stored id no larger than any other stored id |
| Registry.DefaultLanguage | src/main/java/dev/kofe/engine/language/LanguageRepo.java:8 | `findByBydefault(true)` yields a language flagged default, or nothing when no language is flagged |
| Tree.RankedHasNoCycle | src/main/java/dev/kofe/engine/node/Node.java:15-19 | a ranked parent relation never leads a node back to itself along its parent chain |
| Tree.OnChainIsReachability | src/main/java/dev/kofe/engine/node/NodeServiceImpl.java:73-96 | the ancestor walk meets node a from x exactly when some ancestor of x, at some distance, is a |
| Tree.RelocationTestIsCycleTest | src/main/java/dev/kofe/engine/node/NodeServiceImpl.java:73-96 | the walk refuses moving n under an existing d exactly when the move would create a cycle |
| Tree.RefusedRelocationWouldCycle | src/main/java/dev/kofe/engine/node/NodeServiceImpl.java:136-142 | moving n under itself or under one of its descendants would make a cycle |
| Tree.RelocationKeepsRanking | src/main/java/dev/kofe/engine/node/NodeServiceImpl.java:130-133 | a permitted move keeps the parent relation resolvable and acyclic, with the moved subtree lifted in rank |
| Tree.RemovingSubtreeKeepsRanking | src/main/java/dev/kofe/engine/node/Node.java:18-19 | removing a node's whole subtree leaves no surviving node pointing into it; the subtree holds the node and is closed under children |
| Tree.SubtreeIsReachability | src/main/java/dev/kofe/engine/node/Node.java:18-19 | the cascade removes exactly the nodes whose parent chain reaches the deleted node, and nothing for an unknown id |
| Tree.ChildrenInSubtree | src/main/java/dev/kofe/engine/node/Node.java:18-19 | a node's children, and the node itself, belong to its subtree |
| Matrix.KeyedIsUnique | src/main/java/dev/kofe/engine/descriptor/Descriptor.java:20-24 | when every descriptor is indexed by its pair, no two descriptors link the same node and language |
| Matrix.CoveredIsDense | src/main/java/dev/kofe/engine/node/NodeServiceImpl.java:61-64 | when every pair is indexed, every (node, language) pair has a descriptor |
| Matrix.DescriptorsOfNodeMatchLanguages | src/main/java/dev/kofe/engine/node/NodeServiceImpl.java:61-68 | a node whose row is covered has one descriptor per language: they name every language, and there are as many as languages |
| Matrix.DescriptorsInLanguageMatchNodes | src/main/java/dev/kofe/engine/language/LanguageServiceImpl.java:151-158 | a language whose column is covered has one descriptor per node: they name every node, and there are as many as nodes |
| Matrix.InsertKeepsKeyed | src/main/java/dev/kofe/engine/descriptor/DescriptorServiceImpl.java:20-25 | storing a fresh descriptor for a pair that has none keeps the links live and unique |
| Matrix.InsertKeepsCovered | src/main/java/dev/kofe/engine/descriptor/DescriptorServiceImpl.java:20-25 | the same insertion keeps covered pairs covered and covers the new pair |
| Matrix.RowFillingStep | src/main/java/dev/kofe/engine/node/NodeServiceImpl.java:62-64 | one iteration of the node expansion loop keeps its invariant with one more language done |
| Matrix.ColumnFillingStep | src/main/java/dev/kofe/engine/language/LanguageServiceImpl.java:153-155 | one iteration of the language expansion loop keeps its invariant with one more node done |
| Matrix.DeletingNodesKeepsIndex | src/main/java/dev/kofe/engine/node/Node.java:22-23 | deleting nodes with their descriptors keeps the matrix linked, unique and covered |
| Matrix.DeletingLanguageKeepsIndex | src/main/java/dev/kofe/engine/language/Language.java:38-39 | deleting a language with its descriptors keeps the matrix linked, unique and covered |
| Matrix.NewLanguageWithoutDescriptorsLeavesGap | src/main/java/dev/kofe/engine/language/LanguageServiceImpl.java:40-56 | a language added without descriptors while a node exists leaves that (node, language) pair without a descriptor |
| NodeEntity.AddSubNode | src/main/java/dev/kofe/engine/node/Node.java:37-40 | the child's parent becomes this node; it joins this node's children and leaves every other node's |
| NodeEntity.RemoveSubNode | src/main/java/dev/kofe/engine/node/Node.java:42-45 | the child's parent is cleared; it is no longer anybody's child |
| NodeEntity.AddDescriptor | src/main/java/dev/kofe/engine/node/Node.java:47-50 | the descriptor's node becomes this node; it joins this node's descriptors and leaves every other node's |
| NodeEntity.RemoveDescriptor | src/main/java/dev/kofe/engine/node/Node.java:52-55 | the descriptor's node is cleared; it belongs to no node's descriptors |
| LanguageEntity.AddDescriptor | src/main/java/dev/kofe/engine/language/Language.java:44-47 | the descriptor's language becomes this language; it joins this language's descriptors and leaves every other's |
| LanguageEntity.RemoveDescriptor | src/main/java/dev/kofe/engine/language/Language.java:49-52 | the descriptor's language is cleared; it belongs to no language's descriptors |
| DescriptorService.CreateNewDescriptorForLanguage | src/main/java/dev/kofe/engine/descriptor/DescriptorServiceImpl.java:20-25 | a descriptor with no texts and no node, linked to the language, is stored under a fresh id, and the sequence moves past that id |
| DescriptorService.FindDescriptorById | src/main/java/dev/kofe/engine/descriptor/DescriptorServiceImpl.java:27-29 | the stored descriptor, or None exactly when the id is unknown; nothing changes |
| DescriptorService.FindAllDescriptorsByNodeId | src/main/java/dev/kofe/engine/descriptor/DescriptorServiceImpl.java:33-35 | exactly the stored descriptors whose node is the given id |
| DescriptorService.NodeHasOneDescriptorPerLanguage | src/main/java/dev/kofe/engine/descriptor/DescriptorServiceImpl.java:33-35 | in a valid, complete store a node's descriptors are one per language |
| NodeService.ExpandDescriptorsForNewNode | src/main/java/dev/kofe/engine/node/NodeServiceImpl.java:61-64 | the new node gets a blank descriptor for every language; old descriptors are untouched, and a complete store stays complete |
| NodeService.AddNewNodeAndExpandEmptyDescriptors | src/main/java/dev/kofe/engine/node/NodeServiceImpl.java:42-71 | an unresolved parent creates nothing; otherwise a node with the requested note and flag gets a fresh id and the parent (or none), exactly one blank descriptor per language, and a message reporting the parent and that count |
| NodeService.IsPossibleToRelocate | src/main/java/dev/kofe/engine/node/NodeServiceImpl.java:73-96 | refused without a node id, allowed without a destination, otherwise refused exactly when the node is on the destination's parent chain |
| NodeService.FindNodeById | src/main/java/dev/kofe/engine/node/NodeServiceImpl.java:178-180 | the stored node, or None exactly when the id is unknown |
| NodeService.GetRelocationDecision | src/main/java/dev/kofe/engine/node/NodeServiceImpl.java:98-109 | found exactly when both ids resolve, and then the relocation decision; otherwise no decision |
| NodeService.RelocateToAnotherParentNode | src/main/java/dev/kofe/engine/node/NodeServiceImpl.java:112-146 | an unknown node or an unresolved destination yields None with nothing changed; a cycle-making move is refused with done = false and nothing changed; otherwise the parent becomes the destination and the tree stays acyclic |
| NodeService.Edited | src/main/java/dev/kofe/engine/node/NodeServiceImpl.java:156-168 | applying the edits never adds or removes a descriptor and never changes its node or language |
| NodeService.EditedLastWins | src/main/java/dev/kofe/engine/node/NodeServiceImpl.java:158-162 | a found descriptor ends with the texts of the last edit naming it, whatever node it belongs to; one that no edit names keeps its texts |
| NodeService.MissingReportsEveryUnknownId | src/main/java/dev/kofe/engine/node/NodeServiceImpl.java:163-166 | every edit whose id is unknown is reported, every segment names such an edit, and the message is empty exactly when every edit found its descriptor |
| NodeService.MissingCountsUnknownEdits | src/main/java/dev/kofe/engine/node/NodeServiceImpl.java:163-166 | the message has exactly as many segments as there are edits whose id is unknown |
| NodeService.ApplyDescriptorEdits | src/main/java/dev/kofe/engine/node/NodeServiceImpl.java:156-168 | the loop leaves the descriptors equal to the in-order edit fold, reports exactly the unknown ids, and clears done exactly when one was unknown |
| NodeService.UpdateNodeByActiveStatusNoteDescriptors | src/main/java/dev/kofe/engine/node/NodeServiceImpl.java:149-176 | an unknown node yields None with nothing changed; otherwise `active` and `note` are overwritten, the edits are applied in order, and done is true exactly when no edit missed |
| NodeService.DeleteNodeById | src/main/java/dev/kofe/engine/node/NodeServiceImpl.java:182-185 | the node, every node below it and every descriptor of a removed node go; everything else stays, and an unknown id removes nothing |
| LanguageService.FindLanguageById | src/main/java/dev/kofe/engine/language/LanguageServiceImpl.java:138-140 | the stored language, or None exactly when the id is unknown |
| LanguageService.FindDefaultLanguage | src/main/java/dev/kofe/engine/language/LanguageServiceImpl.java:134-136 | the one default language, which is active, or None when no language is default |
| LanguageService.FindActiveLanguages | src/main/java/dev/kofe/engine/language/LanguageServiceImpl.java:178-180 | exactly the active stored languages |
| LanguageService.InitializationFirstLanguage | src/main/java/dev/kofe/engine/language/LanguageServiceImpl.java:37-66 | with no language, creates an initial, default, active language from the request or the configured defaults; otherwise changes nothing and reports the lowest-id language with done = false; leaves the grid with a gap when nodes exist |
| LanguageService.CloneDescriptorsForNewLanguage | src/main/java/dev/kofe/engine/language/LanguageServiceImpl.java:151-155 | the new language gets a blank descriptor for every node; old descriptors are untouched, and a complete store stays complete |
| LanguageService.InitializeFirstLanguageWithDescriptors | src/main/java/dev/kofe/engine/language/LanguageServiceImpl.java:37-66 | initialisation as above, except that the first language gets a descriptor for every existing node, so the grid stays dense |
| LanguageService.SetLanguageActiveStatus | src/main/java/dev/kofe/engine/language/LanguageServiceImpl.java:69-104 | lone language refused, activation always done, default not deactivated, deactivation only while more than one language is active; refusals change nothing; a registry that has an active language keeps one |
| LanguageService.ClearBydefaultStatus | src/main/java/dev/kofe/engine/language/LanguageServiceImpl.java:126-132 | afterwards no language is default, and nothing else changes |
| LanguageService.SetDefaultLanguage | src/main/java/dev/kofe/engine/language/LanguageServiceImpl.java:107-124 | an inactive language is refused with nothing changed; otherwise it becomes the one and only default, and no other field changes |
| LanguageService.AddNewLanguage | src/main/java/dev/kofe/engine/language/LanguageServiceImpl.java:143-161 | a language with the requested texts and active flag, neither initial nor default, gets a fresh id and exactly one blank descriptor per node; the message reports the node count |
| LanguageService.UpdateLanguageBasicData | src/main/java/dev/kofe/engine/language/LanguageServiceImpl.java:164-176 | only code, name and note change, and the flags stay; an unknown id yields None with nothing changed |
| LanguageService.DeleteLanguageById | src/main/java/dev/kofe/engine/language/LanguageServiceImpl.java:186-188 | the language and every descriptor naming it go, nothing else changes, and an unknown id removes nothing |
| LanguageController.CreateNewLanguage | src/main/java/dev/kofe/engine/language/LanguageController.java:119-131 | a body without a code is a bad request and creates nothing. Otherwise the as-written initialisation runs. An empty registry gets one language that is initial, default and active, and nodes that already exist are left without a descriptor for it. A non-empty registry is unchanged, and the answer names its lowest id |
| LanguageController.CreateNewLanguageWithDescriptors | src/main/java/dev/kofe/engine/language/LanguageController.java:119-131 | the same endpoint over the corrected initialisation. The first language gets a descriptor for every existing node, the grid is dense, and a complete store stays complete. A non-empty registry leaves languages and descriptors unchanged |
| LanguageController.AddNewLanguage | src/main/java/dev/kofe/engine/language/LanguageController.java:134-146 | a request without a code is a bad request and adds nothing. Otherwise the requested language, neither initial nor default, is stored under a fresh id, the other languages stay, and every node gets a descriptor for it |
| LanguageController.UpdateLanguageBasicData | src/main/java/dev/kofe/engine/language/LanguageController.java:149-161 | a missing id or code is a bad request and changes nothing, and an unknown id answers no content. Otherwise only the language's code, name and note change |
| LanguageController.DeleteLanguageById | src/main/java/dev/kofe/engine/language/LanguageController.java:235-249 | an unknown id is not found; the initial language is a bad request and survives; any other language is deleted with its descriptors |
| LanguageController.DeleteAllowedCanRemoveLastActive | src/main/java/dev/kofe/engine/language/LanguageController.java:236-244 | the guard lets a consistent registry lose its last active language, leaving a single language that is neither active nor default; while it stays alone, its status cannot change |
| LanguageController.DeleteAllowedKeepingActiveKeepsSomeActive | src/main/java/dev/kofe/engine/language/LanguageController.java:236-244 | with the last active language also protected, a registry that has an active language keeps one |
| LanguageController.DeleteLanguageByIdKeepingActive | src/main/java/dev/kofe/engine/language/LanguageController.java:235-249 | the delete endpoint with the corrected guard: as written, except that the last active language is refused and survives |

## Left out

- DescriptorService.CreateNewDescriptorForLanguage: does not keep `Store.Valid()`, because the descriptor it stores has no node. Its only callers are the expansion loops (NodeServiceImpl.java line 63, LanguageServiceImpl.java line 154), which link the node in the same step.
- Null ids: every id is an `int`. In the source a `null` id reaches `findById` and throws there, unless a controller has rejected it first. The node update needs a node id, and the language update needs `id` to be present (`requires req.id.Some?`).
- Child and descriptor list order: `subs` and `descriptors` are sets derived from the parent and node/language references. After a relocation the source leaves a stale entry in the old parent's in-memory `subs` list. That entry is not persisted, so it is not modelled.
- NodeEntity.AddSubNode: does not model appending the child at the end of `subs`, because children are a derived set.
- NodeEntity.AddDescriptor: does not model appending at the end of the node's `descriptors` list, for the same reason.
- LanguageEntity.AddDescriptor: does not model appending at the end of the language's `descriptors` list, for the same reason.
- NodeService.AddNewNodeAndExpandEmptyDescriptors: states that the new node is among the parent's children, not that it is the last one.
- Whole-table reads (`findAllNodes`, `findAllActiveNodes`, `findAllDescriptors`, `findAllLanguages`): these return the store's maps themselves.
- HTTP routing and status mapping: only the verdicts of the four language endpoints above are modelled. `NodeController`, `DescriptorController` and the other language endpoints are out, except as callers.
- `Mapper` and the DTO classes: requests are datatypes holding only the fields the services read.
- `@Transactional` atomicity, lazy loading and concurrency: each service method is one atomic step on the store.
- Logging.
- The wording of `msg`: each message segment is a `Reason` token.
- `Node.toString`.
- The configured first-language code, name and note (`@Value`) are an `InitDefaults` parameter.
- Id generation: the sequences start at 1 and increase by one per record. The values a database sequence would actually hand out are not modelled.
- `deleteById` of an unknown id is a no-op, as in Spring Data 3.
- The node update looks descriptors up by id without checking which node they belong to. The model does the same (`NodeService.EditedLastWins`).
- "Some language is active" is not kept by every operation. `LanguageService.AddNewLanguage` with `active = false` on an empty registry leaves no active language, and its contract states this case.

## Findings

| source | as written | input that shows it | evidently intended | confidence | as-written member | corrected member |
|---|---|---|---|---|---|---|
| src/main/java/dev/kofe/engine/language/LanguageServiceImpl.java:40-56 | the first language is created without any descriptor | a store with one node and no language (nodes can be created before initialisation), then initialise: the node has no descriptor for the new language | like `addNewLanguage` (lines 151-155), the first language gets one empty descriptor per existing node, so every (node, language) pair keeps a descriptor | medium, not executed | LanguageService.InitializationFirstLanguage | LanguageService.InitializeFirstLanguageWithDescriptors |
| src/main/java/dev/kofe/engine/language/LanguageController.java:236-244 | only the initial language is protected from deletion | language 1 initial and inactive, language 2 active and default; delete language 2. One language is left, and it is neither active nor default. The lone-language rule (LanguageServiceImpl.java line 73) stops it from being activated until another language is added | like deactivation (LanguageServiceImpl.java lines 89-97), deletion refuses to remove the last active language | medium, not executed | LanguageController.DeleteAllowedCanRemoveLastActive | LanguageController.DeleteLanguageByIdKeepingActive |

How the second input is reached: initialise (language 1), add language 2 as active, make language 2 the default, then deactivate language 1. Two languages are active and 1 is not the default, so the deactivation is allowed.

For the first finding, the init endpoint is modelled both ways. `LanguageController.CreateNewLanguage` runs the as-written initialisation, and `LanguageController.CreateNewLanguageWithDescriptors` runs the corrected one.
