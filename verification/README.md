# Mind-map editor core in Dafny

This project models the computational core of a browser mind-map editor:

- **The graph reducer** (`mindMapReducer`). It is a pure function from the editor state
  (map properties, nodes, directed connections) and one of seven actions to the next state.
  The actions are SET_MIND_MAP, ADD_NODE, UPDATE_NODE, DELETE_NODE, ADD_CONNECTION,
  REMOVE_CONNECTION and MOVE_NODE. It lives in module `WorkflowEditor`, beside the initial map
  `defaultMindMap`. The entities are in `MindMapTypes`.
- **The note preview** (`getNotePreview`). It turns a node's HTML note into a one-line canvas
  preview: tags become spaces, white-space runs collapse, the ends are trimmed, and text over
  40 characters is cut to 40 plus `...`. Module `NotePreview`.
- **The Markdown outline export** (`generateMarkdown` / `processNode`). It writes the title
  `# Mind Map`, then one section per root node. Each section is a heading at its depth (at most six
  `#`), the description, then the children's sections one level deeper. Module `MarkdownExport`.

`Wrappers` holds `Option`/`Result`. `Sequences` holds `Filter`, which models JavaScript's
`Array.prototype.filter`, with its order- and multiplicity-preservation lemmas.

Types are built from how the code uses them:
- `Connection = {id, from, to}`.
- `MindMap = {properties, nodes, connections}`.
- `Node` carries `children` as an optional list, because the editor never sets it.
- A `Partial<Node>` update is a record of optional fields.

`processNode` has no visited set. The export is therefore specified under an acyclicity witness:
a ghost `rank` map that gives every root a rank, and every child of a ranked node a smaller rank
than its parent. Nodes the export never reaches need no rank.
`ProcessNodeRankIrrelevant` shows that the text does not depend on which witness is chosen.
`CycleHasNoRank` shows that the nodes of a two-node (or self) cycle cannot be ranked.

## Model

| member | source | states |
|---|---|---|
| `WorkflowEditor.DefaultMindMap` | src/components/WorkflowEditor.tsx:32-45 | the initial map has exactly one node, with id "root", and no connections |
| `WorkflowEditor.Reduce` | src/components/WorkflowEditor.tsx:56-125 | every action but SET_MIND_MAP keeps the map's properties; ADD_NODE, UPDATE_NODE and MOVE_NODE keep the connections (DELETE_NODE changes them, see `DeleteNodeRemovesIncident`); ADD_CONNECTION and REMOVE_CONNECTION keep the nodes |
| `WorkflowEditor.SetMindMapReplaces` | src/components/WorkflowEditor.tsx:61-62 | SET_MIND_MAP yields the payload's nodes and properties; its connections, or the empty list when they are missing |
| `WorkflowEditor.AddNodeAppends` | src/components/WorkflowEditor.tsx:64-65 | ADD_NODE makes the node the last one; earlier nodes and all connections are unchanged |
| `WorkflowEditor.Merge` | src/components/WorkflowEditor.tsx:72 | each field of `{ ...node, ...updates }` is the node's own or the update's value, and an update with no field present gives back the node |
| `WorkflowEditor.MergeIdempotent` | src/components/WorkflowEditor.tsx:72 | spreading the same update twice equals spreading it once |
| `WorkflowEditor.MergeOverridesPresentFields` | src/components/WorkflowEditor.tsx:72 | the merged node takes each field from the update when present, else keeps its own (shallow: `properties` replaced whole) |
| `WorkflowEditor.EmptyUpdateIsIdentity` | src/components/WorkflowEditor.tsx:67-75 | an UPDATE_NODE with no field present leaves the state unchanged |
| `WorkflowEditor.UpdateNodeMergesMatching` | src/components/WorkflowEditor.tsx:67-75 | UPDATE_NODE keeps node count and order, merges exactly the nodes whose id matches, keeps connections |
| `WorkflowEditor.MoveNodeMovesMatching` | src/components/WorkflowEditor.tsx:113-121 | MOVE_NODE keeps count and order; matching nodes get the new x and y and keep every other field; others are unchanged |
| `WorkflowEditor.DeleteNodeRemovesIncident` | src/components/WorkflowEditor.tsx:77-84 | after DELETE_NODE no node has the id and no connection touches it; every other node and connection survives with its multiplicity, in original relative order |
| `WorkflowEditor.DeleteNodeKeepsEndpointsResolved` | src/components/WorkflowEditor.tsx:77-84 | if every connection named existing nodes before DELETE_NODE, it still does after |
| `WorkflowEditor.HasPair` | src/components/WorkflowEditor.tsx:90-92 | `.some` over the connections is true exactly when some connection goes from `from` to `to` |
| `WorkflowEditor.AddConnectionRejects` | src/components/WorkflowEditor.tsx:86-95 | ADD_CONNECTION returns the state unchanged for a self-loop or an already present (from, to) pair |
| `WorkflowEditor.AddConnectionAppends` | src/components/WorkflowEditor.tsx:96-101 | otherwise it appends exactly one connection `conn-<now>` from source to target; nodes and earlier connections unchanged |
| `WorkflowEditor.AddConnectionIdempotent` | src/components/WorkflowEditor.tsx:86-101 | repeating an ADD_CONNECTION, at any later time, is a no-op |
| `WorkflowEditor.ConnectionId` | src/components/WorkflowEditor.tsx:97 | a generated connection id is `conn-` followed by decimal digits |
| `WorkflowEditor.DecimalInjective` | src/components/WorkflowEditor.tsx:97 | the decimal rendering of a timestamp determines the timestamp |
| `WorkflowEditor.ConnectionIdInjective` | src/components/WorkflowEditor.tsx:97 | connections created at different clock readings get different ids |
| `WorkflowEditor.RemoveConnectionRemovesId` | src/components/WorkflowEditor.tsx:104-111 | REMOVE_CONNECTION leaves no connection with that id; all others survive with multiplicity and order; nodes unchanged |
| `WorkflowEditor.ReducePreservesValidConnections` | src/components/WorkflowEditor.tsx:77-121 | every action except SET_MIND_MAP keeps the connections free of self-loops and duplicate (from, to) pairs |
| `NotePreview.SkipTag` | src/components/WorkflowEditor.tsx:646 | the rest of a tag (`[^>]*>?`) is skipped: the remainder is a suffix; when a `>` follows, the dropped part ends at the first `>`; otherwise the remainder is empty |
| `NotePreview.StripTags` | src/components/WorkflowEditor.tsx:646 | after replacing tag runs by spaces no `<` remains, and the text is no longer |
| `NotePreview.StripTagsIdentity` | src/components/WorkflowEditor.tsx:646 | text without `<` is returned unchanged |
| `NotePreview.SkipTagPast` | src/components/WorkflowEditor.tsx:646 | a tag body without `>` followed by `>` is skipped exactly, leaving what follows the `>` |
| `NotePreview.StripTagsPlain` | src/components/WorkflowEditor.tsx:646 | text before the first `<` is copied unchanged, and the rest is stripped on its own |
| `NotePreview.StripTagsOneTag` | src/components/WorkflowEditor.tsx:646 | `a<t>b`, with no `<` in `a` and no `>` in `t`, becomes `a`, one space, then `b` stripped |
| `NotePreview.StripTagsOpenTag` | src/components/WorkflowEditor.tsx:646 | an unclosed `<` takes the rest of the text with it and leaves one space |
| `NotePreview.DropSpaces` | src/components/WorkflowEditor.tsx:647 | leading white space removed: a suffix whose dropped prefix is all white space and whose first character is not |
| `NotePreview.Collapse` | src/components/WorkflowEditor.tsx:647 | collapsing never lengthens the text; it is empty exactly when the input is, and starts with white space exactly when the input does |
| `NotePreview.CollapseShape` | src/components/WorkflowEditor.tsx:647 | after collapsing, the only white space is single spaces, never two adjacent, and no `<` is introduced |
| `NotePreview.CollapseJoin` | src/components/WorkflowEditor.tsx:647 | a white-space run between two parts becomes exactly one space: `Collapse(a + w + b) == Collapse(a) + " " + Collapse(b)` |
| `NotePreview.CollapseKeepsVisible` | src/components/WorkflowEditor.tsx:647 | collapsing keeps every non-white-space character, in order |
| `NotePreview.CollapseIdempotent` | src/components/WorkflowEditor.tsx:647 | collapsing twice equals collapsing once |
| `NotePreview.TrimEnd` | src/components/WorkflowEditor.tsx:647 | trailing white space removed: a prefix, the rest all white space, not ending in white space |
| `NotePreview.Trim` | src/components/WorkflowEditor.tsx:647 | the trimmed text is no longer than the input and neither starts nor ends with white space |
| `NotePreview.TrimIsSlice` | src/components/WorkflowEditor.tsx:647 | the trimmed text is a slice of the input whose cut-off ends are all white space |
| `NotePreview.TrimKeepsVisible` | src/components/WorkflowEditor.tsx:647 | trimming keeps every non-white-space character, in order |
| `NotePreview.Cleaned` | src/components/WorkflowEditor.tsx:646-647 | cleaned text has no `<`, only single inner spaces as white space, and no white space at either end |
| `NotePreview.CleanedKeepsVisible` | src/components/WorkflowEditor.tsx:646-647 | cleaning keeps exactly the visible characters of the tag-stripped note, in order |
| `NotePreview.CleanedSeparatesWords` | src/components/WorkflowEditor.tsx:646-647 | two words separated by any white-space run come out separated by exactly one space |
| `NotePreview.CleanedEmptyIff` | src/components/WorkflowEditor.tsx:646-648 | cleaned text is empty exactly when the tag-stripped note is all white space |
| `NotePreview.TruncatedIsTidy` | src/components/WorkflowEditor.tsx:649-651 | cutting tidy text to 40 characters and adding `...` keeps it tidy |
| `NotePreview.Preview` | src/components/WorkflowEditor.tsx:643-652 | a preview is tidy, non-empty and at most 43 characters long |
| `NotePreview.PreviewCases` | src/components/WorkflowEditor.tsx:643-652 | no preview exactly for a missing or empty note or one with nothing visible after tag removal; else the cleaned text if at most 40 characters, otherwise its first 40 characters then `...` |
| `MarkdownExport.Find` | src/utils/markdownExport.ts:36 | `find` gives the first node with the id, and nothing exactly when no node has it |
| `MarkdownExport.ChildIdSet` | src/utils/markdownExport.ts:8-13 | the set holds exactly the ids listed in some node's children |
| `Sequences.Filter` | src/utils/markdownExport.ts:15 | `Array.prototype.filter`: no longer than the input; every kept element is from the input and passes the test; every passing element is kept |
| `MarkdownExport.SelectRoots` | src/utils/markdownExport.ts:15 | every selected node is from the map and is a root; every root of the map is selected |
| `MarkdownExport.Roots` | src/utils/markdownExport.ts:8-15 | every root is a node of the map that is named "root" or is listed by no node |
| `MarkdownExport.RootsSelect` | src/utils/markdownExport.ts:15 | a node is a root exactly when its id is "root" or no node lists it as a child; roots keep node order and multiplicity |
| `MarkdownExport.Hashes` | src/utils/markdownExport.ts:28 | `'#'.repeat(k)` is k `#` characters |
| `MarkdownExport.Heading` | src/utils/markdownExport.ts:28-29 | a heading at depth d starts with exactly min(d, 6) `#`, never more than six, then a space, the name and a blank line |
| `MarkdownExport.DescriptionBlock` | src/utils/markdownExport.ts:31-33 | the description paragraph is written exactly when the description is present, non-empty and not "Click to edit"; it is the description and a blank line |
| `MarkdownExport.Section` | src/utils/markdownExport.ts:28-33 | a node's own text is its heading (level min(d, 6)) followed by exactly its description paragraph |
| `MarkdownExport.CycleHasNoRank` | src/utils/markdownExport.ts:26-42 | two nodes (or one) that list each other as children get no rank, so `processNode` is never asked to start on them |
| `MarkdownExport.ProcessNode` | src/utils/markdownExport.ts:26-42 | a node's text starts with its own section, and is exactly that section when it lists no children |
| `MarkdownExport.ProcessChildren` | src/utils/markdownExport.ts:35-40 | children whose ids name no node contribute nothing |
| `MarkdownExport.Sections` | src/utils/markdownExport.ts:18-20 | the root sections start with the first root's text |
| `MarkdownExport.Markdown` | src/utils/markdownExport.ts:5-22 | the document always starts with `# Mind Map` and a blank line |
| `MarkdownExport.ProcessNodeRendersOutline` | src/utils/markdownExport.ts:26-42 | `processNode` writes exactly the sections of its pre-order walk; the walk starts with the node at its depth and only visits nodes of the map, never shallower |
| `MarkdownExport.ProcessChildrenRendersOutline` | src/utils/markdownExport.ts:35-40 | the children loop writes exactly the sections of the children's walks, all nodes of the map |
| `MarkdownExport.SectionsRenderOutline` | src/utils/markdownExport.ts:18-20 | the root loop writes exactly the sections of the roots' walks, each at depth one or more |
| `MarkdownExport.MarkdownRendersOutline` | src/utils/markdownExport.ts:5-22 | the document is the title then the sections of the roots' walks; every section belongs to a node of the map |
| `MarkdownExport.ProcessChildrenSplit` | src/utils/markdownExport.ts:35-40 | the fold over `children` is concatenation in list order |
| `MarkdownExport.ProcessOneChild` | src/utils/markdownExport.ts:35-40 | one child id yields the first node with that id one level down, or nothing when no node has it |
| `MarkdownExport.ProcessNodeRankIrrelevant` | src/utils/markdownExport.ts:26-42 | the text of a node does not depend on the acyclicity witness |
| `MarkdownExport.ProcessChildrenRankIrrelevant` | src/utils/markdownExport.ts:35-40 | the same for the children loop |
| `MarkdownExport.SectionsSnoc` | src/utils/markdownExport.ts:18-20 | one more root appends exactly its depth-one section |
| `MarkdownExport.CollectChildIds` | src/utils/markdownExport.ts:8-13 | gathering child ids fails exactly when some node lacks `children`, naming the first such node; otherwise it yields every listed child id |
| `MarkdownExport.AppendRootSections` | src/utils/markdownExport.ts:16-20 | the loop over the roots appends each root's depth-one text in order |
| `MarkdownExport.GenerateMarkdown` | src/utils/markdownExport.ts:5-22 | the export fails exactly when some node lacks `children`, naming the first; otherwise it returns the document `Markdown` (a rank is asked for only in that case) |
| `MarkdownExport.DefaultMapExportFails` | src/components/WorkflowEditor.tsx:35-42 | the initial map's only node has no `children` list |
| `MarkdownExport.DefaultMapMarkdown` | src/utils/markdownExport.ts:28-33 | with a missing list read as a leaf, the initial map exports as `# Mind Map`, then `# Main Topic`; the placeholder description is omitted |
| `MarkdownExport.NoRootsExportsTitle` | src/utils/markdownExport.ts:15-21 | with no root the document is the title alone, and no node needs a rank |
| `MarkdownExport.UnreachableCycleDropped` | src/utils/markdownExport.ts:8-21 | two nodes listing each other, with no node "root", export as the title alone: the cycle is never entered |
| `MarkdownExport.OutlinePlacesChild` | src/utils/markdownExport.ts:15-40 | wherever the export writes a node at depth d, it writes each child id that resolves to a node one level below, at depth d + 1 |
| `MarkdownExport.RootChildWrittenTwice` | src/utils/markdownExport.ts:15-40 | the node "root" is always written at depth one, and wherever the export reaches a node listing it as a child at depth d it is written again at depth d + 1 |
| `MarkdownExport.RootNodeEmittedTwice` | src/utils/markdownExport.ts:15 | the smallest map where the export reaches a node listing "root": node "a" lists it, and the export is `# Mind Map`, `# A`, `## R`, `# R` |

## Left out

- React components, hooks, JSX, CSS, context menus, the toolbox, the properties panel and the rich-text note editor are presentation only.
- The view transform (pan and zoom), drag offsets, screen-to-canvas conversion and connection-curve geometry are left out. They are floating-point work on browser layout data. The zoom clamp to [0.2, 3.0] is not modelled for the same reason.
- Storage (`mapStorage`, `noteStorage`, the theme context), JSON import/export, the save handlers and `exportMarkdown`'s download are left out. They are browser I/O. The JSON export/import round trip is therefore not stated.
- `Date.now()` is not modelled as a clock. The reducer takes the reading as the parameter `now`. Node ids created by the UI are not modelled.
- The reducer's `default` branch is not modelled: with the closed action type it cannot be reached.
- Node property values and the map-level `properties` values are strings. The source types them as any value, but only a node's string `description` is inspected, and the reducer only copies the map-level `properties`.
- Node coordinates are `real`. The reducer only copies them, so NaN and rounding play no part.
- A `Partial<Node>` field present with the value `undefined` is treated as absent. JavaScript's spread would copy the `undefined`.
- `allNodeIds` in `generateMarkdown` is computed and never used, so it has no counterpart.
- `getNotePreview` reads a plain object, so an id such as `constructor` would find an inherited member. Here a missing key is simply absent.
- A `children` cycle that a root reaches is not modelled: the source recurses until the stack overflows, and the model requires a rank that decreases from each ranked node to its children. Nodes on a cycle that no root reaches are simply never visited, in the source as in the model (`UnreachableCycleDropped`).
- The rank is kept per id, not per position. A map is therefore excluded when a node shares its id with a node the export reaches and that node lies on a cycle, or leads to one through its child ids, although `find` never visits it. Ids are meant to be unique, and with unique ids this exclusion is empty.
- A map with any node lacking `children` fails at src/utils/markdownExport.ts:10 before any recursion, cyclic or not; `GenerateMarkdown` asks for no rank in that case.
- NotePreview.Preview: lengths and the cut at 40 count Unicode characters. JavaScript counts UTF-16 code units, so text with characters outside the Basic Multilingual Plane can be cut at a different place, or inside a surrogate pair.
- The reducer does not keep node ids unique, and ADD_CONNECTION does not check that its endpoints exist. No lemma claims either property.

## Findings

| source | as written | input that shows it | evidently intended | confidence | as-written member | corrected member |
|---|---|---|---|---|---|---|
| src/utils/markdownExport.ts:10 | `node.children.forEach` reads `children` of every node. The initial map (src/components/WorkflowEditor.tsx:35-42) and every node the editor creates (src/components/WorkflowEditor.tsx:217-224, 364-371) have no `children`, so the export throws a TypeError. | the initial map `defaultMindMap` | a node without `children` is a leaf, so the initial map exports as `# Mind Map`, `# Main Topic` | high; not executed | MarkdownExport.GenerateMarkdown | MarkdownExport.Markdown |
