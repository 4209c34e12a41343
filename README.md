# Bloom editor core in Dafny

This project models the core of the Bloom interactive playground, a browser
editor for "screens": forests of UI component nodes, each with a sparse
record of style fields. The model covers three parts:

- **Style resolver** (`Utils.GetComponentStyle`). It turns a style record into
  the presentation map the renderer applies. It composes the border from
  style, width and color. It collapses four-sided padding and margin into
  shorthand. It copies the remaining listed fields verbatim, drops
  `textColor`, keeps `opacity` only when it is set, and always adds the
  pointer cursor and the short transition.
- **Forest locator and mutator** (`Utils.FindComponentById`,
  `Utils.UpdateComponentStyle`). The locator is a pre-order, first-match
  search. The mutator is a structural map that merges a style update into
  every node carrying the identifier that has no ancestor carrying it.
- **Editor page state machine** (`Page.Editor`). It holds the loaded screen,
  the selected identifier, the dirty flag and the session-storage slot. Its
  methods are style change, import, select, the mount-time load and the save
  effect. The function `SelectedComponent` gives the node the style panel shows.

Modules follow the source files: `Types` (types/index.ts), `Utils`
(lib/utils.ts) and `Page` (app/page.tsx).

Representation choices:

- A style record is a `map<Field, string>`. `Field` enumerates the declared
  `StyleProps` fields. An update (`Partial<StyleProps>`) has the same type.
  The object spread `{...old, ...upd}` is Dafny's map union `old + upd`.
- "Set" means JavaScript truthiness, that is, present and non-empty
  (`Types.IsSet`). `||` treats `""` as missing. A field that is present but
  empty is still copied verbatim by the pass-through fields.
- The presentation map is a `map<CssKey, string>`. A key absent from it is
  `undefined`.
- Optional `children` is the datatype `Children = Absent | Present(nodes)`. The
  source recurses into a present child array even when it is empty, and the
  model does the same.
- The selected identifier is an `Option<string>`. `""` fails the page's
  truthiness guards, just as `null` does.
- `exportToJSON` and `JSON.parse` are values of function type. They are given
  to the `Editor` constructor and never interpreted. A parse result of `None`
  is a syntax error.

Two behaviours of the code are easy to miss; the model follows the code:

- An empty style record resolves to padding `"0 0 0 0"` and margin `"0 0 0 0"`
  besides the two fixed hints: padding and margin are never undefined
  (lib/utils.ts:17-18; `Utils.EmptyStyle`).
- The mutator returns a matching node at lib/utils.ts:67-75, before the
  recursion at line 76, so it never looks inside a matching node. A
  descendant carrying the same identifier keeps its old styles
  (`Utils.NestedMatchIsNotUpdated`). Every match that has no matching
  ancestor is updated, whereas the locator stops at the first match.

## Model

| member | source | states |
|---|---|---|
| `Utils.GetComponentStyle` | lib/utils.ts:3-45 | the presentation map holds exactly the keys whose value is defined, each with that value; the value of each key is given by its helpers `Utils.Resolve` (lines 14-44), `Utils.Shorthand` (lines 17-18) and `Utils.Border` (lines 5-12), whose rules are the lemmas below |
| `Utils.FixedHints` | lib/utils.ts:42-43 | cursor is always "pointer" and transition always "all 0.2s ease" |
| `Utils.PassThroughFields` | lib/utils.ts:14-41 | each listed field is copied unchanged and is present exactly when present in the record, even when empty; no other field is copied under its own name |
| `Utils.PaddingRule` | lib/utils.ts:17 | padding is always defined: `padding` verbatim when set, otherwise "T R B L" with each missing or empty side as "0" |
| `Utils.MarginRule` | lib/utils.ts:18 | margin follows the same rule, from the margin fields alone |
| `Utils.BorderRule` | lib/utils.ts:5-12 | border is defined iff `borderStyle` is set; "none" gives "none"; any other style gives "width style color" with width defaulting to "1px" and color to "#000000" |
| `Utils.OpacityRule` | lib/utils.ts:39 | opacity is defined iff `opacity` is set (present and non-empty), from that value |
| `Utils.ResolveWithoutTextColor` | lib/utils.ts:14-44 | removing `textColor` changes no presentation key |
| `Utils.ResolverIgnoresTextColor` | lib/utils.ts:14-44 | two records that differ only in `textColor` resolve to equal maps |
| `Utils.EmptyStyle` | lib/utils.ts:17-18 | an empty record resolves to padding and margin "0 0 0 0", the cursor and the transition, and nothing else |
| `Utils.PaddingSetWins` | lib/utils.ts:17 | a set `padding` ("10px") wins over a set side |
| `Utils.PaddingMissingSides` | lib/utils.ts:17 | top "4px" and left "8px" alone give "4px 0 0 8px" |
| `Utils.PaddingEmptyIsUnset` | lib/utils.ts:17 | an empty `padding` counts as unset and an empty side renders as "0" |
| `Utils.BorderDefaultWidth` | lib/utils.ts:7-9 | style "solid" with color "#ff0000" and no width gives "1px solid #ff0000" |
| `Utils.BorderDefaultColor` | lib/utils.ts:7-9 | an empty width and a missing color give "1px dashed #000000" |
| `Utils.BorderNone` | lib/utils.ts:10-11 | style "none" gives "none" whatever the width |
| `Utils.BorderEmptyStyleIsUnset` | lib/utils.ts:6-12 | an empty `borderStyle` leaves the border undefined even with a width |
| `Utils.PaddingReadsBackAsSides` | lib/utils.ts:17 | with `padding` unset and no side holding a space, splitting the resolved padding at spaces gives the four defaulted sides in order T, R, B, L |
| `Utils.BorderReadsBackAsParts` | lib/utils.ts:9 | with a style other than "none" and no space in the three fields, splitting the border at spaces gives the defaulted width, the style and the defaulted color |
| `Utils.FindComponentById` | lib/utils.ts:47-59 | returns nothing exactly when the identifier occurs nowhere in the forest, at any depth; otherwise a node with that identifier taken from the forest |
| `Utils.FindIsFirstInPreOrder` | lib/utils.ts:51-58 | the node returned is the first node with the identifier in pre-order (node, then its children, then its next sibling) |
| `Utils.FirstWithIdAtIndex` | lib/utils.ts:51-58 | that first node sits at an index that holds the identifier, and no earlier index does |
| `Utils.FindIsAtFirstIndex` | lib/utils.ts:51-58 | the node found is the one at the least pre-order position holding the identifier; nothing is found when no position holds it |
| `Utils.MergeStyles` | lib/utils.ts:70-73 | the merge has the keys of both records; the update's values win; keys missing from the update keep their old values |
| `Utils.UpdateComponentStyle` | lib/utils.ts:61-84 | keeps the length of the sequence; each node with the identifier gets the merged styles and keeps its children untouched; every other node is unchanged except that a present child sequence is itself updated by the same rule |
| `Utils.UpdateRestylesOnlyMatches` | lib/utils.ts:66-83 | in pre-order at every depth: the same number of nodes with the same identifiers; a node without the identifier keeps its styles; a node with it keeps them or gets the merged ones |
| `Utils.DeepSiblingKeepsStyles` | lib/utils.ts:76-82 | updating a child `x` of a non-matching parent merges `x`'s styles and leaves its leaf sibling `y` as it was |
| `Utils.UpdatePreservesSkeleton` | lib/utils.ts:66-83 | with styles erased, the result equals the input: length and order at every level and every node's `id`, `type`, `label` and `content` are unchanged |
| `Utils.UpdateMissingIdIsIdentity` | lib/utils.ts:66-83 | an identifier that occurs nowhere leaves the forest equal by value |
| `Utils.UpdateIdempotent` | lib/utils.ts:70-73 | applying the same update twice equals applying it once |
| `Utils.EmptyUpdateIsIdentity` | lib/utils.ts:70-73 | an empty update leaves the forest equal by value |
| `Utils.FindAfterUpdate` | lib/utils.ts:61-84 | looking the identifier up after the update finds the node found before, carrying the merged styles; nothing is found if nothing was found before |
| `Utils.NestedMatchIsNotUpdated` | lib/utils.ts:67-76 | a child carrying its parent's matching identifier keeps its old styles, and lookup then returns the updated parent |
| `Utils.ImportFromJSON` | lib/utils.ts:90-96 | a parse failure becomes the failure "Invalid JSON format"; otherwise the parsed value is returned |
| `Page.Editor.constructor` | app/page.tsx:12-14 | no screen, no selection and a clean page; the session slot keeps what an earlier page left there |
| `Page.Editor.Load` | app/page.tsx:17-27 | a non-empty saved text that parses becomes the screen; otherwise the screen is unchanged |
| `Page.Editor.SelectedComponent` | app/page.tsx:94-109 | nothing while no non-empty identifier is selected or no screen is loaded; otherwise the result of `findComponentById` on the screen's components, which the page's inline search duplicates: the first node in pre-order with the selected identifier, absent exactly when no node has it |
| `Page.Editor.Select` | app/page.tsx:260 | the selection becomes the reported identifier |
| `Page.Editor.StyleChange` | app/page.tsx:37-52 | without a selection or a screen nothing changes, the dirty flag included; otherwise only `components` change, to the mutator's result, and the page is dirty; the selected node afterwards is the one selected before, with the merged styles |
| `Page.Editor.Import` | app/page.tsx:74-92 | no file changes nothing; text that parses replaces the screen, clears the selection and sets the dirty flag, with the success alert; otherwise screen, selection and flag are unchanged and the alert carries "Invalid JSON format" |
| `Page.Editor.Persist` | app/page.tsx:30-35 | only a dirty page with a screen writes the exported screen to the session slot and clears the flag; otherwise nothing changes |

## Left out

- Utils.OpacityRule: the value is kept as its string. The numeric conversion `parseFloat` and its `NaN` on malformed text are floating point, so they are not modelled.
- Utils.ImportFromJSON: `JSON.parse` and `JSON.stringify` are foreign library calls. They are uninterpreted parameters here. Text that parses to a JSON value other than a screen is not modelled, because the source does not validate the shape.
- Styles: style keys outside the declared `StyleProps` fields are not modelled. An imported document could carry them, and the object spread would keep them.
- Page.Editor.StyleChange: accepts any update record. The style panel only ever sends one key with a string value (components/StyleEditor.tsx:237-239). The slider's percent-to-fraction opacity conversion is floating point and is left out.
- Page.Editor.StyleChange: React scheduling is not modelled. The callback reads a `screen` captured when the selection last changed (`useCallback` dependencies at app/page.tsx:52), whereas the model reads the current screen. The inner `if (!prev) return null` at line 41 cannot fire in the model.
- Page.Editor.Persist and Page.Editor.Load: React effects are explicit method calls. When they run after a render is not modelled.
- Browser I/O is not modelled: `FileReader` (Import receives the file's text), `Blob` and download links (`handleExportJSON`), `alert` (returned as text), `confirm`, `window.location.reload` (`handleReset` and the "Clear cached data" button) and `console.error`. No storage key is modelled: the only stored value is the single session slot.
- Rendering is not modelled: components/ComponentRenderer.tsx, components/ComponentTree.tsx, components/StyleEditor.tsx and app/layout.tsx.
- Cyclic or shared child arrays cannot be expressed with datatypes. The source's possible non-termination on them is therefore outside the model.
