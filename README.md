# GraphQL console: query text and explorer tree, kept in step

This project models the core of the developer portal's GraphQL console. The
console keeps two views of one query in step: the query text, and the
explorer tree, where each node of the schema can be ticked.

- **Text to tree.** `documentToTree` parses the text. It clears and reselects
  every operation root (`query`, `mutation`, `subscription`). It then walks
  the syntax tree with a cursor. The walk selects the field, inline fragment,
  argument and object-field nodes whose labels match. It stores argument
  literals as text. It also collects variable definitions and attaches them
  to the operation root when the operation is left.
- **Tree to text.** `createFieldStringFromNodes`, with `checkingGeneration`,
  `createVariableString` and `createArgumentStringFromNode`, renders the
  ticked nodes back into query text. The layout is tabs and braces.
- **Validator message.** `tryParseGraphQLSchema` records a parse error's
  message and its first position.
- **Two small helpers.** `gqlFieldName` writes a field's caption.
  `addSystemHeaders` filters the request headers.
- **Widget model binder.** The custom widget's binder, which converts the
  stored contract to the model and back.

The explorer tree is an arena. Nodes are integer handles into
`Tree(info, state)`:

- `info` is fixed when the tree is built from the schema: kind (output or
  input), label, whether the parent's type is a union, input type class,
  children and parent.
- `state` is what the console changes: `selected`, `inputValue` and the
  root's `variables`.

The parsed document is a datatype. The depth-first order of the GraphQL
library's `visit` is the event list `GraphqlAst.Visit`. The synchroniser is
specified as a fold `TreeSync.Run` of one callback step `TreeSync.Step` over
those events. A callback that dereferences an undefined node ends the fold
with `Thrown`, and the tree stays as it was at that point, because the
surrounding `catch` swallows the error. The class `GraphqlConsole.Console`
holds the console's fields. Its method `DocumentToTree` resets the roots and
then calls `Replay`, which runs the loop over the events with the cursor and
the collected variables as local variables. `Replay` is proved equal to the
fold.

Some of the code's own behaviour is reproduced rather than corrected:

- A field whose label matches no output child does not move the cursor down,
  yet its leave still pops the cursor (`CallbackRules.UnmatchedFieldPops`).
  The cursor therefore stays aligned with the syntax tree only when every
  name resolves (`SyncAlignment`).
- An argument literal with no matching input node throws after the roots were
  already cleared (`SyncAlignment.ThrowAfterClear`).
- A non-null type that is not a named type is collected with an undefined
  type text, which renders as `undefined`.
- A node counts as an operation purely because its label is `query`,
  `mutation` or `subscription`.

In three places the code behaves in ways that are easy to miss. The model
follows the code:

- **Inline fragment without a type condition.** The lookup reads
  `typeCondition.name` at the first output child it tests, so the code throws
  exactly when the cursor has an output child
  (`CallbackRules.EnterInlineFragmentRule`). Without an output child the enter
  does nothing, yet the fragment's leave still pops the cursor.
- **Where the variables are stored.** They are gathered in a local list and
  stored on whatever node the cursor is at when the operation is left. After
  an unmatched field the cursor is above the root by then, and the variables
  are stored nowhere (`CallbackRules.UnmatchedDropsVariables`). After a
  `__typename` field that matches a child, the cursor is still at that child,
  and the variables land there.
- **Missing location list in the validator.** A syntax error without a
  location list makes the validator itself throw, after it has marked the
  content invalid.

## Model

| member | source | states |
|---|---|---|
| GraphqlConsole.Console.DocumentToTree | src/components/operations/operation-details/ko/runtime/graphql-console.ts:191-260 | the tree becomes `Sync` of the old tree, roots and parsed document (unchanged when parsing fails); roots, text and validator fields are unchanged |
| GraphqlConsole.Console.ResetRoots | src/components/operations/operation-details/ko/runtime/graphql-console.ts:194-197 | after the loop over the roots the tree is `ClearRoots` of the old tree; nothing else changes |
| GraphqlConsole.Console.Replay | src/components/operations/operation-details/ko/runtime/graphql-console.ts:198-254 | the visit leaves the tree as `Run` of the callbacks from an undefined cursor and no variables, stopping at the first throw; roots, text and validator fields are unchanged |
| GraphqlConsole.Console.Callback | src/components/operations/operation-details/ko/runtime/graphql-console.ts:202-253 | each callback of the visit does what `Step` specifies for its event, throwing or handing on the new cursor and variables |
| GraphqlConsole.Console.Enter | src/components/operations/operation-details/ko/runtime/graphql-console.ts:203-242 | the enter callback does what `Step` specifies; when it throws, the tree is as before |
| GraphqlConsole.Console.Leave | src/components/operations/operation-details/ko/runtime/graphql-console.ts:244-253 | the leave callback does what `Step` specifies (store variables on leaving an operation, then pop unless `__typename`) |
| GraphqlConsole.Console.GenerateDocument | src/components/operations/operation-details/ko/runtime/graphql-console.ts:476-479 | the text becomes the rendering of the tree from the roots; tree and validator fields unchanged |
| GraphqlConsole.Console.TryParseGraphQLSchema | src/components/operations/operation-details/ko/runtime/graphql-console.ts:262-278 | no error leaves everything; an error marks the content invalid and stores the message with the first position, or throws when there is no location list |
| GraphqlConsole.ErrorText | src/components/operations/operation-details/ko/runtime/graphql-console.ts:270-276 | the shown text starts with the parser's message |
| GraphqlConsole.ErrorTextRoundTrip | src/components/operations/operation-details/ko/runtime/graphql-console.ts:270-276 | the text after the message reads back as exactly the first location (or nothing when there is none) |
| GraphqlConsole.AddSystemHeaders | src/components/operations/operation-details/ko/runtime/graphql-console.ts:350-352 | at most as many headers as rows, each with a non-empty name and value |
| GraphqlConsole.SentIff | src/components/operations/operation-details/ko/runtime/graphql-console.ts:350-352 | a header is sent iff some row, with a missing value read as empty, becomes it and both its name and value are non-empty |
| GraphqlConsole.SentAppend | src/components/operations/operation-details/ko/runtime/graphql-console.ts:350-352 | the filter keeps order: the headers of two lists of rows are sent one after the other |
| GraphqlConsole.GqlFieldName | src/components/operations/operation-details/ko/runtime/graphql-console.ts:580-584 | the caption starts with the field's name |
| GraphqlConsole.FieldNameRoundTrip | src/components/operations/operation-details/ko/runtime/graphql-console.ts:580-584 | the caption reads back as the name, whether it is an input, and whether an input is required |
| SelectionTree.OfKind | src/components/operations/operation-details/ko/runtime/graphql-console.ts:493-500 | the input (or output) children: exactly the children of that kind |
| SelectionTree.OfKindAppend | src/components/operations/operation-details/ko/runtime/graphql-console.ts:493-500 | the split keeps order: the children of a kind in two lists are those of each, one after the other |
| SelectionTree.FindChild | src/components/operations/operation-details/ko/runtime/graphql-console.ts:207-214 | the child found has the kind and label and is a child of the cursor; none is found iff no child has both |
| SelectionTree.Select | src/components/operations/operation-details/ko/runtime/graphql-console.ts:226-228 | `toggle(true, false)`: only that node becomes selected, every other field and node unchanged |
| SelectionTree.Deselect | src/components/operations/operation-details/ko/runtime/graphql-console.ts:194-196 | `clear()`: every node of the subtree is deselected, every other node unchanged |
| TreeSync.ClearOne | src/components/operations/operation-details/ko/runtime/graphql-console.ts:195-196 | no contract beyond keeping the shape; its effect is stated by `SyncProperties.ClearOneAt` |
| DocumentGenerator.VariableEntries | src/components/operations/operation-details/ko/runtime/graphql-console.ts:552-557 | one `$name: type` entry per variable, in order |
| DocumentGenerator.Indented | src/components/operations/operation-details/ko/runtime/graphql-console.ts:512-512 | each line prefixed by `level` tabs |
| DocumentGenerator.CheckingGeneration | src/components/operations/operation-details/ko/runtime/graphql-console.ts:528-534 | no contract; the body is the rule, characterised by `GeneratorProperties.EmittedIff` |
| DocumentGenerator.NodeName | src/components/operations/operation-details/ko/runtime/graphql-console.ts:503-504 | no contract; the body is the rule, characterised by `GeneratorProperties.NestedLine` |
| DocumentGenerator.NodeLine | src/components/operations/operation-details/ko/runtime/graphql-console.ts:502-509 | no contract; characterised by `GeneratorProperties.RootLine` and `GeneratorProperties.NestedLine` |
| DocumentGenerator.Rendered | src/components/operations/operation-details/ko/runtime/graphql-console.ts:491-510 | no contract; characterised by `GeneratorProperties.RenderedLines` and `GeneratorProperties.RenderedAppend` |
| DocumentGenerator.FieldString | src/components/operations/operation-details/ko/runtime/graphql-console.ts:490-524 | no contract; characterised by `GeneratorProperties.BlockLayout` and `GeneratorProperties.GenerateAppend` |
| DocumentGenerator.Generate | src/components/operations/operation-details/ko/runtime/graphql-console.ts:476-479 | no contract; the text of the roots at level 0, characterised by `GeneratorProperties.GenerateAppend` and `GeneratorProperties.OperationOmitted` |
| DocumentGenerator.VariableString | src/components/operations/operation-details/ko/runtime/graphql-console.ts:552-557 | no contract; characterised by `GeneratorProperties.VariableStringShape` |
| DocumentGenerator.ArgumentString | src/components/operations/operation-details/ko/runtime/graphql-console.ts:565-578 | no contract; characterised by `GeneratorProperties.ArgumentStringShape` |
| DocumentGenerator.ArgumentParts | src/components/operations/operation-details/ko/runtime/graphql-console.ts:567-576 | no contract; characterised by `GeneratorProperties.ArgumentPartsAppend` and `GeneratorProperties.ArgumentPartsEmpty` |
| DocumentGenerator.ArgumentPart | src/components/operations/operation-details/ko/runtime/graphql-console.ts:568-575 | no contract; characterised by `GeneratorProperties.ArgumentEntry` |
| GeneratorProperties.Emitted | src/components/operations/operation-details/ko/runtime/graphql-console.ts:528-534 | the nodes `checkingGeneration` passes: exactly those of the input that pass |
| GeneratorProperties.EmittedAppend | src/components/operations/operation-details/ko/runtime/graphql-console.ts:491-509 | the filter keeps order: the emitted nodes of two lists are those of each, one after the other |
| GeneratorProperties.EmittedIff | src/components/operations/operation-details/ko/runtime/graphql-console.ts:501-509 | a node of the list is emitted iff it is selected and either is not an operation or has an active child; an emitted node's line occurs in the output, and a lone node renders as its line or as nothing accordingly |
| GeneratorProperties.OperationOmitted | src/components/operations/operation-details/ko/runtime/graphql-console.ts:528-534 | a selected operation root with nothing active under it leaves the document unchanged when removed |
| GeneratorProperties.RenderedLines | src/components/operations/operation-details/ko/runtime/graphql-console.ts:490-512 | one line per emitted node, in order, each the node's own line |
| GeneratorProperties.RenderedAppend | src/components/operations/operation-details/ko/runtime/graphql-console.ts:490-512 | the lines of two lists of nodes are the lines of each, one after the other |
| GeneratorProperties.BlockLayout | src/components/operations/operation-details/ko/runtime/graphql-console.ts:513-523 | below the roots, the block is empty iff nothing is emitted; otherwise it opens with ` {\n` and `level` tabs and closes with `\n`, `level - 1` tabs and `}` |
| GeneratorProperties.GenerateAppend | src/components/operations/operation-details/ko/runtime/graphql-console.ts:516-518 | roots that both render something are joined by `\n\n` |
| GeneratorProperties.VariableStringShape | src/components/operations/operation-details/ko/runtime/graphql-console.ts:552-557 | the variable header is empty iff there are no variables; otherwise it is parenthesised and opens with the first `$name: type` |
| GeneratorProperties.ArgumentPartsEmpty | src/components/operations/operation-details/ko/runtime/graphql-console.ts:565-576 | no entry iff no input node is selected with a scalar, enum or input-object type; the first entry is never empty |
| GeneratorProperties.ArgumentStringShape | src/components/operations/operation-details/ko/runtime/graphql-console.ts:565-578 | the argument string is empty iff no input node contributes; only the first level is parenthesised |
| GeneratorProperties.ArgumentPartsAppend | src/components/operations/operation-details/ko/runtime/graphql-console.ts:567-576 | the entries of two lists of input nodes are those of each, one after the other, in children order |
| GeneratorProperties.ArgumentEntry | src/components/operations/operation-details/ko/runtime/graphql-console.ts:568-575 | a node gives no entry unless it contributes; a selected scalar or enum gives `label: value` with the stored value verbatim; a selected input object gives `label: { … }` around its children's entries |
| GeneratorProperties.RootLine | src/components/operations/operation-details/ko/runtime/graphql-console.ts:505-506 | an operation root's line is its label, its variable header and its block one level down |
| GeneratorProperties.NestedLine | src/components/operations/operation-details/ko/runtime/graphql-console.ts:503-508 | a node below the roots is written `... on label` when its parent's type is a union and `label` otherwise, then its arguments and its block one level down |
| GeneratorProperties.LeafLine | src/components/operations/operation-details/ko/runtime/graphql-console.ts:503-508 | a childless node whose parent is not a union renders as its label alone |
| GraphqlAst.Visit | src/components/operations/operation-details/ko/runtime/graphql-console.ts:201-202 | no contract; the depth-first event order of the library's `visit`, used by `TreeSync.Sync` and `SyncAlignment` |
| TreeSync.Literal | src/components/operations/operation-details/ko/runtime/graphql-console.ts:215-223 | a null, list or object value stores nothing; every other literal stores a text |
| TreeSync.LiteralRoundTrip | src/components/operations/operation-details/ko/runtime/graphql-console.ts:215-223 | the stored text of a well-formed literal reads back as the same literal (strings quoted, variables with `$`, others verbatim) |
| TreeSync.DeclaredVariable | src/components/operations/operation-details/ko/runtime/graphql-console.ts:230-241 | a list type collects nothing, every other type collects an entry with the variable's name |
| TreeSync.TypeRoundTrip | src/components/operations/operation-details/ko/runtime/graphql-console.ts:231-236 | a named or non-null named type is collected with a type text that reads back as the same type |
| TreeSync.FirstNamed | src/components/operations/operation-details/ko/runtime/graphql-console.ts:206-206 | the position of the first root with the label, none iff no root has it |
| TreeSync.FindRoot | src/components/operations/operation-details/ko/runtime/graphql-console.ts:206-206 | the root found is a root labelled with the operation's keyword; none iff no root has that label |
| TreeSync.SetInput | src/components/operations/operation-details/ko/runtime/graphql-console.ts:217-222 | the node's state is the old one with `inputValue` replaced by the text; every other node keeps its state |
| TreeSync.SetVariables | src/components/operations/operation-details/ko/runtime/graphql-console.ts:248-250 | the node's state is the old one with `variables` replaced by the collected list; every other node keeps its state |
| TreeSync.Up | src/components/operations/operation-details/ko/runtime/graphql-console.ts:251-252 | the parent lies above the node |
| TreeSync.Descend | src/components/operations/operation-details/ko/runtime/graphql-console.ts:226-228 | the matched child becomes the cursor with its old state plus `selected`; every other node keeps its state |
| TreeSync.EnterOutput | src/components/operations/operation-details/ko/runtime/graphql-console.ts:207-229 | below a cursor, a field or typed fragment never throws; nothing changes iff no output child has the label; otherwise the cursor moves to such a child, which gains `selected`, and no other node changes |
| TreeSync.EnterArgument | src/components/operations/operation-details/ko/runtime/graphql-console.ts:214-228 | throws iff no input child has the label and the value is a literal, with the tree unchanged; otherwise nothing changes iff there is no such child, or the cursor moves to such a child, which gains `selected` and the literal's text (or keeps its value), and no other node changes |
| TreeSync.Pop | src/components/operations/operation-details/ko/runtime/graphql-console.ts:244-253 | a leave changes no node and no collected variable |
| TreeSync.LeaveOperationAt | src/components/operations/operation-details/ko/runtime/graphql-console.ts:248-252 | the cursor's node takes the collected variables, no other node changes, and the cursor moves to its parent |
| TreeSync.Step | src/components/operations/operation-details/ko/runtime/graphql-console.ts:202-253 | a throw keeps the tree; a field, fragment or argument with no cursor throws; a continuation takes back no selection and changes only children of the cursor (or the cursor itself on leaving an operation) |
| TreeSync.Run | src/components/operations/operation-details/ko/runtime/graphql-console.ts:200-254 | the walk keeps the tree's shape and a sound cursor, thrown or not |
| TreeSync.RunAppend | src/components/operations/operation-details/ko/runtime/graphql-console.ts:200-254 | walking two event lists is walking the first, then the second from where it stopped (or stopping at a throw) |
| TreeSync.ClearRoots | src/components/operations/operation-details/ko/runtime/graphql-console.ts:194-197 | the clear loop keeps the tree's shape |
| TreeSync.Sync | src/components/operations/operation-details/ko/runtime/graphql-console.ts:191-260 | a document that does not parse changes nothing; otherwise the tree's shape is kept |
| SyncProperties.ClearRootsEffect | src/components/operations/operation-details/ko/runtime/graphql-console.ts:194-197 | after the clear loop a node under a root is selected iff it is a root; all else is unchanged, and nodes outside the roots untouched |
| SyncProperties.ClearOneAt | src/components/operations/operation-details/ko/runtime/graphql-console.ts:195-196 | clearing and reselecting one root deselects its subtree except the root itself |
| SyncProperties.StepCovered | src/components/operations/operation-details/ko/runtime/graphql-console.ts:202-253 | one callback keeps the cursor below the roots and never touches a node outside their subtrees |
| SyncProperties.RunCovered | src/components/operations/operation-details/ko/runtime/graphql-console.ts:200-254 | the walk never touches nodes outside the roots' subtrees and never deselects a node |
| SyncProperties.SyncCovered | src/components/operations/operation-details/ko/runtime/graphql-console.ts:191-260 | sync never changes a node outside the roots' subtrees, and after a successful parse every root is selected |
| CallbackRules.FindChildFirst | src/components/operations/operation-details/ko/runtime/graphql-console.ts:207-214 | `find` returns exactly the first child with the kind and label |
| CallbackRules.FindRootFirst | src/components/operations/operation-details/ko/runtime/graphql-console.ts:206-206 | `globalNodes().find` returns exactly the first root labelled with the operation's keyword |
| CallbackRules.EnterOperationRule | src/components/operations/operation-details/ko/runtime/graphql-console.ts:204-206 | entering an operation resets the variables, changes no node, and moves the cursor to the first root with the keyword (undefined iff none) |
| CallbackRules.EnterFieldRule | src/components/operations/operation-details/ko/runtime/graphql-console.ts:207-229 | a field with no labelled output child changes nothing; otherwise its first such child is selected, becomes the cursor, and is the only node changed |
| CallbackRules.EnterInlineFragmentRule | src/components/operations/operation-details/ko/runtime/graphql-console.ts:207-228 | with a type condition a fragment enters like a field of that label; without one it throws exactly when the cursor has an output child, with the tree as it was, and otherwise changes nothing |
| CallbackRules.EnterInputMissing | src/components/operations/operation-details/ko/runtime/graphql-console.ts:214-217 | with no matching input child a literal throws with the tree as it was, and any other value is skipped |
| CallbackRules.EnterInputFound | src/components/operations/operation-details/ko/runtime/graphql-console.ts:214-228 | the first matching input child is selected, takes the literal's text (or keeps its value), becomes the cursor, and is the only node changed |
| CallbackRules.VariableDefinitionRule | src/components/operations/operation-details/ko/runtime/graphql-console.ts:230-241 | a variable definition appends `Name`, `Name!`, an undefined type, or nothing (list type) to the collected list, changing nothing else |
| CallbackRules.LeaveRule | src/components/operations/operation-details/ko/runtime/graphql-console.ts:244-253 | every leave pops except a `__typename` field's; only leaving an operation changes a node, storing the variables on the cursor |
| CallbackRules.UnmatchedFieldPops | src/components/operations/operation-details/ko/runtime/graphql-console.ts:245-252 | an unmatched field leaves the cursor one level too high after its leave |
| CallbackRules.UnmatchedDropsVariables | src/components/operations/operation-details/ko/runtime/graphql-console.ts:244-252 | after an unmatched field directly below a root, leaving the operation stores the collected variables nowhere: the tree is unchanged and the cursor is undefined |
| CallbackRules.ArgumentRoundTrip | src/components/operations/operation-details/ko/runtime/graphql-console.ts:214-222 | a literal synced onto a scalar or enum argument node is generated back as `label: text`, so `id: $id` comes back as `id: $id` |
| SyncAlignment.Declared | src/components/operations/operation-details/ko/runtime/graphql-console.ts:230-241 | at most one collected entry per definition |
| SyncAlignment.ValueAligned | src/components/operations/operation-details/ko/runtime/graphql-console.ts:244-253 | a value whose object fields all resolve ends with the cursor and variables as before |
| SyncAlignment.ListAligned | src/components/operations/operation-details/ko/runtime/graphql-console.ts:244-253 | the same for the items of a list value |
| SyncAlignment.InputAligned | src/components/operations/operation-details/ko/runtime/graphql-console.ts:214-253 | an argument or object field that resolves ends with the cursor and variables as before |
| SyncAlignment.ObjectFieldsAligned | src/components/operations/operation-details/ko/runtime/graphql-console.ts:214-253 | the same for the fields of an object value |
| SyncAlignment.ArgumentsAligned | src/components/operations/operation-details/ko/runtime/graphql-console.ts:214-253 | the same for a list of arguments |
| SyncAlignment.DirectivesAligned | src/components/operations/operation-details/ko/runtime/graphql-console.ts:214-253 | the same for the arguments of directives |
| SyncAlignment.SelectionsAligned | src/components/operations/operation-details/ko/runtime/graphql-console.ts:207-253 | a selection set whose every name resolves ends with the cursor and variables as before |
| SyncAlignment.SelectionAligned | src/components/operations/operation-details/ko/runtime/graphql-console.ts:207-253 | the same for one field, fragment spread or inline fragment, `__typename` included |
| SyncAlignment.NestedAligned | src/components/operations/operation-details/ko/runtime/graphql-console.ts:207-253 | a descent matched on enter is popped by its leave |
| SyncAlignment.VariablesCollected | src/components/operations/operation-details/ko/runtime/graphql-console.ts:230-241 | the definitions of an operation, with their default values and directives, append exactly their declared entries, in order, with the cursor unchanged |
| SyncAlignment.OperationVariables | src/components/operations/operation-details/ko/runtime/graphql-console.ts:204-250 | a resolving operation ends with the cursor undefined and its declared variables stored on its root |
| SyncAlignment.SyncOperation | src/components/operations/operation-details/ko/runtime/graphql-console.ts:191-260 | syncing a one-operation document that resolves leaves its root selected with exactly its declared variables |
| SyncAlignment.ThrowAfterClear | src/components/operations/operation-details/ko/runtime/graphql-console.ts:191-260 | an argument literal with no input node stops the walk: the result is the cleared roots with only the matched field selected again |
| Scenario.GeneratedQuery | src/components/operations/operation-details/ko/runtime/graphql-console.ts:490-524 | a concrete tree renders to the expected nested query text |
| WidgetModelBinder.CanHandleContract | src/components/widget/widgetModelBinder.ts:8-11 | no contract; the body is the rule, used by `WidgetModelBinder.ContractRoundTrip` |
| WidgetModelBinder.ContractToModel | src/components/widget/widgetModelBinder.ts:17-23 | the model holds the contract's name, display name and configuration |
| WidgetModelBinder.ModelToContract | src/components/widget/widgetModelBinder.ts:25-33 | the contract is tagged `customWidget`, so the binder handles it, and holds the model's three fields |
| WidgetModelBinder.ModelRoundTrip | src/components/widget/widgetModelBinder.ts:17-33 | saving a model and loading it back gives the same model |
| WidgetModelBinder.ContractRoundTrip | src/components/widget/widgetModelBinder.ts:8-33 | loading a contract and saving it back gives the same contract iff the binder handles it |
| WidgetModelBinder.LoadInjective | src/components/widget/widgetModelBinder.ts:17-23 | two handled contracts that load to the same model are the same contract |

## Left out

- The GraphQL library is not part of this model. This covers parsing, `visit` and `buildSchema`, and the tree built from the schema (`buildTree`). The parsed document, its event order and the built tree are inputs. A parse failure is `None`.
- The explorer node classes are not part of this model. `toggle(true, false)`, `clear()` and `hasActiveChild()` are written as stated assumptions: select only this node, deselect the subtree, and some output descendant is selected.
- The change callback that a toggle triggers on a node is left out.
- Type-system definitions in a query document are not representable. Aliases and field names are not told apart: the label match uses the field name.
- A node's initial `inputValue` is taken as given text, and `globalNodes` is a list of existing roots. Its possibly undefined entries (`node?.`) are left out.
- Generation idempotence is not proved: syncing the generated text back into fresh roots gives the same selections. Only its building blocks are stated: alignment under resolving names, variable collection, literal and type round trips, and the layout lemmas.
- The `console.log` in `canHandleContract` is left out, because it is output only. `canHandleModel` is left out, because it is an `instanceof` check.
- The widget contract is modelled with exactly its type tag and the three widget fields. Any other fields of the base `Contract` are not modelled; `modelToContract` would drop them.
- The `async` of `contractToModel` is left out: the function returns its model directly.
- HTTP sending, proxying, `JSON.parse` of the variables, the Monaco editor, the debounce timer, the WebSocket stubs, `selectByDefault` and `availableOperations` are left out. They are I/O, UI or unseen services.
- SyncAlignment.SelectionAligned: stated only for documents whose names all resolve. A name that does not resolve misaligns the cursor (`CallbackRules.UnmatchedFieldPops`), and what follows depends on the rest of the document.
- Node objects are values in an arena. Aliasing between `globalNodes` and tree nodes is modelled by shared handles, not by references.
