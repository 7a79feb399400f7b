# BunnyHop block editor: a verified Dafny model of its core

BunnyHop is a block-based programming environment. A program is a tree of
nodes (`BhNode`); every slot of a node is a `Connector` that holds exactly one
child and falls back to a "default" placeholder node when emptied; root nodes
live on a `Workspace`, which keeps a root list, a node list and a selection
list. Every edit goes through an undo log (`UserOperation`) that records
inverse commands and replays them last to first. Generated programs run on a
small JavaScript runtime library.

This project models, in Dafny:

- **The node graph** (`node_model.dfy`, `node_graph.dfy`, `connector.dfy`,
  `replacement.dfy`): nodes, connectors and workspaces in one arena class
  `NodeGraphs.NodeGraph` whose sequences are indexed by object identity
  (`NodeRef`, `CnctrRef`, `WsRef`). The node states (deleted, root, child),
  root finding, descendant tests, breakpoint group leaders, workspace
  bookkeeping (adding and removing node trees, selection sync, reaction to a
  connection), `Connector.connect` with its default-node snapshot, default-node
  creation, `replace` and `remove`.
- **The undo log** (`undo.dfy`, `sequenced_sets.dfy`): the sub-operation list,
  the list commands and their inverses, `doInverseOperation`.
- **The node handler** (`node_handler.dfy`): `deleteNode(s)`, `removeChild`,
  `replaceChild`, `moveToWs`, `exchangeNodes` with its preconditions and case
  split, and the ancestor filter of the older handler's `deleteNodes`.
- **The workspace set** (`workspace_set.dfy`): the copy and cut candidate lists,
  the paste offset cycle, `canCopyOrCut`, the node-removed handler as the
  moves of cut and paste drive it, cut and paste.
- **Node event helpers** (`common_event.dfy`): the any-type to static-type
  tables and the edits the event scripts make through the handler.
- **Runtime libraries** (`js_array.dfy`, `runtime_arrays.dfy`,
  `runtime_sets.dfy`, `colors.dfy`, `lenient_arrays.dfy`): the strict
  `Common.js` array, set and colour helpers with their index and size checks,
  and the lenient `CommonCode.js` variants.
- **Code generation helpers** (`code_gen.dfy`, `symbol_names.dfy`): the string
  builders of `CommonCodeGenerator` and the symbol tables of `SymbolNames`.
- **Smaller state machines** (`style_snippet.dfy`, `project_reader.dfy`,
  `debugger.dfy`): style snippet precedence, the project reader's version and
  instance-id checks and warning collection, and the debugger's thread and
  stack-frame selection with its command guards.

JavaScript numbers are modelled as integers, JavaScript exceptions as `Err`
results, Java `null` as `None`. Collections that are updated in place are
fields of type `seq` in classes (`JsArrays.JsArray`, `Undo.UserOperation`,
`NodeGraphs.NodeGraph`, `WorkspaceSets.WorkspaceSet`,
`StyleSnippets.StyleSnippet`, `ProjectReader.JsonProjectReader`,
`Debugger.BhDebugger`). Source paths in the table below are relative to the
repository root. The older node handler (`modelhandler/BhNodeHandler.java`)
checks the same exchange preconditions (lines 337-348) and reads the same
workspace (lines 359-360) as the service handler; both are modelled once, by
`NodeHandler.ExchangeCheck` and the exchange finding below.

## Model

| member | source | states |
|---|---|---|
| RuntimeArrays.CheckAryIdx | App/BhDefine/Compile/Libs/Common.js:351-363 | accepts exactly the indices in [-(len+margin), len-1+margin]; a non-negative index is kept, a negative one becomes len+margin+index; an empty list fails with the empty-list error, any other list with the range error carrying both bounds |
| RuntimeArrays.CheckAryIdxBothSpellings | App/BhDefine/Compile/Libs/Common.js:351-363 | every valid position is reached both by its own index and by the negative index counting back from the end |
| RuntimeArrays.CheckArySize | App/BhDefine/Compile/Libs/Common.js:365-370 | passes exactly when the grown length stays in [0, _maxArraySize], and otherwise reports length, increment and maximum |
| RuntimeArrays.CheckNumAryElems | App/BhDefine/Compile/Libs/Common.js:372-378 | passes exactly the counts in [0, _maxArraySize] and returns the count unchanged |
| RuntimeArrays.PushArgs | App/BhDefine/Compile/Libs/Common.js:408-411 | the checks of `_aryPush` in order: a count out of range fails first, then a size overflow |
| RuntimeArrays.InsertArgs | App/BhDefine/Compile/Libs/Common.js:420-423 | the checks of `_aryInsert` in order: a bad index fails first with its own error; on success the position is at most the length |
| RuntimeArrays.IdxAndCount | App/BhDefine/Compile/Libs/Common.js:446-452 | the checks of `_aryRemove`/`_aryExtract`: a bad index fails first; on success the position is inside the list |
| RuntimeArrays.RemoveUndoesInsert | App/BhDefine/Compile/Libs/Common.js:420-453 | removing the run an insertion put in restores the list, and extracting it yields exactly the inserted copies |
| RuntimeArrays.RemoveAndExtractSplit | App/BhDefine/Compile/Libs/Common.js:446-466 | what `_aryExtract` keeps is exactly what `_aryRemove` deletes; the two lengths add up to the old length |
| RuntimeArrays.AppendCopies | App/BhDefine/Compile/Libs/Common.js:411-413 | the push loop appends exactly `num` copies of the value and leaves the old elements alone |
| RuntimeArrays.AryPush | App/BhDefine/Compile/Libs/Common.js:408-414 | a failed check leaves the list unchanged and reports the error; otherwise the list is the old one followed by `num` copies of the value |
| RuntimeArrays.AppendOwnRange | App/BhDefine/Compile/Libs/Common.js:433-435 | the spill loop appends the list's own elements [lo, hi) in order |
| RuntimeArrays.ShiftBack | App/BhDefine/Compile/Libs/Common.js:437-439 | the back-to-front copy moves the block [lo, lo+count) up by n and leaves every other position unchanged |
| RuntimeArrays.Fill | App/BhDefine/Compile/Libs/Common.js:440-443 | the fill loop writes the value into [lo, hi) and nothing else |
| RuntimeArrays.AryInsert | App/BhDefine/Compile/Libs/Common.js:420-444 | a failed check leaves the list unchanged; otherwise the list is prefix + `num` copies + old suffix, so it grows by exactly `num` |
| RuntimeArrays.InsertTailLayout | App/BhDefine/Compile/Libs/Common.js:426-435 | after the two appending phases the old elements are in place, the appended copies fill the positions up to idx+num, and the spilled tail sits num places further on |
| RuntimeArrays.AryRemove | App/BhDefine/Compile/Libs/Common.js:446-453 | an empty list is left alone without any check; a failed check changes nothing; otherwise min(num, len-idx) elements from idx on are deleted |
| RuntimeArrays.AryExtract | App/BhDefine/Compile/Libs/Common.js:455-466 | an empty list is left alone; a failed check changes nothing; otherwise exactly the elements [idx, idx+min(len-idx, num)) remain, in order |
| RuntimeArrays.AryClear | App/BhDefine/Compile/Libs/Common.js:468-470 | the list is empty afterwards |
| RuntimeArrays.AddAllArgs | App/BhDefine/Compile/Libs/Common.js:473-474 | the checks of `_aryAddAll`: the index (one past the end allowed), then the combined size |
| RuntimeArrays.AryAddAllAsWritten | App/BhDefine/Compile/Libs/Common.js:472-479 | as written: with two different lists the result is A[..idx] + B + A[idx..]; with the same list it is A[..idx] + A[..idx] + A[idx..] |
| RuntimeArrays.SelfAddAllLosesElements | App/BhDefine/Compile/Libs/Common.js:476-478 | adding a list into itself as written is never the intended insertion when the index is inside the list |
| RuntimeArrays.SelfAddAllExample | App/BhDefine/Compile/Libs/Common.js:476-478 | the concrete case [1, 2] at index 1: [1, 1, 2] instead of [1, 1, 2, 2] |
| RuntimeArrays.AryAddAll | App/BhDefine/Compile/Libs/Common.js:472-479 | with B copied first, the result is A[..idx] + B + A[idx..] whether or not the lists are the same; a failed check changes nothing |
| RuntimeArrays.AryGet | App/BhDefine/Compile/Libs/Common.js:481-484 | a non-negative index in range reads from the front, a negative one counts from the end, anything else fails, and an empty list fails with the empty-list error |
| RuntimeArrays.AryGetLast | App/BhDefine/Compile/Libs/Common.js:486-489 | the last element, or the empty-list error |
| RuntimeArrays.ArySet | App/BhDefine/Compile/Libs/Common.js:491-494 | a failed check changes nothing; otherwise exactly the designated element is overwritten |
| RuntimeArrays.GetAfterSet | App/BhDefine/Compile/Libs/Common.js:481-494 | `_aryGet` with the index just used by `_arySet` reads the stored value |
| RuntimeArrays.AryFirstIndexOf | App/BhDefine/Compile/Libs/Common.js:504-510 | the first position holding the element, and no result (NaN) exactly when the element is absent |
| RuntimeArrays.AryLastIndexOf | App/BhDefine/Compile/Libs/Common.js:512-518 | the last position holding the element, and no result exactly when it is absent |
| RuntimeArrays.AryIncludes | App/BhDefine/Compile/Libs/Common.js:520-522 | true exactly when the element occurs |
| RuntimeArrays.AryEq | App/BhDefine/Compile/Libs/Common.js:524-536 | true exactly when the lengths agree and the elements agree pairwise |
| RuntimeArrays.AryNeq | App/BhDefine/Compile/Libs/Common.js:538-540 | the negation of list equality |
| RuntimeSets.Dedup | App/BhDefine/Compile/Libs/Common.js:542-549 | the de-duplicated list is no longer than the input, holds every element of the input and nothing else, and has no repetition |
| RuntimeSets.DedupKeepsFirstOccurrenceOrder | App/BhDefine/Compile/Libs/Common.js:542-549 | the de-duplicated list keeps the elements in the order of their first occurrences |
| RuntimeSets.DelDuplicates | App/BhDefine/Compile/Libs/Common.js:542-549 | `_delDuplicates` returns a new list holding the first occurrence of every element, in order |
| RuntimeSets.AllIncluded | App/BhDefine/Compile/Libs/Common.js:565-567 | the membership loop is true exactly when each of the first n entries occurs in the other list |
| RuntimeSets.IsSubsetAsWritten | App/BhDefine/Compile/Libs/Common.js:556-570 | as written: the same list, or no more distinct elements and the leading entries of the ORIGINAL first list all included |
| RuntimeSets.IsProperSubsetAsWritten | App/BhDefine/Compile/Libs/Common.js:572-586 | as written: different lists, fewer distinct elements and the leading original entries included |
| RuntimeSets.SetEqAsWritten | App/BhDefine/Compile/Libs/Common.js:596-610 | as written: the same list, or as many distinct elements and the leading original entries included |
| RuntimeSets.SetComparisonsAsWrittenCounterexample | App/BhDefine/Compile/Libs/Common.js:565-567 | [1, 1, 3] against [1, 2] (and [1, 2, 4]) passes the as-written tests although 3 is missing from the second list |
| RuntimeSets.DedupIncluded | App/BhDefine/Compile/Libs/Common.js:542-567 | the de-duplicated first list is included in the de-duplicated second exactly when the element sets are included |
| RuntimeSets.DedupCard | App/BhDefine/Compile/Libs/Common.js:542-549 | the de-duplicated length is the number of distinct elements |
| RuntimeSets.IsSubset | App/BhDefine/Compile/Libs/Common.js:556-570 | with the loop reading the de-duplicated list: true exactly when the first list's elements are among the second's |
| RuntimeSets.IsProperSubset | App/BhDefine/Compile/Libs/Common.js:572-586 | corrected: true exactly for strict inclusion of the element sets |
| RuntimeSets.SetEq | App/BhDefine/Compile/Libs/Common.js:596-610 | corrected: true exactly when the element sets are equal |
| RuntimeSets.IsSuperset | App/BhDefine/Compile/Libs/Common.js:588-590 | with the corrected subset test it delegates to (see ## Findings): true exactly when the second list's elements are among the first's |
| RuntimeSets.IsProperSuperset | App/BhDefine/Compile/Libs/Common.js:592-594 | with the corrected proper subset test it delegates to (see ## Findings): strict inclusion the other way round |
| RuntimeSets.SetNeq | App/BhDefine/Compile/Libs/Common.js:612-614 | with the corrected equality it negates (see ## Findings): true exactly when the element sets differ |
| Colors.Clamp | App/BhDefine/Compile/Libs/Common.js:187-194 | below min gives min, above max gives max, otherwise the value; with min <= max the result lies in [min, max] |
| Colors.ClampIdempotent | App/BhDefine/Functions/lib/CommonCode.js:168-175 | clamping twice is clamping once |
| Colors.ClampMonotone | App/BhDefine/Functions/lib/CommonCode.js:168-175 | clamping preserves the order of its inputs |
| Colors.AddColor | App/BhDefine/Compile/Libs/Common.js:844-849 | every component of the sum lies in [0, 255], and is the plain sum whenever that is in range |
| Colors.SubColor | App/BhDefine/Compile/Libs/Common.js:851-856 | every component of the difference lies in [0, 255], and is the plain difference whenever that is in range |
| Colors.ColorArithmetic | App/BhDefine/Functions/lib/CommonCode.js:564-576 | adding is symmetric, black is neutral for valid colours, a colour minus itself is black |
| Colors.SubUndoesAdd | App/BhDefine/Functions/lib/CommonCode.js:564-576 | subtracting what was added gives back the colour when no component was clamped |
| LenientArrays.AryPush | App/BhDefine/Functions/lib/CommonCode.js:261-263 | appends the one value |
| LenientArrays.AryInsert | App/BhDefine/Functions/lib/CommonCode.js:269-273 | inserts the value before idx when 0 <= idx <= length, and otherwise leaves the list unchanged |
| LenientArrays.AryRemove | App/BhDefine/Functions/lib/CommonCode.js:275-279 | deletes the element at idx when 0 <= idx < length, and otherwise leaves the list unchanged |
| LenientArrays.AryClear | App/BhDefine/Functions/lib/CommonCode.js:281-283 | the list is empty afterwards |
| LenientArrays.AryAddAll | App/BhDefine/Functions/lib/CommonCode.js:285-287 | appends all of the second list in order, also when both are the same list |
| LenientArrays.AryGet | App/BhDefine/Functions/lib/CommonCode.js:289-294 | the element at idx when it is in range, the default otherwise |
| LenientArrays.AryGetLast | App/BhDefine/Functions/lib/CommonCode.js:296-300 | the last element, or the default on an empty list |
| LenientArrays.ArySet | App/BhDefine/Functions/lib/CommonCode.js:302-306 | overwrites exactly the element at idx when it is in range, and otherwise changes nothing |
| LenientArrays.LenientGetMatchesStrict | App/BhDefine/Functions/lib/CommonCode.js:289-300 | the lenient and strict reads agree on non-negative indices in range; past the end the strict one fails and the lenient one gives the default; a negative index counts from the end only in the strict library |
| LenientArrays.LenientInsertMatchesStrict | App/BhDefine/Functions/lib/CommonCode.js:269-279 | a lenient insertion inside the list is the strict insertion of one copy, and removing at the same index undoes it |
| LenientArrays.CompareColors | App/BhDefine/Functions/lib/CommonCode.js:551-562 | 'eq' gives component-wise equality, 'neq' its negation, any other operator is an error |
| LenientArrays.CompareColorsOpposite | App/BhDefine/Functions/lib/CommonCode.js:551-562 | 'eq' and 'neq' always answer, oppositely, and 'eq' is colour equality |
| CodeGen.GenVarName | src/main/java/net/seapanda/bunnyhop/compiler/CommonCodeGenerator.java:37-39 | the name is the variable prefix followed by exactly the serial number |
| CodeGen.GenVarAccessorName | src/main/java/net/seapanda/bunnyhop/compiler/CommonCodeGenerator.java:47-49 | the name is the accessor prefix followed by exactly the serial number |
| CodeGen.GenFuncName | src/main/java/net/seapanda/bunnyhop/compiler/CommonCodeGenerator.java:57-59 | the name is the function prefix followed by exactly the serial number |
| CodeGen.GeneratedNamesInjective | src/main/java/net/seapanda/bunnyhop/compiler/CommonCodeGenerator.java:37-59 | different serial numbers give different variable, accessor and function names |
| CodeGen.Split | src/main/java/net/seapanda/bunnyhop/compiler/CommonCodeGenerator.java:68-83 | reading an argument list back always yields at least one argument |
| CodeGen.SplitNoSep | src/main/java/net/seapanda/bunnyhop/compiler/CommonCodeGenerator.java:68-83 | a text without separators reads back as one argument, and a separator after it starts the next one |
| CodeGen.SplitJoin | src/main/java/net/seapanda/bunnyhop/compiler/CommonCodeGenerator.java:68-83 | the comma-joined argument list reads back as the arguments when none of them contains a comma |
| CodeGen.GenFuncCall | src/main/java/net/seapanda/bunnyhop/compiler/CommonCodeGenerator.java:68-83 | the appending loop yields name + "(" + arguments joined by "," + ")", and name + "()" without arguments |
| CodeGen.GenPropertyAccess | src/main/java/net/seapanda/bunnyhop/compiler/CommonCodeGenerator.java:107-113 | the root followed by "." and each property, in order |
| CodeGen.DottedAppend | src/main/java/net/seapanda/bunnyhop/compiler/CommonCodeGenerator.java:107-113 | accessing properties in two steps is accessing them all at once, and the result starts with the root |
| CodeGen.GenFuncPrototypeCall | src/main/java/net/seapanda/bunnyhop/compiler/CommonCodeGenerator.java:92-98 | funcName.call(thisObj,args...) with the receiver as the first argument |
| CodeGen.PrototypeCallReceiverFirst | src/main/java/net/seapanda/bunnyhop/compiler/CommonCodeGenerator.java:92-98 | the argument list of a prototype call is the receiver alone, or the receiver, a comma and the other arguments |
| CodeGen.ReplaceAllConcat | src/main/java/net/seapanda/bunnyhop/compiler/CommonCodeGenerator.java:438-444 | replacing in a concatenation is concatenating the replacements |
| CodeGen.UnescapeStep | src/main/java/net/seapanda/bunnyhop/compiler/CommonCodeGenerator.java:438-444 | an escaped character in front of more text reads back as that character |
| CodeGen.ReplacePassesEscapeEachChar | src/main/java/net/seapanda/bunnyhop/compiler/CommonCodeGenerator.java:438-444 | the three replace passes escape the text character by character |
| CodeGen.ToJsString | src/main/java/net/seapanda/bunnyhop/compiler/CommonCodeGenerator.java:438-444 | the result is a quoted literal whose body holds no raw line feed and holds a raw carriage return exactly when the text does |
| CodeGen.ToJsStringRoundTrip | src/main/java/net/seapanda/bunnyhop/compiler/CommonCodeGenerator.java:438-444 | the quoted literal reads back as the original text whenever the text has no carriage return |
| CodeGen.UnescapeEscaped | src/main/java/net/seapanda/bunnyhop/compiler/CommonCodeGenerator.java:438-444 | the escaped body reads back as the text whenever it has no carriage return |
| CodeGen.ToJsStringLeavesCarriageReturn | src/main/java/net/seapanda/bunnyhop/compiler/CommonCodeGenerator.java:438-444 | a carriage return passes through unescaped, and the result is no valid literal |
| CodeGen.ToJsStringFixedRoundTrip | src/main/java/net/seapanda/bunnyhop/compiler/CommonCodeGenerator.java:438-444 | with carriage returns escaped too, every text reads back exactly |
| CodeGen.UnescapeEscapedFixed | src/main/java/net/seapanda/bunnyhop/compiler/CommonCodeGenerator.java:438-444 | the body with four escapes reads back as the text for every input |
| CodeGen.ToJsNumber | src/main/java/net/seapanda/bunnyhop/compiler/CommonCodeGenerator.java:447-454 | "Infinity", "-Infinity" and "NaN" become the Number constants; every other text is kept |
| CodeGen.ToJsNumberIdempotent | src/main/java/net/seapanda/bunnyhop/compiler/CommonCodeGenerator.java:447-454 | converting twice is converting once |
| CodeGen.Indent | src/main/java/net/seapanda/bunnyhop/compiler/CommonCodeGenerator.java:457-480 | exactly 2*depth spaces for every depth >= 0, through the table and the loop alike, and nothing for a negative depth |
| CodeGen.NatToString | src/main/java/net/seapanda/bunnyhop/compiler/CommonCodeGenerator.java:400-407 | the decimal text of a count is non-empty and made of digits |
| CodeGen.NatToStringRoundTrip | src/main/java/net/seapanda/bunnyhop/compiler/CommonCodeGenerator.java:400-407 | the decimal text reads back as the number |
| CodeGen.GenPopFromVarFrame | src/main/java/net/seapanda/bunnyhop/compiler/CommonCodeGenerator.java:383-409 | nothing is appended when the option is off or there are no variables; otherwise one indented statement, "pop()" for one variable and the splice for more |
| SymbolNames.InitValMapKeys | src/main/java/net/seapanda/bunnyhop/compiler/SymbolNames.java:99-134 | exactly the declarations and the placeholders (`VAR_VOID_LIST`) have an initial value |
| SymbolNames.InitValOfListsIsEmpty | src/main/java/net/seapanda/bunnyhop/compiler/SymbolNames.java:99-121 | every list declaration and empty-list placeholder starts as "[]" |
| SymbolNames.InitValOfVoidMatchesDecl | src/main/java/net/seapanda/bunnyhop/compiler/SymbolNames.java:99-121 | each variable placeholder starts with the value of the matching declaration |
| SymbolNames.ArithExpsAreBinary | src/main/java/net/seapanda/bunnyhop/compiler/SymbolNames.java:213-224 | `ARITH_EXCEPTION_EXP` is a subset of `BinaryExp.LIST` |
| SymbolNames.BinaryExpsAreNoStatements | src/main/java/net/seapanda/bunnyhop/compiler/SymbolNames.java:164-224 | no binary expression name is also an assignment or control statement name |
| SymbolNames.VarTablesDisjoint | src/main/java/net/seapanda/bunnyhop/compiler/SymbolNames.java:73-140 | the declaration, variable and void-variable tables share no name |
| SymbolNames.OperatorMapKeys | src/main/java/net/seapanda/bunnyhop/compiler/SymbolNames.java:226-241 | the binary table has exactly its 13 operator keywords |
| SymbolNames.OperatorMapSpacePadded | src/main/java/net/seapanda/bunnyhop/compiler/SymbolNames.java:226-241 | every binary operator maps to a JavaScript operator with one space on each side |
| SymbolNames.OperatorMapInjective | src/main/java/net/seapanda/bunnyhop/compiler/SymbolNames.java:226-241 | different operator keywords map to different JavaScript operators |
| SymbolNames.UnaryOperatorMapComplete | src/main/java/net/seapanda/bunnyhop/compiler/SymbolNames.java:250-259 | NotExp maps to "!" and NegExp to "-", exactly the unary expressions have an operator, and they are not binary expressions |
| SequencedSets.Add | src/main/java/net/seapanda/bunnyhop/workspace/model/Workspace.java:102 | adding to an insertion-ordered set appends the element only when absent: the elements become the old ones plus `x`, the old order is a prefix, and no element repeats |
| SequencedSets.Remove | src/main/java/net/seapanda/bunnyhop/workspace/model/Workspace.java:166 | removing drops exactly `x`, keeps no repetition, and leaves a list without `x` unchanged |
| SequencedSets.AddAll | src/main/java/net/seapanda/bunnyhop/undo/UserOperation.java:714-715 | `Collection.addAll` on a sequenced set: the elements become the union, the old list stays a prefix, and distinctness is kept |
| SequencedSets.RemoveAll | src/main/java/net/seapanda/bunnyhop/undo/UserOperation.java:688-690 | removing each element of a collection leaves exactly the elements not in it, without repetition |
| SequencedSets.ElemsConcat | src/main/java/net/seapanda/bunnyhop/undo/UserOperation.java:714-715 | the elements of a concatenation are the union of the elements |
| SequencedSets.DistinctConcat | src/main/java/net/seapanda/bunnyhop/undo/UserOperation.java:714-715 | a concatenation is repetition-free exactly when both parts are and they share no element |
| SequencedSets.AddAllStep | src/main/java/net/seapanda/bunnyhop/undo/UserOperation.java:714-715 | one step of `addAll` keeps the union, the prefix and distinctness |
| SequencedSets.AddAllAppends | src/main/java/net/seapanda/bunnyhop/undo/UserOperation.java:714-715 | whatever `addAll` appends comes from the added collection |
| SequencedSets.AddAllAppendsAt | src/main/java/net/seapanda/bunnyhop/undo/UserOperation.java:714-715 | every position past the old length holds an element of the added collection |
| SequencedSets.NoElemsEmpty | src/main/java/net/seapanda/bunnyhop/undo/UserOperation.java:62 | a list is empty exactly when it has no elements |
| SequencedSets.RemoveConcat | src/main/java/net/seapanda/bunnyhop/undo/UserOperation.java:688-690 | removing from a concatenation removes from each part |
| SequencedSets.RemoveAllConcat | src/main/java/net/seapanda/bunnyhop/undo/UserOperation.java:688-690 | removing a collection from a concatenation removes it from each part |
| SequencedSets.RemoveAllAbsent | src/main/java/net/seapanda/bunnyhop/undo/UserOperation.java:688-690 | removing elements the list does not hold leaves it unchanged |
| SequencedSets.RemoveAllUndoesAddAll | src/main/java/net/seapanda/bunnyhop/undo/UserOperation.java:686-692 | undoing an addition of new elements gives back exactly the original list |
| SequencedSets.AddAllRestoresRemoved | src/main/java/net/seapanda/bunnyhop/undo/UserOperation.java:713-717 | re-adding removed elements gives back the same set of elements, without repetition |
| SequencedSets.AddAllSnoc | src/main/java/net/seapanda/bunnyhop/undo/UserOperation.java:714-715 | adding a collection one more element long is adding that element after the rest |
| SequencedSets.RemoveAllSnoc | src/main/java/net/seapanda/bunnyhop/undo/UserOperation.java:688-690 | removing a collection one more element long is removing that element after the rest |
| Undo.UserOperation.constructor | src/main/java/net/seapanda/bunnyhop/undo/UserOperation.java:49-52 | a new operation has an empty command log |
| Undo.UserOperation.PushCmd | src/main/java/net/seapanda/bunnyhop/undo/UserOperation.java:357-359 | an anonymous inverse action is appended to the end of the log, nothing else changes |
| Undo.UserOperation.PushCmdOfAddToList | src/main/java/net/seapanda/bunnyhop/undo/UserOperation.java:239-251 | an addition to a list is appended to the end of the log |
| Undo.UserOperation.PushCmdOfRemoveFromList | src/main/java/net/seapanda/bunnyhop/undo/UserOperation.java:259-271 | a removal from a list is appended to the end of the log |
| Undo.UserOperation.PushCmdOfAddNodeToCopyList | src/main/java/net/seapanda/bunnyhop/undo/UserOperation.java:298-300 | an addition to the copy list is appended to the end of the log |
| Undo.UserOperation.PushCmdOfRemoveNodeFromCopyList | src/main/java/net/seapanda/bunnyhop/undo/UserOperation.java:308-310 | a removal from the copy list is appended to the end of the log |
| Undo.UserOperation.PushCmdOfAddNodeToCutList | src/main/java/net/seapanda/bunnyhop/undo/UserOperation.java:318-320 | an addition to the cut list is appended to the end of the log |
| Undo.UserOperation.PushCmdOfRemoveNodeFromCutList | src/main/java/net/seapanda/bunnyhop/undo/UserOperation.java:328-330 | a removal from the cut list is appended to the end of the log |
| Undo.UserOperation.DoInverseOperation | src/main/java/net/seapanda/bunnyhop/undo/UserOperation.java:60-66 | the log is emptied, and the new lists and the fresh inverse operation's log are those of undoing the commands newest first, each as `Undo.InvertOne` states (a node command that changes its list records its inverse twice) |
| Undo.InvertListCmd | src/main/java/net/seapanda/bunnyhop/undo/UserOperation.java:669-718 | undoing an addition removes the added elements and records their removal; undoing a removal re-adds them and records their addition; distinctness is kept |
| Undo.RedoOfUndoneAddRestores | src/main/java/net/seapanda/bunnyhop/undo/UserOperation.java:686-692 | undoing an addition and then redoing it gives back the same elements and the original command |
| Undo.RedoOfUndoneRemoveRestores | src/main/java/net/seapanda/bunnyhop/undo/UserOperation.java:713-717 | undoing a removal and then redoing it gives back the very same list and the original command |
| Undo.Inverted | src/main/java/net/seapanda/bunnyhop/undo/UserOperation.java:669-841 | each recorded inverse trades an addition for a removal of the same elements in the same list |
| Undo.InvertOne | src/main/java/net/seapanda/bunnyhop/undo/UserOperation.java:669-841 | undoing one command changes only the list it names, in the inverse way; a list command records exactly its inverse; a node command records its inverse twice when its list changed (first the list holder's own entry, model/workspace/WorkspaceSet.java lines 170-246, then the command's) and once when it did not; an anonymous command records what its inverse action records |
| Undo.InvertedReversed | src/main/java/net/seapanda/bunnyhop/undo/UserOperation.java:60-66 | the inverse log of a log of list commands: one entry per command, and entry `i` inverts command `n-1-i` |
| Undo.InvertedReversedTwice | src/main/java/net/seapanda/bunnyhop/undo/UserOperation.java:60-66 | inverting a log of list commands twice gives back the log, and its inverse holds list commands only |
| Undo.InvertAllRecordsInverses | src/main/java/net/seapanda/bunnyhop/undo/UserOperation.java:60-66 | undoing a log without anonymous commands records the inverses newest first, where a node command's inverse may be preceded by the list holder's copy of it; for a log of list commands the record is exactly the inverses, newest first |
| Undo.RedoRecordsOriginalLog | src/main/java/net/seapanda/bunnyhop/undo/UserOperation.java:55-66 | for a log of list commands, undoing the inverse log records the original log again, command for command |
| Undo.RedoOfNodeCmdGrowsLog | src/main/java/net/seapanda/bunnyhop/undo/UserOperation.java:764-781 | a node command's log does not round-trip: undoing the addition of a node to the copy list records the removal twice, redoing that records the addition three times, and the copy list comes back as it was |
| NodeModel.GetState | src/main/java/net/seapanda/bunnyhop/node/model/BhNode.java:380-388 | a node is DELETED exactly when it has no workspace, ROOT exactly when it has a workspace and no parent connector, CHILD exactly when it has both |
| NodeModel.ParentNode | src/main/java/net/seapanda/bunnyhop/node/model/BhNode.java:576-585 | a node has a parent node exactly when it has a parent connector, and the parent is a node of the graph |
| NodeModel.FindRootNode | src/main/java/net/seapanda/bunnyhop/node/model/BhNode.java:588-596 | the root found has no parent, is the node itself exactly when the node has no parent, and is an ancestor of the node |
| NodeModel.IsDescendantOf | src/main/java/net/seapanda/bunnyhop/node/model/BhNode.java:607-615 | a node is its own descendant, a parentless node is a descendant of itself only, and an ancestor found is a node of the graph |
| NodeModel.DescendantOfSelfAndParent | src/main/java/net/seapanda/bunnyhop/node/model/BhNode.java:607-615 | every node is a descendant of itself, and a descendant of its parent's ancestors |
| NodeModel.DescendantShortens | src/main/java/net/seapanda/bunnyhop/node/model/BhNode.java:607-615 | in a forest the upward walk bounded by the node count finds every ancestor |
| NodeModel.FindBreakpointGroupLeader | src/main/java/net/seapanda/bunnyhop/node/model/BhNode.java:212-236 | a leader found has the SET setting and is the node or one of its ancestors |
| NodeModel.BreakpointGroupLeaderCases | src/main/java/net/seapanda/bunnyhop/node/model/BhNode.java:217-236 | the leader is the node itself for SET, nothing for IGNORE, and the parent's leader (nothing at a root) for SPECIFY_PARENT |
| NodeModel.Subtree | src/main/java/net/seapanda/bunnyhop/workspace/model/Workspace.java:71-96 | the tree walk from a node starts at that node and visits only nodes of the graph |
| NodeModel.SubtreeSameShape | src/main/java/net/seapanda/bunnyhop/workspace/model/Workspace.java:71-96 | the tree walk depends only on the parent and child links |
| NodeModel.GetDefaultNodeId | src/main/java/net/seapanda/bunnyhop/node/model/Connector.java:206-214 | the id is the connected node's when that node is a default node, else the snapshot's id, else the connector's default id |
| NodeModel.NextSnapshotRule | src/main/java/net/seapanda/bunnyhop/node/model/Connector.java:189-203 | the snapshot is cleared exactly when the new node is a default node, becomes a copy of the old node exactly when a default node gives way to a non-default one, and is kept otherwise |
| NodeModel.CanConnect | src/main/java/net/seapanda/bunnyhop/node/model/Connector.java:280-285 | a fixed connector accepts no node; otherwise the template's handler decides |
| NodeModel.SelectionChanged | src/main/java/net/seapanda/bunnyhop/workspace/model/Workspace.java:413-418 | the selection list gains the node on selection and loses it on deselection, without repetition; the other lists stay |
| NodeModel.SelectionNotified | src/main/java/net/seapanda/bunnyhop/workspace/model/Workspace.java:106 | exactly the workspaces that list the node receive the selection event |
| NodeModel.NodeConnected | src/main/java/net/seapanda/bunnyhop/workspace/model/Workspace.java:397-410 | the connected node leaves the root list; the disconnected node joins it exactly when it is now a root of this workspace; the other lists stay |
| NodeModel.ConnectionNotified | src/main/java/net/seapanda/bunnyhop/workspace/model/Workspace.java:109 | exactly the workspaces that list the connected node receive the connection event |
| NodeGraphs.NodeGraph.constructor | src/main/java/net/seapanda/bunnyhop/workspace/model/Workspace.java:59-62 | a new store holds no node, connector or workspace |
| NodeGraphs.NodeGraph.NewWorkspace | src/main/java/net/seapanda/bunnyhop/workspace/model/Workspace.java:59-62 | a new workspace is appended with empty root, node and selection lists, a missing name is read as "", and the bookkeeping stays consistent |
| NodeGraphs.NodeGraph.SetWorkspace | src/main/java/net/seapanda/bunnyhop/node/model/BhNode.java:467-478 | only the node's workspace changes, and the old workspace is logged exactly when it differs |
| NodeGraphs.NodeGraph.SetLastReplaced | src/main/java/net/seapanda/bunnyhop/node/model/BhNode.java:504-508 | only the node's last-replaced link changes, and its old value is logged |
| NodeGraphs.NodeGraph.NotifySelection | src/main/java/net/seapanda/bunnyhop/workspace/model/Workspace.java:413-418 | every workspace listing the node updates its selection list, and nothing else changes |
| NodeGraphs.NodeGraph.Select | src/main/java/net/seapanda/bunnyhop/node/model/BhNode.java:529-536 | an unselected node becomes selected, joins the selection lists of the workspaces listing it and logs a deselect; a selected node changes nothing; the bookkeeping stays consistent |
| NodeGraphs.NodeGraph.Deselect | src/main/java/net/seapanda/bunnyhop/node/model/BhNode.java:539-546 | a selected node becomes unselected, leaves the selection lists and logs a select; an unselected node changes nothing; the bookkeeping stays consistent |
| NodeGraphs.NodeGraph.SetBreakpoint | src/main/java/net/seapanda/bunnyhop/node/model/BhNode.java:249-256 | the flag takes the value, and an inverse is logged only when it changed |
| NodeGraphs.NodeGraph.SetCorrupted | src/main/java/net/seapanda/bunnyhop/node/model/BhNode.java:273-280 | the flag takes the value, and an inverse is logged only when it changed |
| NodeGraphs.NodeGraph.SetName | src/main/java/net/seapanda/bunnyhop/workspace/model/Workspace.java:267-273 | only the name changes, a missing name becomes "", and the old name is logged |
| NodeGraphs.NodeGraph.AddNode | src/main/java/net/seapanda/bunnyhop/workspace/model/Workspace.java:98-110 | a listed node is left alone; otherwise the node is appended to the node list and gets this workspace |
| NodeGraphs.NodeGraph.RemoveNode | src/main/java/net/seapanda/bunnyhop/workspace/model/Workspace.java:152-167 | an unlisted node is left alone; otherwise the node is deselected where it was selected, loses its workspace and leaves the node list |
| NodeGraphs.NodeGraph.AddNodes | src/main/java/net/seapanda/bunnyhop/workspace/model/Workspace.java:71-90 | adding each node of a walk lists all of them and gives the newly listed ones this workspace |
| NodeGraphs.NodeGraph.RemoveNodes | src/main/java/net/seapanda/bunnyhop/workspace/model/Workspace.java:131-144 | removing each node of a walk unlists the listed ones, clears their workspace and selection, and updates every selection list |
| NodeGraphs.NodeGraph.RemoveNodeTree | src/main/java/net/seapanda/bunnyhop/workspace/model/Workspace.java:131-144 | a root not in this workspace changes nothing; otherwise the root leaves the root list, its whole tree is unlisted and left without a workspace, the re-addition is logged last, and the bookkeeping stays consistent |
| NodeGraphs.NodeGraph.LeaveCurrentWs | src/main/java/net/seapanda/bunnyhop/workspace/model/Workspace.java:71-90 | the tree leaves the workspace it was in, and this workspace's lists are untouched |
| NodeGraphs.NodeGraph.ListTree | src/main/java/net/seapanda/bunnyhop/workspace/model/Workspace.java:71-90 | every node of the tree ends up listed in this workspace and, if it had none, with this workspace |
| NodeGraphs.NodeGraph.MoveTree | src/main/java/net/seapanda/bunnyhop/workspace/model/Workspace.java:71-90 | the tree moves from its old workspace to this one, every node now naming this workspace |
| NodeGraphs.NodeGraph.AddNodeTree | src/main/java/net/seapanda/bunnyhop/workspace/model/Workspace.java:71-90 | a root already here changes nothing; otherwise every node of its tree is listed, the root joins the root list exactly when it is a root, the removal is logged last, and the bookkeeping stays consistent |
| NodeGraphs.Deselected | src/main/java/net/seapanda/bunnyhop/workspace/model/Workspace.java:152-167 | a node is deselected by a batch of removals exactly when it was removed, listed, selected and listed by that workspace |
| NodeGraphs.TreeUnlisted | src/main/java/net/seapanda/bunnyhop/workspace/model/Workspace.java:131-144 | once a tree lying in one workspace is unlisted from it, none of its nodes has a workspace |
| NodeGraphs.SelectKeepsConsistent | src/main/java/net/seapanda/bunnyhop/workspace/model/Workspace.java:413-418 | selecting a node keeps every listed node naming its workspace and every selected node listed |
| NodeGraphs.DeselectKeepsConsistent | src/main/java/net/seapanda/bunnyhop/workspace/model/Workspace.java:413-418 | deselecting a node keeps the bookkeeping consistent |
| NodeGraphs.NewWorkspaceKeepsConsistent | src/main/java/net/seapanda/bunnyhop/workspace/model/Workspace.java:59-62 | an empty new workspace keeps the bookkeeping consistent |
| NodeGraphs.AddNodesKeepsConsistent | src/main/java/net/seapanda/bunnyhop/workspace/model/Workspace.java:98-110 | listing nodes that had no workspace keeps the bookkeeping consistent |
| NodeGraphs.RemoveNodesKeepsConsistent | src/main/java/net/seapanda/bunnyhop/workspace/model/Workspace.java:152-167 | unlisting nodes keeps the bookkeeping consistent |
| Connectors.CopyOf | src/main/java/net/seapanda/bunnyhop/node/model/BhNode.java:184-194 | a copy keeps the template id, breakpoint setting and default flag, and has no parent connector, workspace or last-replaced node |
| Connectors.CopyIsDeleted | src/main/java/net/seapanda/bunnyhop/node/model/BhNode.java:380-388 | a fresh copy is in the DELETED state, neither root nor child |
| Connectors.CreateNode | src/main/java/net/seapanda/bunnyhop/node/model/Connector.java:223 | the factory's node is appended to the arena, and the links and bookkeeping stay consistent |
| Connectors.CopyNode | src/main/java/net/seapanda/bunnyhop/node/model/BhNode.java:155-194 | the copy of the node's record is appended to the arena, and the links and bookkeeping stay consistent |
| Connectors.SetDefault | src/main/java/net/seapanda/bunnyhop/node/model/BhNode.java:558-560 | only the default flag of the node changes |
| Connectors.CreateDefaultNode | src/main/java/net/seapanda/bunnyhop/node/model/Connector.java:220-235 | a new node is appended that is always a default node, carries the id the connector reports as its default id, and hangs nowhere |
| Connectors.Relinked | src/main/java/net/seapanda/bunnyhop/node/model/Connector.java:163-169 | the connector holds the new node, the new node's parent is the connector, the node held until then hangs nowhere, and every other record keeps its links |
| Connectors.RelinkedKeeps | src/main/java/net/seapanda/bunnyhop/node/model/Connector.java:163-169 | relinking keeps every reference valid, and keeps parent and child links in agreement when the new node hung nowhere else |
| Connectors.Relink | src/main/java/net/seapanda/bunnyhop/node/model/Connector.java:164-169 | the arena becomes the relinked graph |
| Connectors.NotifyConnected | src/main/java/net/seapanda/bunnyhop/node/model/Connector.java:179 | the workspaces' root lists become those after the connection event, and nothing else changes |
| Connectors.RelinkAndList | src/main/java/net/seapanda/bunnyhop/node/model/Connector.java:163-174 | the links change as relinking says, node data are kept, and the replaced node's workspace lists the whole tree of the new node |
| Connectors.ConnectImpl | src/main/java/net/seapanda/bunnyhop/node/model/Connector.java:163-180 | the connection takes place, the snapshot is set, the inverse call is logged, and the root lists follow the connection event |
| Connectors.NotifiedRootsFollow | src/main/java/net/seapanda/bunnyhop/workspace/model/Workspace.java:397-410 | after the event no listing workspace holds the connected node as a root, and one whose root the disconnected node now is holds it |
| Connectors.WithSnapshotCopy | src/main/java/net/seapanda/bunnyhop/node/model/Connector.java:189-203 | a copy of the old node is added exactly when a default node gives way to a non-default one, and the links and bookkeeping stay consistent |
| Connectors.SnapshotAfter | src/main/java/net/seapanda/bunnyhop/node/model/Connector.java:189-203 | the next snapshot is none for a default node, the fresh copy when a default node gives way to a non-default one, and the current snapshot otherwise |
| Connectors.NextSnapshot | src/main/java/net/seapanda/bunnyhop/node/model/Connector.java:189-203 | the arena gains the snapshot copy when one is made, and the returned snapshot is the one the rule chooses |
| Connectors.Connect | src/main/java/net/seapanda/bunnyhop/node/model/Connector.java:148-152 | the arena reaches the connected state from the snapshot rule's outcome, and the inverse call with the old node and old snapshot is logged last |
| Connectors.ConnectedLinks | src/main/java/net/seapanda/bunnyhop/node/model/Connector.java:163-171 | after the connection the connector holds the node, the node hangs below it, the old node hangs nowhere, every other node keeps its parent, and ids and default flags are unchanged |
| Connectors.ConnectUndoRestores | src/main/java/net/seapanda/bunnyhop/node/model/Connector.java:176-178 | running the logged inverse right after restores every connector and every parent link, as long as the new node hung nowhere before |
| Connectors.AppendConnector | src/main/java/net/seapanda/bunnyhop/node/model/Connector.java:76-83 | a new empty connector is appended and the links stay consistent |
| Connectors.CopyConnector | src/main/java/net/seapanda/bunnyhop/node/model/Connector.java:103-118 | the new connector has the original's parameters and holds the child copy, or a new default node with the connector's default id when there is none; the snapshot follows the original's |
| Connectors.NewConnectorFor | src/main/java/net/seapanda/bunnyhop/node/model/Connector.java:76-93 | the new connector copies the original's parameters and holds a copy of its last default node snapshot |
| Connectors.CopiedConnectorLinks | src/main/java/net/seapanda/bunnyhop/node/model/Connector.java:115-117 | after the copy's connection the child hangs below the new connector |
| Replacement.ConnectOutcome | src/main/java/net/seapanda/bunnyhop/node/model/Connector.java:148-180 | after `connect` the connector holds the node, the node hangs below it, the old node hangs nowhere, every other connector and node keeps its links and data |
| Replacement.PutInPlace | src/main/java/net/seapanda/bunnyhop/node/model/BhNode.java:334-335 | the node records its replacement and its parent connector takes the new node; every other link is kept |
| Replacement.Replace | src/main/java/net/seapanda/bunnyhop/node/model/BhNode.java:321-338 | a node without a parent changes nothing and yields an empty set; otherwise the first pair is (node, new node), the parent connector holds the new node, the node hangs nowhere and records its replacement, and a new node that was a child leaves a new default node in its old slot |
| Replacement.Remove | src/main/java/net/seapanda/bunnyhop/node/model/BhNode.java:355-362 | a node without a parent changes nothing and yields an empty set; otherwise a new default node with the parent connector's default id takes its place and the only pair is (node, default node) |
| NodeHandler.StateOf | src/main/java/net/seapanda/bunnyhop/service/BhNodeHandler.java:97-121 | the handler's four states: DELETED exactly for a node without a workspace, CHILD exactly for a node with a parent, and a root is DIRECTLY_UNDER_WS exactly when its workspace's root list holds it, DANGLING otherwise |
| NodeHandler.ChildRemovedKept | src/main/java/net/seapanda/bunnyhop/service/BhNodeHandler.java:197-215 | workspace bookkeeping after a removal leaves the removal's outcome in place |
| NodeHandler.RemoveChild | src/main/java/net/seapanda/bunnyhop/service/BhNodeHandler.java:197-215 | the child's connector holds a new default node with the connector's default id, the child hangs nowhere, the new node takes the child's workspace, no other old node moves or gains a place, and the result is the single pair (child, new node) |
| NodeHandler.RemoveDependingOnState | src/main/java/net/seapanda/bunnyhop/service/BhNodeHandler.java:97-121 | a child is removed as `removeChild` says; any other state changes nothing in the model and yields no pairs; no other old node gains a place |
| NodeHandler.DeleteNode | src/main/java/net/seapanda/bunnyhop/service/BhNodeHandler.java:58-67 | a deleted node changes nothing; a child is removed; a root changes only workspace fields; afterwards the node is deleted or dangling, a root's whole tree has no workspace and is off the root list, every other node keeps its parent and a node that was gone stays gone |
| NodeHandler.RemoveAllRootGone | src/main/java/net/seapanda/bunnyhop/service/BhNodeHandler.java:85-94 | after its tree is deregistered, the root list no longer holds the node |
| NodeHandler.DeleteNodes | src/main/java/net/seapanda/bunnyhop/service/BhNodeHandler.java:76-83 | every given node ends deleted or dangling, a node that was gone stays gone, every pair names one of the given nodes and a node created by the call, and there are at most as many pairs as nodes |
| NodeHandler.SwapListAsWritten | src/main/java/net/seapanda/bunnyhop/service/BhNodeHandler.java:234-238 | the list as written holds the removal's pairs and the replacement's pairs, the removal's first |
| NodeHandler.SwapListAsWrittenMisplacesHead | src/main/java/net/seapanda/bunnyhop/service/BhNodeHandler.java:234-238 | when the new child was itself a child, element 0 of the list as written is not the pair (old child, new child) |
| NodeHandler.SwapList | src/main/java/net/seapanda/bunnyhop/service/BhNodeHandler.java:224-226 | the corrected list holds the same pairs with the replacement's pair (old child, new child) first |
| NodeHandler.PrepareReplacement | src/main/java/net/seapanda/bunnyhop/service/BhNodeHandler.java:229-245 | the new child is removed as its state demands and registered on a workspace; a child new node leaves a new default node behind; every other node keeps its parent |
| NodeHandler.ReplaceChild | src/main/java/net/seapanda/bunnyhop/service/BhNodeHandler.java:229-249 | a non-child changes nothing and yields no pairs; otherwise the old child's connector holds the new child, the old child hangs nowhere and records it, the pairs are (old, new) followed by the new child's own removal pair, if any, and a parentless leaf new child leaves every other node's places as they were |
| NodeHandler.ChildReplacedFrom | src/main/java/net/seapanda/bunnyhop/service/BhNodeHandler.java:229-249 | the two halves of `replaceChild` compose to the replaced state |
| NodeHandler.MoveToWs | src/main/java/net/seapanda/bunnyhop/service/BhNodeHandler.java:151-170 | the node is removed as its state demands and ends on the target workspace; a child leaves a new default node behind; a non-child changes only workspace fields; every node already on the target stays there; the nodes reported as leaving are the tree when it was on another workspace |
| NodeHandler.LeftBehind | src/main/java/net/seapanda/bunnyhop/workspace/model/Workspace.java:71-80 | a move takes nodes off a workspace exactly when the node is on a workspace other than the target, and then the whole tree starting with the node |
| NodeHandler.ExchangeCheck | src/main/java/net/seapanda/bunnyhop/service/BhNodeHandler.java:270-282 | an error exactly when either node is deleted or dangling, otherwise an ancestor error exactly when one descends from the other; passing implies two distinct exchangeable nodes |
| NodeHandler.ExchangeAsWrittenKeepsRootsTogether | src/main/java/net/seapanda/bunnyhop/service/BhNodeHandler.java:293-294 | as written, two roots on different workspaces both end on the second node's workspace |
| NodeHandler.ExchangePlanOf | src/main/java/net/seapanda/bunnyhop/service/BhNodeHandler.java:283-316 | both children keep their order; a child paired with a root always comes first with the root's workspace; two roots each go to the other's workspace |
| NodeHandler.ExchangePlansAgreeOnChildren | src/main/java/net/seapanda/bunnyhop/service/BhNodeHandler.java:283-316 | the written and the corrected plans agree whenever a child is involved, and differ only in the second root's target workspace |
| NodeHandler.ExchangeChildren | src/main/java/net/seapanda/bunnyhop/service/BhNodeHandler.java:296-306 | the second child ends at the first child's connector; the first ends at the second's connector (proved when the second has no connectors) or nowhere; every other old node keeps its parent; the links stay consistent |
| NodeHandler.ExchangeChildAndRoot | src/main/java/net/seapanda/bunnyhop/service/BhNodeHandler.java:307-310 | the root takes the child's place and the child is registered on the root's workspace; every other node keeps its parent |
| NodeHandler.ExchangeRoots | src/main/java/net/seapanda/bunnyhop/service/BhNodeHandler.java:312-316 | only workspace fields change, and each root ends on the workspace meant for it |
| NodeHandler.CarryOut | src/main/java/net/seapanda/bunnyhop/service/BhNodeHandler.java:296-316 | a plan that passed the checks ends exchanged: two children trade connectors as `ExchangeChildren` states, a root takes a child's connector while the child goes to the root's workspace, two roots each end on their target workspace |
| NodeHandler.ExchangeNodes | src/main/java/net/seapanda/bunnyhop/service/BhNodeHandler.java:269-317 | fails with the first failing check and changes nothing, or carries out the corrected plan with the exchanged outcome of `CarryOut` |
| NodeHandler.DeletionTargetsOf | src/main/java/net/seapanda/bunnyhop/modelhandler/BhNodeHandler.java:184-212 | the kept candidates are exactly those neither they nor their originals descend from another candidate, in order and without repetition |
| NodeHandler.CanDelete | src/main/java/net/seapanda/bunnyhop/modelhandler/BhNodeHandler.java:189-209 | the inner loop answers exactly whether the candidate is kept |
| NodeHandler.DeletionTargets | src/main/java/net/seapanda/bunnyhop/modelhandler/BhNodeHandler.java:184-212 | the nested loops build exactly the kept candidates in order |
| NodeHandler.DeletionTargetsDistinct | src/main/java/net/seapanda/bunnyhop/modelhandler/BhNodeHandler.java:184-212 | distinct candidates give a delete list of distinct nodes |
| NodeHandler.DeletionTargetsSkipDescendants | src/main/java/net/seapanda/bunnyhop/modelhandler/BhNodeHandler.java:195-199 | a candidate that descends from another candidate is never deleted directly |
| WorkspaceSets.NextOffset | src/main/java/net/seapanda/bunnyhop/model/workspace/WorkspaceSet.java:352 | the counter goes up by one below 3 and starts over at -2 from 3 or more, so from its range it stays in [-2, 3] |
| WorkspaceSets.OffsetCycles | src/main/java/net/seapanda/bunnyhop/model/workspace/WorkspaceSet.java:352 | from -2 the counter runs through a cycle of six values: after k pastes it is -2 + k mod 6 |
| WorkspaceSets.CanCopyOrCut | src/main/java/net/seapanda/bunnyhop/model/workspace/WorkspaceSet.java:383-386 | a node that can be copied or cut is on a workspace, and a parentless node can exactly when its workspace's root list holds it |
| WorkspaceSets.CanCopyOrCutIffRootOnWs | src/main/java/net/seapanda/bunnyhop/model/workspace/WorkspaceSet.java:383-386 | on a forest a node can be copied or cut exactly when it is on a workspace and the root of its tree is held by its workspace's root list |
| WorkspaceSets.PasteTargets | src/main/java/net/seapanda/bunnyhop/model/workspace/WorkspaceSet.java:327-333 | the nodes pasted are exactly the cut candidates that can be cut and that the cut scripts accept |
| WorkspaceSets.CopyRemovals | src/main/java/net/seapanda/bunnyhop/model/workspace/WorkspaceSet.java:183-187 | clearing the copy list records one removal per candidate, oldest first |
| WorkspaceSets.CutRemovals | src/main/java/net/seapanda/bunnyhop/model/workspace/WorkspaceSet.java:228-232 | clearing the cut list records one removal per candidate, oldest first |
| WorkspaceSets.UndoCopyAddRestores | src/main/java/net/seapanda/bunnyhop/undo/UserOperation.java:764-781 | undoing an addition that changed the copy list gives back the list as it was and records the removal twice, once by the list holder and once by the command |
| WorkspaceSets.UndoCutRemoveRestoresElems | src/main/java/net/seapanda/bunnyhop/undo/UserOperation.java:824-841 | undoing a removal from the cut list gives back the same elements, leaves the copy list alone and records the addition twice, once by the list holder and once by the command |
| WorkspaceSets.WorkspaceSet.constructor | src/main/java/net/seapanda/bunnyhop/model/workspace/WorkspaceSet.java:61-67 | both candidate lists start empty and the counter starts at -2 |
| WorkspaceSets.WorkspaceSet.AddNodeToCopyList | src/main/java/net/seapanda/bunnyhop/model/workspace/WorkspaceSet.java:170-176 | the node is added to the copy list if absent, the addition is logged only then, and nothing else changes |
| WorkspaceSets.WorkspaceSet.RemoveNodeFromCopyList | src/main/java/net/seapanda/bunnyhop/model/workspace/WorkspaceSet.java:195-201 | the node leaves the copy list, the removal is logged only if it was there, and nothing else changes |
| WorkspaceSets.WorkspaceSet.ClearCopyList | src/main/java/net/seapanda/bunnyhop/model/workspace/WorkspaceSet.java:183-187 | the copy list ends empty and one removal per old candidate is logged, oldest first |
| WorkspaceSets.WorkspaceSet.AddNodeToCutList | src/main/java/net/seapanda/bunnyhop/model/workspace/WorkspaceSet.java:215-221 | the node is added to the cut list if absent, the addition is logged only then, and nothing else changes |
| WorkspaceSets.WorkspaceSet.RemoveNodeFromCutList | src/main/java/net/seapanda/bunnyhop/model/workspace/WorkspaceSet.java:240-246 | the node leaves the cut list, the removal is logged only if it was there, and nothing else changes |
| WorkspaceSets.WorkspaceSet.ClearCutList | src/main/java/net/seapanda/bunnyhop/model/workspace/WorkspaceSet.java:228-232 | the cut list ends empty and one removal per old candidate is logged, oldest first |
| WorkspaceSets.WorkspaceSet.OnNodeRemovedFromWs | src/main/java/net/seapanda/bunnyhop/model/workspace/WorkspaceSet.java:737-744 | a node removed from its workspace leaves both candidate lists, and each removal that happens is logged |
| WorkspaceSets.WorkspaceSet.ForgetAll | src/main/java/net/seapanda/bunnyhop/workspace/model/Workspace.java:170-180 | the node-removed event for each node of a removed tree takes exactly those nodes out of both candidate lists |
| WorkspaceSets.WorkspaceSet.PasteAll | src/main/java/net/seapanda/bunnyhop/model/workspace/WorkspaceSet.java:335-350 | each pasted node ends on the workspace and nothing already there leaves; both candidate lists lose exactly the nodes the moves report as leaving a workspace |
| WorkspaceSets.WorkspaceSet.CutAndPaste | src/main/java/net/seapanda/bunnyhop/model/workspace/WorkspaceSet.java:327-355 | with no cut candidates nothing changes; otherwise every accepted candidate ends on the workspace and nothing already there leaves, the nodes the moves take off another workspace leave both candidate lists, the counter advances, and the cut list is emptied with the removal of what is left of it logged last |
| Debugger.TargetOf | src/main/java/net/seapanda/bunnyhop/debugger/model/BhDebugger.java:145-153 | a suspend/resume addresses every thread exactly when all threads are selected, otherwise the one selected thread's id |
| Debugger.ReplayedSnoc | src/main/java/net/seapanda/bunnyhop/debugger/model/BhDebugger.java:244-277 | replaying one more change event updates the thread (thread change) or the frame (frame change) and keeps the other part of the selection |
| Debugger.BhDebugger.constructor | src/main/java/net/seapanda/bunnyhop/debugger/model/BhDebugger.java:71-78 | a new debugger has no thread and no frame selected, has sent nothing and reported nothing, and is consistent |
| Debugger.BhDebugger.Suspend | src/main/java/net/seapanda/bunnyhop/debugger/model/BhDebugger.java:145-153 | with no thread selected nothing is sent and the result is false; otherwise exactly one suspend command for all threads or the selected thread is sent and the result is the runtime's success; the selection is unchanged |
| Debugger.BhDebugger.Resume | src/main/java/net/seapanda/bunnyhop/debugger/model/BhDebugger.java:156-164 | the resume counterpart of suspend: one resume command for the selection unless none is selected, success only when sent and accepted |
| Debugger.BhDebugger.StepOver | src/main/java/net/seapanda/bunnyhop/debugger/model/BhDebugger.java:167-173 | a step-over for the selected thread is sent only when one particular thread is selected; otherwise nothing is sent and the result is false |
| Debugger.BhDebugger.StepInto | src/main/java/net/seapanda/bunnyhop/debugger/model/BhDebugger.java:176-182 | as step-over, with a step-into command |
| Debugger.BhDebugger.StepOut | src/main/java/net/seapanda/bunnyhop/debugger/model/BhDebugger.java:185-191 | as step-over, with a step-out command |
| Debugger.BhDebugger.RequestThreadContexts | src/main/java/net/seapanda/bunnyhop/debugger/model/BhDebugger.java:194-196 | the thread-context request is always sent and the result is the runtime's answer |
| Debugger.BhDebugger.RequestLocalVars | src/main/java/net/seapanda/bunnyhop/debugger/model/BhDebugger.java:199-206 | the local-variable request for the selected thread and frame is sent exactly when a frame is selected (which in a consistent debugger implies one particular thread); otherwise false and nothing sent |
| Debugger.BhDebugger.RequestGlobalVars | src/main/java/net/seapanda/bunnyhop/debugger/model/BhDebugger.java:209-215 | the global-variable request is sent exactly when a frame is selected |
| Debugger.BhDebugger.RequestLocalListVals | src/main/java/net/seapanda/bunnyhop/debugger/model/BhDebugger.java:218-230 | the local list-element request carries the selected thread, frame, symbol, start index and length, and is sent exactly when a frame is selected |
| Debugger.BhDebugger.RequestGlobalListVals | src/main/java/net/seapanda/bunnyhop/debugger/model/BhDebugger.java:233-241 | the global list-element request carries symbol, start index and length, and is sent exactly when a frame is selected |
| Debugger.BhDebugger.SelectCurrentThread | src/main/java/net/seapanda/bunnyhop/debugger/model/BhDebugger.java:244-259 | selecting the current thread changes nothing; selecting another thread makes it current, clears the frame, and reports a frame change to none followed by the thread change, keeping the invariant that the reported events replay to the selection |
| Debugger.BhDebugger.SelectCurrentStackFrame | src/main/java/net/seapanda/bunnyhop/debugger/model/BhDebugger.java:267-277 | ignored unless one particular thread is selected; a different frame becomes current and exactly one frame-change event (thread, old frame, new frame) is reported; the thread never changes |
| ProjectReader.CheckSaveDataVersion | src/main/java/net/seapanda/bunnyhop/export/JsonProjectReader.java:183-192 | the save data is accepted exactly when it has a version with the supported prefix and major number and a minor number not above the supported one; otherwise the load fails with the incompatible-format error carrying that version |
| ProjectReader.SaveDataVersionOrder | src/main/java/net/seapanda/bunnyhop/export/JsonProjectReader.java:183-192 | the supported version itself is accepted, and an accepted version stays accepted when only its minor number decreases |
| ProjectReader.NodeVersionCompatible | src/main/java/net/seapanda/bunnyhop/export/JsonProjectReader.java:269-274 | a node image is compatible exactly when prefix and major number equal the node's and its minor number is not newer |
| ProjectReader.NodeVersionCompatibleOrder | src/main/java/net/seapanda/bunnyhop/export/JsonProjectReader.java:269-274 | node version compatibility is reflexive and transitive |
| ProjectReader.CheckInstanceId | src/main/java/net/seapanda/bunnyhop/export/JsonProjectReader.java:299-306 | an instance id passes exactly when it is neither already restored nor the reserved NONE; an already restored id is reported as duplicated, otherwise as invalid |
| ProjectReader.WithWarnings | src/main/java/net/seapanda/bunnyhop/export/JsonProjectReader.java:413-436 | the extended result holds the union of the old and the additional warnings and the old message followed by the additional one, and every other part unchanged |
| ProjectReader.WithWarningsTwice | src/main/java/net/seapanda/bunnyhop/export/JsonProjectReader.java:413-436 | extending twice equals extending once with the messages and the warnings joined in order |
| ProjectReader.JsonProjectReader.constructor | src/main/java/net/seapanda/bunnyhop/export/JsonProjectReader.java:63-84 | a new loader has restored nothing, recorded no problem and raised no warning |
| ProjectReader.JsonProjectReader.CanCreateNodeOf | src/main/java/net/seapanda/bunnyhop/export/JsonProjectReader.java:259-266 | the result is whether the factory knows the template id; an unknown id adds the unknown-id warning and is appended to the unknown ids; nothing else changes |
| ProjectReader.JsonProjectReader.CheckNodeVersionCompatibility | src/main/java/net/seapanda/bunnyhop/export/JsonProjectReader.java:269-282 | the result is the compatibility of the image and node versions; an incompatible node adds its warning and is appended to the incompatible nodes; nothing else changes |
| ProjectReader.JsonProjectReader.CheckIfCorrupted | src/main/java/net/seapanda/bunnyhop/export/JsonProjectReader.java:285-291 | a node whose image is flagged corrupted is appended to the corrupted nodes and adds its warning; otherwise nothing changes |
| ProjectReader.JsonProjectReader.ConnectChild | src/main/java/net/seapanda/bunnyhop/export/JsonProjectReader.java:316-325 | the child is connected under the slot exactly when the parent has a slot of that id; otherwise the connector-not-found warning is added and the parent and slot id are recorded |
| ProjectReader.JsonProjectReader.CreateBhNode | src/main/java/net/seapanda/bunnyhop/export/JsonProjectReader.java:218-243 | an unknown template id gives no node, records the id and restores nothing of its subtree; a restored node is fresh and registered under an instance id that was not registered before; the only errors are a duplicated or invalid instance id; the loader stays consistent and only grows |
| ProjectReader.JsonProjectReader.BuildDescendant | src/main/java/net/seapanda/bunnyhop/export/JsonProjectReader.java:246-256 | restoring every saved slot's child keeps the loader consistent and growing and fails only with an instance-id error |
| ProjectReader.JsonProjectReader.GenProject | src/main/java/net/seapanda/bunnyhop/export/JsonProjectReader.java:166-180 | a refused save data version aborts with that error before anything is restored; a successful load gives one list of roots per workspace image, all created by this load |
| ProjectReader.JsonProjectReader.GenWorkspace | src/main/java/net/seapanda/bunnyhop/export/JsonProjectReader.java:195-209 | a workspace gets at most one root per root image, each created by this load and registered under an instance id |
| StyleSnippets.PopulateArrangement | src/main/java/net/seapanda/bunnyhop/node/view/style/BhNodeViewStyleSnippet.java:338-352 | every arrangement parameter the snippet sets replaces the style's and every other keeps the style's value; the slot names are the snippet's, and sub-group `j` is sub-group snippet `j` populated onto a fresh arrangement |
| StyleSnippets.PopulateGroups | src/main/java/net/seapanda/bunnyhop/node/view/style/BhNodeViewStyleSnippet.java:348-350 | the sub-groups from index `i` on are the sub-group snippets from `i` on, in order, each populated onto a fresh arrangement |
| StyleSnippets.PopulateArrangementIdempotent | src/main/java/net/seapanda/bunnyhop/node/view/style/BhNodeViewStyleSnippet.java:338-352 | populating a style twice with the same snippet equals populating it once |
| StyleSnippets.PopulateEmptyKeepsStyle | src/main/java/net/seapanda/bunnyhop/node/view/style/BhNodeViewStyleSnippet.java:338-352 | a snippet that sets nothing keeps every parameter of the style and clears its slot names and sub-groups |
| StyleSnippets.FindIn | src/main/java/net/seapanda/bunnyhop/node/view/style/BhNodeViewStyleSnippet.java:229-240 | the lookup returns the snippet's own value when it sets the parameter, else the value of the first sub-snippet in list order that sets it, and nothing exactly when none of them sets it |
| StyleSnippets.FirstDefinedFound | src/main/java/net/seapanda/bunnyhop/node/view/style/BhNodeViewStyleSnippet.java:233-238 | when the first sub-snippet that sets a parameter is at index i, the lookup returns its value |
| StyleSnippets.BuiltFrom | src/main/java/net/seapanda/bunnyhop/node/view/style/BhNodeViewStyleSnippet.java:103-135 | the intended build (see ## Findings): the built style has exactly the default style's parameters; a parameter no snippet sets keeps its default, one the snippet itself sets takes that value, and one only sub-snippets set takes the value of the first sub-snippet that sets it |
| StyleSnippets.FindAsWritten | src/main/java/net/seapanda/bunnyhop/node/view/style/BhNodeViewStyleSnippet.java:127-133 | as written, a nested part's parameter is found exactly when the snippet itself sets it, because the getter passed to the part ignores the sub-snippet it is given; a top-level parameter is found as by the lookup |
| StyleSnippets.BuiltAsWritten | src/main/java/net/seapanda/bunnyhop/node/view/style/BhNodeViewStyleSnippet.java:103-135 | the build as written yields exactly the default style's parameters |
| StyleSnippets.NestedPartIgnoresSubSnippets | src/main/java/net/seapanda/bunnyhop/node/view/style/BhNodeViewStyleSnippet.java:127-133 | a text field parameter set only by a sub-snippet stays at its default in the build as written but takes the sub-snippet's value in the intended build |
| StyleSnippets.StyleSnippet.constructor | src/main/java/net/seapanda/bunnyhop/node/view/style/BhNodeViewStyleSnippet.java:45-76 | a new snippet holds the given parameters and no sub-snippets |
| StyleSnippets.StyleSnippet.AddSubSnippet | src/main/java/net/seapanda/bunnyhop/node/view/style/BhNodeViewStyleSnippet.java:83-86 | the added sub-snippet is placed first, so the snippet added last is consulted first; the own parameters do not change |
| StyleSnippets.StyleSnippet.AddSubSnippets | src/main/java/net/seapanda/bunnyhop/node/view/style/BhNodeViewStyleSnippet.java:93-95 | adding a list puts its elements in reverse order before the existing sub-snippets |
| StyleSnippets.StyleSnippet.Find | src/main/java/net/seapanda/bunnyhop/node/view/style/BhNodeViewStyleSnippet.java:229-240 | the scan returns the own value, else the first sub-snippet's value in list order, as the lookup specifies |
| StyleSnippets.StyleSnippet.Build | src/main/java/net/seapanda/bunnyhop/node/view/style/BhNodeViewStyleSnippet.java:103-135 | the intended build (see ## Findings): exactly the default parameters; the snippet's own value wins, then the first sub-snippet that sets the parameter, and a parameter nobody sets keeps its default |
| CommonEvents.NamedOp | BunnyHop/BhDefine/Functions/event/CommonEvent.js:114-219 | a name read as an any-type node is exactly that node's name |
| CommonEvents.NamedSymbol | BunnyHop/BhDefine/Functions/event/CommonEvent.js:114-219 | a name read as a type-deciding symbol is exactly that symbol's name |
| CommonEvents.NamedOpOfName | BunnyHop/BhDefine/Functions/event/CommonEvent.js:114-219 | every any-type node name of the table is read back as its node |
| CommonEvents.NamedSymbolOfName | BunnyHop/BhDefine/Functions/event/CommonEvent.js:114-219 | every symbol name of the table is read back as its symbol |
| CommonEvents.PathOfAnyTypeChildToBeMoved | BunnyHop/BhDefine/Functions/event/CommonEvent.js:94-111 | among the node names the node definitions supply, a path list exists exactly for the any-type get, insert, remove and set nodes, and it is the single path to the first argument |
| CommonEvents.StaticTypeEntries | BunnyHop/BhDefine/Functions/event/CommonEvent.js:114-219 | the table has an entry for a node and symbol exactly when the node takes its type from that kind of symbol |
| CommonEvents.StaticTypeNodeId | BunnyHop/BhDefine/Functions/event/CommonEvent.js:317-328 | among the names the node definitions supply, an id is found exactly when the names are an any-type node and a symbol of a kind that node takes its type from, and the id found carries the symbol's data type |
| CommonEvents.StaticTypeNodeIdOfNames | BunnyHop/BhDefine/Functions/event/CommonEvent.js:317-328 | looking the names up gives the table entry of the node and symbol they name, present exactly when the node takes its type from that kind of symbol |
| CommonEvents.StaticTypeNodeIdOnlyForKnownNames | BunnyHop/BhDefine/Functions/event/CommonEvent.js:317-328 | the lookup gives nothing unless the names are an any-type node and a symbol of a kind that node accepts |
| CommonEvents.StaticTypeIgnoresSymbolKind | BunnyHop/BhDefine/Functions/event/CommonEvent.js:123-135 | the static-type node depends on the data type alone, not on whether a value or a list slot decided it |
| CommonEvents.StaticTypeIdNamesType | BunnyHop/BhDefine/Functions/event/CommonEvent.js:114-219 | every id of the table carries the data type it was chosen for |
| CommonEvents.IdNamesTypeAssignPushGet | BunnyHop/BhDefine/Functions/event/CommonEvent.js:115-148 | the assignment, push and get ids carry their data type |
| CommonEvents.IdNamesTypeGetLastPopInsert | BunnyHop/BhDefine/Functions/event/CommonEvent.js:149-182 | the get-last, pop and insert ids carry their data type |
| CommonEvents.IdNamesTypeRemoveSetAppendClear | BunnyHop/BhDefine/Functions/event/CommonEvent.js:183-218 | the remove, set, append and clear ids carry their data type |
| CommonEvents.StaticTypeSeparatesTypes | BunnyHop/BhDefine/Functions/event/CommonEvent.js:114-219 | different data types never give the same static-type node |
| CommonEvents.AssignOfNumberExpression | BunnyHop/BhDefine/Functions/event/CommonEvent.js:115-116 | an any-type assignment typed by a number expression becomes the number assignment |
| CommonEvents.MovedChildHasListSlots | BunnyHop/BhDefine/Functions/event/CommonEvent.js:94-219 | every node with a child to move has a static-type node for every list type |
| CommonEvents.ChildReplacedKept | BunnyHop/BhDefine/Functions/event/CommonEvent.js:13-14 | the replacement of a child still holds after the deletion that follows it, which changes only workspace bookkeeping |
| CommonEvents.ReplaceThenDelete | BunnyHop/BhDefine/Functions/event/CommonEvent.js:45-55 | a child is replaced by the new node and then deleted; a node that is not a child is only deleted; the links stay consistent, the old node leaves its workspace and the undo log only grows |
| CommonEvents.MoveDescendant | BunnyHop/BhDefine/Functions/event/CommonEvent.js:65-77 | the node at the path under the source takes the place of the node at the path under the target, which is then deleted; a missing target node, or a missing source node for a child target, fails with nothing changed |
| CommonEvents.AppendRemovedNode | BunnyHop/BhDefine/Functions/event/CommonEvent.js:10-16 | the old node takes the place of the new node's outer end, which is then deleted, exactly when that end is a void node the old node may replace and the old node was not removed by hand; otherwise nothing changes |
| CommonEvents.ReplaceStatWithNewStat | BunnyHop/BhDefine/Functions/event/CommonEvent.js:85-91 | a missing next statement or a refused first exchange changes nothing and reports which; otherwise the following statements are exchanged as `Exchanged` states, and then the two statements are exchanged the same way, or the refusal of that second exchange is reported with the first one kept |

## Left out

- Views, controllers, menus, the message service, syntax-error tracking, text prompting and the view builders: these are GUI plumbing; node positions and every offset or position computation are left out with them.
- Runtime transport, processes, file I/O, JSON parsing and script evaluation: the runtime's answer to a debugger command, the node templates a factory knows and the verdict of a paste script are parameters.
- JavaScript numbers are integers here: `Math.trunc` and `Math.floor` are the identity, NaN, infinities and fractional indices are not modelled, and `_eq` is Dafny equality.
- `_aryPop`, `_aryLen`, `_aryReverse`, the audio helpers, `_strToNum`, `_randomInt`, `_sleep` and the timers of `Common.js` are not part of this model.
- Java `HashSet` iteration order is not modelled: sets that the source iterates are sequences without duplicates, iterated in insertion order (this also fixes the order in which `cutAndPaste` moves nodes).
- The keyword and identifier tables that `CommonCodeGenerator` reads and the compile options are parameters; their classes are not part of this model.
- Tree walks (`findRootNode`, `isDescendantOf`, the subtree enumeration, the breakpoint leader search) carry a fuel bound equal to the number of nodes; on an acyclic graph the bound is never reached, and on a cyclic one the model answers "not found" where the source would not terminate.
- A node created by the node factory or by the copy constructor is modelled without slots of its own: building a node's connectors from its template and deep copying a subtree are not part of this model.
- `Connectors.CopyConnector`: the copy of the child is a parameter, because copying a subtree is not modelled; the derivative bookkeeping of node copies is left out.
- Derivatives (the derivative nodes `deleteNode` also deletes, service/BhNodeHandler.java lines 59-62, and the derivative replacement at the end of `replace`) are not part of this model.
- `Undo.RedoRecordsOriginalLog`: the identical-log round trip is promised only for logs of list commands; a node command that changes its list records its inverse twice on each undo, so its log grows on every undo and redo, as `Undo.RedoOfNodeCmdGrowsLog` shows.
- `Undo.InvertedReversed`: gives the exact inverse log only for logs of list commands; for node commands `Undo.InvertAllRecordsInverses` states the doubled form.
- `Undo.UserOperation`: replaying an anonymous command that stands for a graph edit is a parameter of the replay; only the list commands are replayed by the model itself.
- `NodeGraphs.NodeGraph.AddNodeTree`: the log is stated to grow and to end with the tree's inverse entry; the per-node entries before it are not enumerated, and the root list is stated relative to the old root list.
- `Replacement.Replace`: requires the link invariant of the graph and, when the node is a child, a replacement different from the node itself: with the node itself, the source's `remove` call first takes the node off its connector (node/model/Connector.java line 165 clears its parent connector), so the following `parentConnector.connectNode` (node/model/BhNode.java line 335) fails with a null pointer exception, an outcome the model does not represent.
- `NodeHandler.ReplaceChild`: requires a new child different from the old one when the old one is a child, for the same reason.
- `NodeHandler.ReplaceChild` and `NodeHandler.PrepareReplacement`: that no other node gains or loses a place is stated only for a new child that is a parentless node without connectors; for a new child with a subtree of its own the frame is not stated.
- `NodeHandler.ExchangeChildren`: that the first child ends at the second child's connector is proved only when the second child has no connectors; otherwise the contract says it ends there or hangs nowhere, because acyclicity of the node graph is not carried through the connection code.
- `NodeHandler.DeleteNode`: for a child, the contract states the removal and the parent frame; that the removed child's whole tree then leaves its workspace is not stated, for the same reason.
- `NodeHandler.MoveToWs`: the nodes reported as leaving a workspace are tied to the old state only for a node that is not a child; for a child they are computed after its removal.
- `WorkspaceSets.WorkspaceSet.CutAndPaste`: the nodes dropped from the candidate lists are known as the union of the moves' leaving lists, not as a function of the old state alone.
- The node-removed handler of the workspace set (`onNodeRemovedFromWs`) is driven only by the moves of `cutAndPaste`; deletions, exchanges and replacements made through the node handler do not update the candidate lists in the model.
- `CommonEvents.ReplaceThenDelete`: requires, when the old node is a child, a new node different from it that is either parentless or a child itself; a node hanging below a deleted tree would leave the links inconsistent in the model.
- `CommonEvents.MoveDescendant` and `CommonEvents.AppendRemovedNode`: carry the same requirement on the node that takes the old node's place.
- `CommonEvents.StaticTypeNodeId`: the script's lookups (CommonEvent.js lines 319 and 323) index plain JavaScript objects, which also find names inherited from `Object.prototype` (`"constructor"`, `"toString"`, ...); the model's table holds only the names the node definitions supply and answers nothing for the inherited ones.
- `CommonEvents.PathOfAnyTypeChildToBeMoved`: likewise, the lookup at CommonEvent.js line 107 returns an inherited `Object.prototype` member (a function) for names such as `"toString"`; the model returns no path list for them.
- The subtree searches of the event scripts (`findSymbolInDescendants`, `findOuterNode`) and the `canBeReplacedWith` test are parameters of the edits.
- `addNewNodeToWS` and `replaceDescendant` of the event scripts are not modelled separately: the first only builds a view and adds a root, the second is the replace-then-delete pair that `CommonEvents.ReplaceThenDelete` models.
- The service handler's four-way state (dangling root or root directly under a workspace) is derived from the three node states and the workspace's root list.
- Adding and removing workspaces of a workspace set, and `copyAndPaste` (node copying is done by scripts), are not part of this model.
- `ProjectReader.JsonProjectReader.GenWorkspace`: the workspace itself, the placement of roots, text and breakpoint restoration, derivative assignment and the warning message text are not modelled.
- The debugger's breakpoint registry, `clear` and the `add` notifications only forward to the runtime or to handlers and are not modelled.

## Findings

| source | as written | input that shows it | evidently intended | confidence | as-written member | corrected member |
|---|---|---|---|---|---|---|
| App/BhDefine/Compile/Libs/Common.js:565-567 | the set comparisons loop over the length of the de-duplicated list but read the original list | [1, 1, 3] against [1, 2]: reported a subset although 3 is not in the second list | read the de-duplicated list in the loop | not executed | RuntimeSets.SetComparisonsAsWrittenCounterexample | RuntimeSets.IsSubset |
| App/BhDefine/Compile/Libs/Common.js:476-478 | `_aryAddAll` truncates the first list before copying the second, which is the same list when a list is added into itself | [1, 2] added into itself at index 1 gives [1, 1, 2] | [1, 1, 2, 2]: copy the second list before truncating | not executed | RuntimeArrays.SelfAddAllLosesElements | RuntimeArrays.AryAddAll |
| src/main/java/net/seapanda/bunnyhop/compiler/CommonCodeGenerator.java:438-444 | `toJsString` escapes backslash, quote and line feed but not carriage return | a text holding a carriage return: the literal holds a raw line terminator | escape carriage return as well, so every text reads back | not executed | CodeGen.ToJsStringLeavesCarriageReturn | CodeGen.ToJsStringFixedRoundTrip |
| src/main/java/net/seapanda/bunnyhop/service/BhNodeHandler.java:293-294 | the workspace for the first node is read from the second node | two roots on two different workspaces: both end on the second node's workspace | each root moves to the other's workspace | not executed | NodeHandler.ExchangeAsWrittenKeepsRootsTogether | NodeHandler.ExchangePlanOf |
| src/main/java/net/seapanda/bunnyhop/service/BhNodeHandler.java:234-238 | `replaceChild` lists the removal's pairs before the replacement's pair | a new child that was itself a child: element 0 pairs the new child with its default node | element 0 pairs the old child with the new one, as the method's doc states | not executed | NodeHandler.SwapListAsWrittenMisplacesHead | NodeHandler.SwapList |
| src/main/java/net/seapanda/bunnyhop/node/view/style/BhNodeViewStyleSnippet.java:127-133 | the getters passed to the nested parts ignore the sub-snippet they are given | a text field parameter set only by a sub-snippet: the default stays | the nested parts are looked up in the sub-snippets like the top-level parameters | not executed | StyleSnippets.NestedPartIgnoresSubSnippets | StyleSnippets.BuiltFrom |
