# ViewInspector inspection engine in Dafny

This project models the type-erased inspection engine of ViewInspector, a
library that lets unit tests look inside a SwiftUI view hierarchy. It also
models three per-kind adapters built on the engine: custom views, `Picker`
and `Label`. Swift's runtime reflection is replaced by an explicit datatype.
Everything is a pure function that returns a `Result` (for `throws`) or an
`Outcome` (for a throwing function that returns nothing).

Modules, one per concern:

- `Wrappers` (`wrappers.dfy`): `Option`, `Result` and `Outcome`.
- `Strings` (`strings.dfy`): the string operations the engine uses. These are
  `hasPrefix`, `contains`, `components(separatedBy:)` and its inverse join,
  decimal interpolation of integers, `<` on strings, and two-space
  indentation.
- `Values` (`values.dfy`): the reflected `Value` and the cast targets
  `TypeRef`. It also holds `InspectionError`, `Content` (a view plus its
  modifiers) and `LazyGroup` (the children of a container).
  - A `Value` is an `Object` with its type name, mirror children, superclass
    layer, `Inspectable` body and description.
  - Or it is an `Array` of values.
  - Or it is a `Layer`: a superclass `Mirror` that a `"super"` lookup has
    already returned.
- `Inspector` (`inspector.dfy`): the parts of `Inspector.swift` that are not
  the printer. These are attribute lookup by label, typed label and
  `|`-path, `cast`, type-name prefixes, `unwrap`, `viewsInContainer`,
  `isTupleView` and `guardType`.
- `InspectorPrint` (`printer.dfy`): `Inspector.print(_:)`,
  `attributesTree`, `indent`, `newline`, and the `description(level:)` of
  dictionaries and arrays.
  - The `[String: Any]` dictionary is modelled as an association list kept
    strictly sorted by key.
  - Inserting a key is the same as assigning that key in the dictionary.
  - The list order is the order that `sorted(by:)` gives before printing.
- `CustomView`, `Picker`, `Label` (`customview.dfy`, `picker.dfy`,
  `label.dfy`): the three adapters.

The model does not define the other view kinds' extractors. These are
`TreeView.child`, `IDView.child`, …, `TupleView.children` and
`TupleView.typePrefix`. They are the function fields of an `Extractors`
record, and every operation that needs them takes that record as a
parameter. No property of them is assumed.

The same applies to the parent kind's `child`/`child(at:)` and to the
modifier search `modifier(_:call:)`: each is a function parameter.

Notes on the code's behaviour:

- `unwrap(content:)` makes one dispatch step. Any repeated unwrapping happens
  inside the per-kind extractors. The model therefore proves idempotence only
  under the hypothesis that the extractors return settled views
  (`Inspector.UnwrapIdempotent`).
- On a binding of the wrong type, `Picker.select(value:)` throws
  `notSupported`, not `typeMismatch`.
- `guardType` checks for the two unsupported environment readers before it
  checks the prefix, whether or not the prefix matches.
- A Swift array's mirror lists its elements without labels. A label lookup on
  an array therefore always throws `attributeNotFound`.

## Model

| member | source | states |
|---|---|---|
| Inspector.TypePrefix | Sources/ViewInspector/Inspector.swift:44-52 | the prefix-only type name is a prefix of the full name, contains no `<`, and is followed in the full name by `<` unless it is the whole name |
| Inspector.TypePrefixIdempotent | Sources/ViewInspector/Inspector.swift:51 | truncating a type prefix at `<` again changes nothing |
| Inspector.TypePrefixOfPlainName | Sources/ViewInspector/Inspector.swift:51 | a type name without `<` is its own prefix |
| Inspector.TypePrefixOfGeneric | Sources/ViewInspector/Inspector.swift:51 | the prefix of `P<args>` is `P` when `P` has no `<` |
| Inspector.FirstLabelled | Sources/ViewInspector/Inspector.swift:18 | `descendant(label)` finds the first child with that label, and finds nothing exactly when no child has it |
| Inspector.AttributeAs | Sources/ViewInspector/Inspector.swift:16-23 | the first child labelled `label` cast to `T`; with no such child, `attributeNotFound(label, full type name of the value)` |
| Inspector.Attribute | Sources/ViewInspector/Inspector.swift:9-14 | `"super"` on a value with a superclass gives that superclass layer; otherwise the lookup succeeds exactly when a child has the label, returns the first such child, and fails only with `attributeNotFound(label, full type name)` |
| Inspector.AttributeOnLayer | Sources/ViewInspector/Inspector.swift:17 | a lookup on an already-obtained layer searches that layer's own fields directly |
| Inspector.Resolve | Sources/ViewInspector/Inspector.swift:30-33 | a failing path lookup fails with `attributeNotFound` for one of the path's labels |
| Inspector.ResolveAppend | Sources/ViewInspector/Inspector.swift:31-33 | folding over `a + b` folds over `a`, then continues over `b` from that result, and stops at a failure in `a` |
| Inspector.ResolveStopsAtFailure | Sources/ViewInspector/Inspector.swift:31-33 | the first failing segment's error is the whole lookup's error, and no later segment changes the result |
| Inspector.ResolveAs | Sources/ViewInspector/Inspector.swift:31-34 | a result has the target type; a failure is `attributeNotFound` for one of the labels or a mismatch against the target; with target `Any` only `attributeNotFound` is possible. The fold itself is specified by `ResolveAppend` and `ResolveStopsAtFailure` |
| Inspector.AttributePath | Sources/ViewInspector/Inspector.swift:29-35 | a result has the target type; a missing label is one of the path's `\|`-free components; any other failure is a mismatch against the target. The path form is specified by `AttributePathSegments`, `AttributePathSingle` and `AttributePathPair` |
| Inspector.LabelLookupOnArray | Sources/ViewInspector/Inspector.swift:9-20 | a label lookup on an array always throws `attributeNotFound(label, array type name)`, because the array's mirror children carry no labels |
| Inspector.AttributePathSegments | Sources/ViewInspector/Inspector.swift:29-35 | a path of `\|`-free labels joined by `\|` resolves exactly those labels in order, then casts |
| Inspector.AttributePathSingle | Sources/ViewInspector/Inspector.swift:29-35 | a path with no `\|` is the single-label lookup followed by the cast |
| Inspector.AttributePathPair | Sources/ViewInspector/Inspector.swift:29-35 | `a\|b` looks up `a` on the value, then `b` on that result, then casts; a failure of `a` is final |
| Inspector.Cast | Sources/ViewInspector/Inspector.swift:37-42 | the cast succeeds exactly when the value has the target type and returns the value itself; otherwise `typeMismatch(full name of the value, full name of the target)` |
| Inspector.Mismatch | Sources/ViewInspector/Inspector.swift:211-215 | the mismatch error carries the value's full type name as factual and the target's full type name as expected |
| Inspector.TransparentKind | Sources/ViewInspector/Inspector.swift:165-186 | a prefix selects a transparent kind exactly when it is that kind's prefix; every other prefix selects none |
| Inspector.TransparentKindRoundTrip | Sources/ViewInspector/Inspector.swift:165-186 | each of the nine transparent kinds is selected by its own prefix |
| Inspector.Unwrap | Sources/ViewInspector/Inspector.swift:160-187 | a view whose prefix is not one of the nine transparent kinds is returned unchanged, modifiers included; a transparent one goes to its kind's extractor |
| Inspector.UnwrapIdempotent | Sources/ViewInspector/Inspector.swift:164-187 | when the extractors return settled views, unwrapping an unwrapped content changes nothing |
| Inspector.ViewsInContainer | Sources/ViewInspector/Inspector.swift:143-158 | the view is unwrapped, and unwrapping errors propagate; a tuple view yields the tuple extractor's group; anything else yields exactly one child, the unwrapped view, whose modifiers are cleared when reset is requested |
| Inspector.IsTupleView | Sources/ViewInspector/Inspector.swift:156-158 | a tuple view's full name starts with `TupleView`'s prefix, and that prefix has no `<`; its use is specified by `ViewsInContainer` |
| Inspector.ViewsInContainerSingle | Sources/ViewInspector/Inspector.swift:143-152 | a settled, non-tuple view is its own single child with no modifiers |
| Inspector.GuardType | Sources/ViewInspector/Inspector.swift:189-206 | an empty prefix always passes; with a non-empty prefix, an environment reader carrying `NavigationBarItemsKey` or `_AnchorWritingModifier` gives `notSupported` before any prefix check; otherwise `typeMismatch(name, prefix)` exactly when the full name does not start with the prefix |
| Inspector.NavigationBarItemsMessage | Sources/ViewInspector/Inspector.swift:193-197 | the navigation-bar message begins with the `.navigationBarItems()` advice and contains the inspection call |
| Inspector.ModifierStylePath | Sources/ViewInspector/SwiftUI/Picker.swift:79 | the path `modifier\|style` looks up `modifier`, then `style` |
| InspectorPrint.Print | Sources/ViewInspector/Inspector.swift:66-68 | the printout starts with the value's full type name |
| Strings.Indent | Sources/ViewInspector/Inspector.swift:80-82 | the indentation for a level is exactly two spaces per level |
| InspectorPrint.AttributesTree | Sources/ViewInspector/Inspector.swift:94-113 | a value becomes a list exactly when it is an array, and a dictionary node is never empty; its contents are specified by `AttributesTreeShape`, `AttributesTreeChild` and `AttributesTreeOfArray` |
| InspectorPrint.Newline | Sources/ViewInspector/Inspector.swift:84-92 | the prefix is a newline exactly for a dictionary or a non-empty array, and empty otherwise |
| InspectorPrint.PrintTree | Sources/ViewInspector/Inspector.swift:70-78 | a printout is never empty; that it ends a line is `PrintTreeEndsLine`, and its layout is specified by `NestedPrintStartsLine`, `LeafPrint`, `EmptyArrayPrint`, `DictLinesAreBlocks` and `ArrayLinesAreBlocks` |
| InspectorPrint.PrintTreeEndsLine | Sources/ViewInspector/Inspector.swift:70-78 | every printout, at any nesting, ends with a newline |
| InspectorPrint.DictLines | Sources/ViewInspector/Inspector.swift:118-123 | a dictionary prints nothing exactly when it is empty; the order is specified by `DictLinesAreBlocks` and `DictPrintOrder` |
| InspectorPrint.DictLinesEndsLine | Sources/ViewInspector/Inspector.swift:118-123 | the lines of a non-empty dictionary end with a newline |
| InspectorPrint.ArrayDescription | Sources/ViewInspector/Inspector.swift:128-136 | an array's description is never empty; its layout is specified by `EmptyArrayPrint` and `ArrayPrintOrder` |
| InspectorPrint.ArrayLines | Sources/ViewInspector/Inspector.swift:132-135 | no elements print nothing, and any elements print something; the order is specified by `ArrayLinesAreBlocks` |
| InspectorPrint.ArrayLinesEndsLine | Sources/ViewInspector/Inspector.swift:132-135 | the lines of a non-empty array end with a newline |
| InspectorPrint.Insert | Sources/ViewInspector/Inspector.swift:103 | assigning a key adds exactly that key to the dictionary's key set |
| InspectorPrint.InsertAssigns | Sources/ViewInspector/Inspector.swift:103-107 | after the assignment the key maps to the new tree, and every other key keeps its tree |
| InspectorPrint.InsertKeepsSorted | Sources/ViewInspector/Inspector.swift:120 | the dictionary stays strictly sorted by key |
| InspectorPrint.ElementTrees | Sources/ViewInspector/Inspector.swift:95-97 | an array's trees are its elements' trees, one each, in order |
| InspectorPrint.AttributesTreeOfArray | Sources/ViewInspector/Inspector.swift:95-97 | an array becomes the list of its elements' trees in the same order |
| InspectorPrint.AttributesTreeShape | Sources/ViewInspector/Inspector.swift:98-113 | a non-array value is the leaf `" = " + description` exactly when it has no children and is not Inspectable; otherwise its dictionary is sorted, its keys are `"label: type"` or `"[offset]: type"` per child plus `"body: type"` for an Inspectable value, the body key holds the body's tree, and each child key not reused by a later child or the body holds that child's tree |
| InspectorPrint.AttributesTreeChild | Sources/ViewInspector/Inspector.swift:100-104 | the child at an offset appears under its `"label: type"` or `"[offset]: type"` key with its own tree, unless a later child or the body reuses that key |
| InspectorPrint.ChildEntriesInvariant | Sources/ViewInspector/Inspector.swift:100-104 | `ChildEntries`, the loop that stores each child's tree under its key, keeps the dictionary sorted, and afterwards its keys are the earlier keys plus one key per remaining child |
| InspectorPrint.ChildKeyUnlabelledDistinct | Sources/ViewInspector/Inspector.swift:101-103 | `ChildKey` names an unlabelled child `"[offset]: type"`; two unlabelled children at different offsets never share a key, so neither overwrites the other |
| InspectorPrint.BodyKeyNotUnlabelled | Sources/ViewInspector/Inspector.swift:101-107 | `BodyKey`, `"body: type"`, never equals the key of an unlabelled child; only a child labelled `body` can be overwritten by the body |
| InspectorPrint.ChildEntriesLookup | Sources/ViewInspector/Inspector.swift:100-104 | when several children share a key, the last one's tree is the one kept |
| InspectorPrint.SortedLookup | Sources/ViewInspector/Inspector.swift:120 | in a sorted dictionary the keys are distinct, so each entry is what its own key looks up |
| InspectorPrint.NestedPrintStartsLine | Sources/ViewInspector/Inspector.swift:70-92 | a dictionary or non-empty array starts on a new line, indented to its level |
| InspectorPrint.LeafPrint | Sources/ViewInspector/Inspector.swift:77 | a leaf prints as its text on the same line |
| InspectorPrint.EmptyArrayPrint | Sources/ViewInspector/Inspector.swift:129-131 | an empty array prints `" = []\n"` |
| InspectorPrint.DictLinesAreBlocks | Sources/ViewInspector/Inspector.swift:118-123 | a dictionary prints as one block per entry, `indent + key + child printout`, in sorted key order |
| InspectorPrint.DictPrintOrder | Sources/ViewInspector/Inspector.swift:118-123 | the printout is the blocks of the entries before position k, then entry k's block, then the blocks after it |
| InspectorPrint.ArrayLinesAreBlocks | Sources/ViewInspector/Inspector.swift:132-135 | array elements print as blocks `indent + "[i]" + element printout` for consecutive positions i |
| InspectorPrint.ArrayPrintOrder | Sources/ViewInspector/Inspector.swift:128-136 | element k prints under `[k]`, after elements 0..k-1 and before the rest |
| Strings.Split | Sources/ViewInspector/Inspector.swift:30 | `components(separatedBy:)` yields at least one component, and no component contains the separator |
| Strings.JoinSplit | Sources/ViewInspector/Inspector.swift:30 | joining a string's components with the separator gives the string back |
| Strings.SplitJoin | Sources/ViewInspector/Inspector.swift:30 | splitting a join of separator-free labels gives the labels back |
| Strings.NatToStringRoundTrip | Sources/ViewInspector/Inspector.swift:101 | the decimal text of an offset reads back as that offset |
| Strings.IntToStringInjective | Sources/ViewInspector/SwiftUI/CustomView.swift:12 | different indices give different decimal texts |
| Strings.NatToString | Sources/ViewInspector/Inspector.swift:101 | the text of an offset (also the `[offset]` of an array element, line 134) is a non-empty run of decimal digits with no leading zero |
| Strings.IntToString | Sources/ViewInspector/SwiftUI/CustomView.swift:12 | the text of an index is non-empty and starts with `-` exactly when the index is negative |
| Strings.LessIrreflexive | Sources/ViewInspector/Inspector.swift:120 | `Less`, the key order `$0.key < $1.key`, never puts a key before itself |
| Strings.LessTransitive | Sources/ViewInspector/Inspector.swift:120 | `Less` is transitive |
| Strings.LessTotal | Sources/ViewInspector/Inspector.swift:120 | of two different keys one is `Less` than the other, so sorting by `Less` orders every dictionary fully |
| CustomView.ViewTypePrefix | Sources/ViewInspector/SwiftUI/CustomView.swift:7-9 | the custom view's prefix is `T`'s name up to the first `<` |
| CustomView.ViewKindAccepted | Sources/ViewInspector/SwiftUI/CustomView.swift:48-50 | a value of type `T` passes the guard for `T`'s prefix unless it is one of the unsupported environment readers |
| CustomView.InspectionCall | Sources/ViewInspector/SwiftUI/CustomView.swift:11-16 | the call string starts with `.view(P.self` where P is the prefix, and ends with `)` |
| CustomView.InspectionCallIndexed | Sources/ViewInspector/SwiftUI/CustomView.swift:11-16 | the indexed call string is the plain one with `, i` inserted before the closing parenthesis |
| CustomView.InspectionCallInjective | Sources/ViewInspector/SwiftUI/CustomView.swift:11-16 | the call string tells whether an index was given and which one |
| CustomView.Child | Sources/ViewInspector/SwiftUI/CustomView.swift:25-28 | a non-Inspectable view is `typeMismatch(name, "Inspectable")`; otherwise the body is unwrapped with an empty modifier list |
| CustomView.ChildDropsModifiers | Sources/ViewInspector/SwiftUI/CustomView.swift:27 | the parent's modifiers never affect the child |
| CustomView.Children | Sources/ViewInspector/SwiftUI/CustomView.swift:34-38 | a non-Inspectable view is a type mismatch; otherwise the children are those of the body, with a single child's modifiers reset |
| CustomView.ChildrenOfSingleBody | Sources/ViewInspector/SwiftUI/CustomView.swift:34-38 | a body that unwraps to a non-tuple view gives exactly one child, with no modifiers |
| CustomView.ViewOfSingleParent | Sources/ViewInspector/SwiftUI/CustomView.swift:46-52 | corrected (see ## Findings): the parent's child is returned exactly when `guardType` passes with `T`'s prefix and the call `.view(P.self)`; otherwise the guard's error is thrown, and a parent error propagates |
| CustomView.ViewOfMultipleParent | Sources/ViewInspector/SwiftUI/CustomView.swift:60-66 | corrected (see ## Findings): the child at the index is returned exactly when `guardType` passes with `T`'s prefix and the call `.view(P.self, i)`; otherwise the guard's error is thrown, and a parent error propagates |
| CustomView.ViewOfMultipleParentAsWritten | Sources/ViewInspector/SwiftUI/CustomView.swift:60-66 | as written: the child at the index is returned exactly when `guardType` passes with `T`'s prefix and the parent kind's indexed call string; otherwise that guard's error is thrown |
| CustomView.AsWrittenNamesParentCallIndexed | Sources/ViewInspector/SwiftUI/CustomView.swift:63-64 | for a navigation-bar environment reader at the index, the as-written message names the parent's call, and differs from the message naming `.view(P.self, i)` |
| CustomView.ViewOfSingleParentAsWritten | Sources/ViewInspector/SwiftUI/CustomView.swift:46-52 | as written: the parent's child is returned exactly when `guardType` passes with `T`'s prefix and the parent kind's call string; otherwise that guard's error is thrown |
| CustomView.AsWrittenNamesParentCall | Sources/ViewInspector/SwiftUI/CustomView.swift:49-50 | for a navigation-bar environment reader, the as-written message names the parent's call, and differs from the message naming `.view(P.self)` |
| CustomView.NavigationBarItemsMessageInjective | Sources/ViewInspector/Inspector.swift:193-197 | different call strings give different navigation-bar messages |
| CustomView.ActualView | Sources/ViewInspector/SwiftUI/CustomView.swift:74-76 | `actualView()` succeeds exactly when the view has type `T`, returns the view, and otherwise is `typeMismatch(name, T)` |
| CustomView.ViewBuilder | Sources/ViewInspector/SwiftUI/CustomView.swift:78-81 | returns the receiver unchanged |
| Picker.PickerKindAccepted | Sources/ViewInspector/SwiftUI/Picker.swift:7 | every `Picker<...>` has prefix `Picker` and passes the picker guard |
| Picker.Children | Sources/ViewInspector/SwiftUI/Picker.swift:16-19 | a missing `content` field is `attributeNotFound("content", name)`; otherwise the children are those of the first `content` field, with no modifier reset |
| Inspector.UnwrappedAttribute | Sources/ViewInspector/SwiftUI/Picker.swift:52-55 | the shared shape of `labelView()`, `title()` and `icon()`: a missing field is `attributeNotFound`; otherwise the first such field is unwrapped with empty modifiers |
| Inspector.StyleAttribute | Sources/ViewInspector/SwiftUI/Picker.swift:75-80 | the shared shape of `pickerStyle()` and `labelStyle()`: search errors propagate; otherwise `modifier` and then `style` are looked up on the modifier found |
| Picker.LabelView | Sources/ViewInspector/SwiftUI/Picker.swift:52-55 | a missing `label` field is `attributeNotFound`; otherwise the field is unwrapped with empty modifiers |
| Picker.Label | Sources/ViewInspector/SwiftUI/Picker.swift:47-50 | the deprecated `label()` is `labelView()` |
| Picker.ExpectedSelectionType | Sources/ViewInspector/SwiftUI/Picker.swift:61 | the reported type is the binding's type name without its first 8 and its last character |
| Picker.ExpectedSelectionTypeOfBinding | Sources/ViewInspector/SwiftUI/Picker.swift:61 | for `Binding<S>` the reported type is `S` |
| Picker.Selection | Sources/ViewInspector/SwiftUI/Picker.swift:58 | the `selection` path succeeds exactly when a `selection` field exists, and otherwise throws `attributeNotFound("selection", name)`; that it is the first such field follows from `SelectionIsLabelLookup` |
| Picker.Select | Sources/ViewInspector/SwiftUI/Picker.swift:57-67 | a missing `selection` fails before any write; a binding of the selection type receives the value; any other binding throws `notSupported` naming the expected and received types, and the cell is unchanged |
| Picker.SelectWrongType | Sources/ViewInspector/SwiftUI/Picker.swift:60-64 | a binding of a different type `S` gives `notSupported` with `SelectMismatchMessage(S, <selection type>)`, the text `"select(value:) expects a value of type S but received <selection type>"`, and no write |
| Picker.SelectionIsLabelLookup | Sources/ViewInspector/SwiftUI/Picker.swift:58 | the `selection` path is the single-label lookup of `selection` |
| Picker.PickerStyle | Sources/ViewInspector/SwiftUI/Picker.swift:75-80 | the modifier found for a `PickerStyleWriter` type, with `modifier` and then `style` looked up; search errors propagate |
| Label.LabelKindAccepted | Sources/ViewInspector/SwiftUI/Label.swift:7 | every `Label<...>` has prefix `Label` and passes the label guard |
| Label.Title | Sources/ViewInspector/SwiftUI/Label.swift:36-39 | a missing `title` field is `attributeNotFound`; otherwise the field is unwrapped with empty modifiers |
| Label.Icon | Sources/ViewInspector/SwiftUI/Label.swift:41-44 | a missing `icon` field is `attributeNotFound`; otherwise the field is unwrapped with empty modifiers |
| Label.LabelStyle | Sources/ViewInspector/SwiftUI/Label.swift:52-57 | the modifier found for a `LabelStyleModifier` type, with `modifier` and then `style` looked up; search errors propagate |

## Left out

- Swift runtime reflection (`Mirror`, `type(of:)`, `String(describing:)`) is replaced by the fields of `Values.Value`. A type is known only by its `String(describing:)` name.
- `Values.Value` is a finite tree: values that share a class instance, or object graphs with cycles, cannot be represented. A weak back-reference reflects as an `Optional` holding the object, so `print` and `attributesTree` (Inspector.swift:98-107) recurse without end on a cyclic graph; that non-termination is not modelled, and the model's printer is total.
- Inspector.Cast: `as?` is modelled as an exact type-name match (plus `Any` and `Inspectable`). It does not model subclass upcasts, other protocol conformances, or Optional and bridging conversions.
- The other view kinds' extractors and `TupleView.typePrefix` are parameters (`Inspector.Extractors`). The model makes no claim about their results, recursion or termination, so the engine's full normalisation depth is not modelled.
- `Content`'s initializer and its default of an empty modifier list are not part of this model. `Content(view)` is taken to mean `Content(view, [])`.
- `InspectableView` construction (`.init(_:parent:index:)`), parent and index tracking, `child()`/`child(at:)` and `modifier(_:call:)` are not part of this model. They are function parameters, or else the model returns the content the new view would wrap. This also covers the adapters' `picker()`, `picker(_:)`, `label()` and `label(_:)` (Picker.swift:27-40, Label.swift:15-30).
- The hosting lookups `nsView`, `uiView` and `viewController` (CustomView.swift:84-112) are platform UI plumbing and are left out.
- `LabelStyle.inspect()` and the `unsafeBitCast` configuration initializer (Label.swift:62-79) are left out. They depend on evaluating SwiftUI bodies and on memory reinterpretation.
- Picker.Select: a SwiftUI `Binding` is modelled as one abstract cell whose new contents the function returns. Two-way binding semantics are not modelled.
- Picker.Select: when the binding does not have the selection type and its type name is shorter than 9 characters, the Swift slice traps at run time. The model excludes that case with a precondition (`Picker.SelectionSliceable`) rather than modelling the crash.
- `String` comparison is lexicographic on character codes, and Unicode normalisation is not modelled.
- A Swift `String` is a sequence of `Character`s, which are extended grapheme clusters. The model's `string` is a sequence of Unicode scalars, and `|s|` counts scalars. This changes `hasPrefix`, `prefix.count > 0` in `guardType`, and the `Array(typeName)[8..<typeName.count - 1]` slice in `Picker.select` (Picker.swift:61) for type names that contain multi-scalar characters. Swift type names are normally ASCII, where the two counts agree.
- `@available` platform annotations carry no behaviour and are omitted.

## Findings

| source | as written | input that shows it | evidently intended | confidence | as-written member | corrected member |
|---|---|---|---|---|---|---|
| Sources/ViewInspector/SwiftUI/CustomView.swift:49 | the call string given to `guardType` is `View.inspectionCall(index: nil)`; here `View` is the parent kind, so the `notSupported` message names the parent's call | a parent whose call string is `.anyView()`, whose child is `EnvironmentReaderView<…NavigationBarItemsKey…>`, asked for `.view(MyView.self)`: the message says to insert `.navigationBarItems()` before `.anyView()` | the message names the call the test made, `.view(MyView.self)` (`ViewType.View<T>.inspectionCall`) | medium; not executed | CustomView.ViewOfSingleParentAsWritten, CustomView.AsWrittenNamesParentCall | CustomView.ViewOfSingleParent |
| Sources/ViewInspector/SwiftUI/CustomView.swift:63 | the call string given to `guardType` is `View.inspectionCall(index: index)` of the parent kind | a multi-child parent whose child at index 0 is `EnvironmentReaderView<…NavigationBarItemsKey…>`, asked for `.view(MyView.self, 0)`: the message names the parent's indexed call | the message names `.view(MyView.self, 0)` | medium; not executed | CustomView.ViewOfMultipleParentAsWritten, CustomView.AsWrittenNamesParentCallIndexed | CustomView.ViewOfMultipleParent |
