/**
 * The adapter for `Picker`: its children, its label view, writing the
 * selection, and the picker style modifier.
 */
module Picker {
  import opened Wrappers
  import opened Strings
  import opened Values
  import opened Inspector

  /** `ViewType.Picker.typePrefix`. */
  const PickerTypePrefix: string := "Picker"

  /** Every `Picker<...>` view has the picker prefix and passes the picker kind guard. */
  lemma PickerKindAccepted(v: Value, args: string, call: string)
    requires TypeName(v) == "Picker<" + args + ">"
    ensures TypePrefix(TypeName(v)) == PickerTypePrefix
    ensures GuardType(v, PickerTypePrefix, call) == Pass
  {
    TypePrefixOfGeneric("Picker", args + ">");
    assert TypeName(v) == "Picker" + "<" + (args + ">");
    assert TypeName(v)[..|PickerTypePrefix|] == PickerTypePrefix;
    assert TypeName(v)[0] != "EnvironmentReaderView"[0];
  }

  /**
   * `Picker.children(_:)`: the children of the picker's `content` field,
   * modifiers kept.
   */
  function Children(x: Extractors, c: Content): (r: Result<LazyGroup, InspectionError>)
    ensures !HasLabelled(LookupChildren(c.view), "content") ==>
      r == Err(AttributeNotFound("content", TypeName(c.view)))
    ensures HasLabelled(LookupChildren(c.view), "content") ==>
      exists k: nat :: IsFirstLabelled(LookupChildren(c.view), "content", k)
        && r == ViewsInContainer(x, LookupChildren(c.view)[k].value, false)
  {
    var content :- Attribute("content", c.view);
    ViewsInContainer(x, content, false)
  }

  /** `labelView()`: the picker's `label` field, unwrapped with no modifiers. */
  function LabelView(x: Extractors, c: Content): (r: Result<Content, InspectionError>)
    ensures !HasLabelled(LookupChildren(c.view), "label") ==>
      r == Err(AttributeNotFound("label", TypeName(c.view)))
    ensures HasLabelled(LookupChildren(c.view), "label") ==>
      exists k: nat :: IsFirstLabelled(LookupChildren(c.view), "label", k)
        && r == Unwrap(x, Content(LookupChildren(c.view)[k].value, []))
  {
    UnwrappedAttribute(x, c.view, "label")
  }

  /** The deprecated `label()`: the same view as `labelView()`. */
  function Label(x: Extractors, c: Content): (r: Result<Content, InspectionError>)
    ensures r == LabelView(x, c)
  {
    LabelView(x, c)
  }

  // ---------------------------------------------------------------------------
  // select(value:)

  /** The type name of `Binding<S>` for a selection type named `s`. */
  function BindingTypeName(s: string): string {
    "Binding<" + s + ">"
  }

  /**
   * The expected selection type the error message reports: the binding's
   * type name without its first 8 and its last character.
   */
  function ExpectedSelectionType(bindingName: string): (r: string)
    requires |bindingName| >= 9
    ensures |r| == |bindingName| - 9
    ensures forall k | 0 <= k < |r| :: r[k] == bindingName[8 + k]
  {
    bindingName[8..|bindingName| - 1]
  }

  /** For a binding of `S`, the reported expected type is `S`. */
  lemma ExpectedSelectionTypeOfBinding(s: string)
    ensures ExpectedSelectionType(BindingTypeName(s)) == s
  {
    var b := BindingTypeName(s);
    assert b[8..|b| - 1] == s;
  }

  /** The message for a selection of the wrong type. */
  function SelectMismatchMessage(expected: string, received: string): string {
    "select(value:) expects a value of type " + expected + " but received " + received
  }

  /**
   * The bound value a picker's `selection` path resolves to; it exists
   * exactly when the picker has a `selection` field.
   */
  function Selection(c: Content): (r: Result<Value, InspectionError>)
    ensures r.Ok? <==> HasLabelled(LookupChildren(c.view), "selection")
    ensures r.Err? ==> r.error == AttributeNotFound("selection", TypeName(c.view))
  {
    AttributePathSingle("selection", c.view, AnyType);
    AttributePath("selection", c.view, AnyType)
  }

  /**
   * The slice that builds the message does not trap: the selection (the
   * single-label lookup, see `SelectionIsLabelLookup`) is
   * missing, is a binding of the selection type, or has a type name of at
   * least 9 characters.
   */
  predicate SelectionSliceable(c: Content, selectionType: string) {
    var selection := Attribute("selection", c.view);
    || selection.Err?
    || TypeName(selection.value) == BindingTypeName(selectionType)
    || |TypeName(selection.value)| >= 9
  }

  /** The bound cell after a `select`, and what the call threw. */
  datatype SelectResult = SelectResult(cell: Value, outcome: Outcome<InspectionError>)

  /**
   * `select(value:)`: when the picker's `selection` is a binding of the
   * selection type, the bound cell takes `value`; otherwise the call throws
   * and the cell keeps its contents. The `selection` path is taken in its
   * single-label form, which `SelectionIsLabelLookup` shows it equals.
   */
  function Select(c: Content, selectionType: string, value: Value, cell: Value): (r: SelectResult)
    requires SelectionSliceable(c, selectionType)
    ensures var selection := Attribute("selection", c.view);
      selection.Err? ==> r == SelectResult(cell, Fail(selection.error))
    ensures var selection := Attribute("selection", c.view);
      selection.Ok? && TypeName(selection.value) == BindingTypeName(selectionType) ==>
      r == SelectResult(value, Pass)
    ensures var selection := Attribute("selection", c.view);
      selection.Ok? && TypeName(selection.value) != BindingTypeName(selectionType) ==>
      && r.cell == cell
      && r.outcome == Fail(NotSupported(SelectMismatchMessage(
           ExpectedSelectionType(TypeName(selection.value)), selectionType)))
  {
    match Attribute("selection", c.view)
    case Err(e) => SelectResult(cell, Fail(e))
    case Ok(binding) =>
      if !Conforms(binding, Exactly(BindingTypeName(selectionType))) then
        var expected := ExpectedSelectionType(TypeName(binding));
        SelectResult(cell, Fail(NotSupported(SelectMismatchMessage(expected, selectionType))))
      else
        SelectResult(value, Pass)
  }

  /**
   * A binding of another type `S` is reported as `notSupported`, naming `S`
   * as expected and the selection type as received, and nothing is written.
   */
  lemma SelectWrongType(c: Content, selectionType: string, s: string, value: Value, cell: Value)
    requires Selection(c).Ok? && TypeName(Selection(c).value) == BindingTypeName(s)
    requires s != selectionType
    ensures SelectionSliceable(c, selectionType)
    ensures Select(c, selectionType, value, cell)
      == SelectResult(cell, Fail(NotSupported(SelectMismatchMessage(s, selectionType))))
  {
    SelectionIsLabelLookup(c);
    ExpectedSelectionTypeOfBinding(s);
    assert BindingTypeName(s) != BindingTypeName(selectionType) by {
      if BindingTypeName(s) == BindingTypeName(selectionType) {
        ExpectedSelectionTypeOfBinding(selectionType);
      }
    }
  }

  /** The `selection` lookup is the single-label lookup of `selection`. */
  lemma SelectionIsLabelLookup(c: Content)
    ensures Selection(c) == Attribute("selection", c.view)
  {
    AttributePathSingle("selection", c.view, AnyType);
    match Attribute("selection", c.view)
    case Err(_) =>
    case Ok(u) => assert Cast(u, AnyType) == Ok(u);
  }

  // ---------------------------------------------------------------------------
  // pickerStyle()

  /** The modifier `pickerStyle()` looks for. */
  predicate IsPickerStyleWriter(modifierType: string) {
    HasPrefix(modifierType, "PickerStyleWriter")
  }

  /** `pickerStyle()`: `modifier|style` of the `PickerStyleWriter` modifier. */
  function PickerStyle(search: ModifierSearch): (r: Result<Value, InspectionError>)
    ensures search(IsPickerStyleWriter, "pickerStyle").Err? ==>
      r == Err(search(IsPickerStyleWriter, "pickerStyle").error)
    ensures search(IsPickerStyleWriter, "pickerStyle").Ok? ==>
      r == match Attribute("modifier", search(IsPickerStyleWriter, "pickerStyle").value)
           case Err(e) => Err(e)
           case Ok(u) => Attribute("style", u)
  {
    StyleAttribute(search, IsPickerStyleWriter, "pickerStyle")
  }
}
