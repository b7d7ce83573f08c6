/**
 * The adapter for `Label`: its title and icon views and the label style
 * modifier.
 */
module Label {
  import opened Wrappers
  import opened Strings
  import opened Values
  import opened Inspector

  /** `ViewType.Label.typePrefix`. */
  const LabelTypePrefix: string := "Label"

  /** Every `Label<...>` view has the label prefix and passes the label kind guard. */
  lemma LabelKindAccepted(v: Value, args: string, call: string)
    requires TypeName(v) == "Label<" + args + ">"
    ensures TypePrefix(TypeName(v)) == LabelTypePrefix
    ensures GuardType(v, LabelTypePrefix, call) == Pass
  {
    TypePrefixOfGeneric("Label", args + ">");
    assert TypeName(v) == "Label" + "<" + (args + ">");
    assert TypeName(v)[..|LabelTypePrefix|] == LabelTypePrefix;
    assert TypeName(v)[0] != "EnvironmentReaderView"[0];
  }

  /** `title()`: the label's `title` field, unwrapped with no modifiers. */
  function Title(x: Extractors, c: Content): (r: Result<Content, InspectionError>)
    ensures !HasLabelled(LookupChildren(c.view), "title") ==>
      r == Err(AttributeNotFound("title", TypeName(c.view)))
    ensures HasLabelled(LookupChildren(c.view), "title") ==>
      exists k: nat :: IsFirstLabelled(LookupChildren(c.view), "title", k)
        && r == Unwrap(x, Content(LookupChildren(c.view)[k].value, []))
  {
    UnwrappedAttribute(x, c.view, "title")
  }

  /** `icon()`: the label's `icon` field, unwrapped with no modifiers. */
  function Icon(x: Extractors, c: Content): (r: Result<Content, InspectionError>)
    ensures !HasLabelled(LookupChildren(c.view), "icon") ==>
      r == Err(AttributeNotFound("icon", TypeName(c.view)))
    ensures HasLabelled(LookupChildren(c.view), "icon") ==>
      exists k: nat :: IsFirstLabelled(LookupChildren(c.view), "icon", k)
        && r == Unwrap(x, Content(LookupChildren(c.view)[k].value, []))
  {
    UnwrappedAttribute(x, c.view, "icon")
  }

  /** The modifier `labelStyle()` looks for. */
  predicate IsLabelStyleModifier(modifierType: string) {
    HasPrefix(modifierType, "LabelStyleModifier")
  }

  /** `labelStyle()`: `modifier|style` of the `LabelStyleModifier` modifier. */
  function LabelStyle(search: ModifierSearch): (r: Result<Value, InspectionError>)
    ensures search(IsLabelStyleModifier, "labelStyle").Err? ==>
      r == Err(search(IsLabelStyleModifier, "labelStyle").error)
    ensures search(IsLabelStyleModifier, "labelStyle").Ok? ==>
      r == match Attribute("modifier", search(IsLabelStyleModifier, "labelStyle").value)
           case Err(e) => Err(e)
           case Ok(u) => Attribute("style", u)
  {
    StyleAttribute(search, IsLabelStyleModifier, "labelStyle")
  }
}
