/**
 * The explicit data model that replaces Swift's runtime reflection
 * (`Mirror`, `type(of:)`, `String(describing:)`), together with the engine's
 * error type, its traversal unit `Content` and the `LazyGroup` of children.
 */
module Values {
  import opened Wrappers

  /** One entry of a mirror's `children`: an optional label and the child value. */
  datatype Child = Child(name: Option<string>, value: Value)

  /**
   * A runtime value as reflection sees it.
   *  - `Object`: any non-array value. `typeName` is `String(describing: type(of:))`,
   *    `children` the mirror's children, `superLayer` the part of the value that
   *    the superclass mirror describes (classes only), `body` the `content` of an
   *    `Inspectable` value, and `description` its `String(describing:)`.
   *  - `Array`: a Swift array; its mirror lists the elements without labels.
   *  - `Layer`: a `Mirror` value already obtained for a superclass layer (the
   *    result of looking up `"super"`). Its type name is `Mirror`, and reflecting
   *    it as a value shows no children.
   */
  datatype Value =
    | Object(typeName: string, children: seq<Child>, superLayer: Option<Value>,
             body: Option<Value>, description: string)
    | Array(typeName: string, elements: seq<Value>)
    | Layer(layer: Value)

  /** `String(describing: type(of: v))`, the full type name. */
  function TypeName(v: Value): string {
    match v
    case Object(name, _, _, _, _) => name
    case Array(name, _) => name
    case Layer(_) => "Mirror"
  }

  /** `Mirror(reflecting: v).children`. */
  function Reflect(v: Value): (cs: seq<Child>)
  {
    match v
    case Object(_, children, _, _, _) => children
    case Array(_, elements) => seq(|elements|, k requires 0 <= k < |elements| => Child(None, elements[k]))
    case Layer(_) => []
  }

  /** `Mirror(reflecting: v).superclassMirror`, as the layer it describes. */
  function SuperclassLayer(v: Value): Option<Value> {
    if v.Object? then v.superLayer else None
  }

  /** `v is Inspectable`. */
  predicate IsInspectable(v: Value) {
    v.Object? && v.body.Some?
  }

  /** `String(describing: v)` for a value that is not an array. */
  function Description(v: Value): string
    requires !v.Array?
  {
    match v
    case Object(_, _, _, _, text) => text
    case Layer(layer) => "Mirror for " + TypeName(layer)
  }

  /** The targets of a checked cast `v as? T`. */
  datatype TypeRef =
    | AnyType                 // Any.self
    | InspectableType         // Inspectable.self
    | Exactly(name: string)   // a concrete type, named by String(describing:)

  /** `String(describing: T.self)`. */
  function TypeRefName(t: TypeRef): string {
    match t
    case AnyType => "Any"
    case InspectableType => "Inspectable"
    case Exactly(name) => name
  }

  /** `v as? T` succeeds. */
  predicate Conforms(v: Value, t: TypeRef) {
    match t
    case AnyType => true
    case InspectableType => IsInspectable(v)
    case Exactly(name) => TypeName(v) == name
  }

  /** The errors thrown by the inspection engine. */
  datatype InspectionError =
    | AttributeNotFound(attribute: string, typeName: string)
    | TypeMismatch(factual: string, expected: string)
    | NotSupported(message: string)

  /** A node of the inspection tree: a view and the modifiers applied above it. */
  datatype Content = Content(view: Value, modifiers: seq<Value>)

  /** A count-known, index-addressable group of children. */
  datatype LazyGroup = LazyGroup(elements: seq<Content>) {
    function Count(): nat {
      |elements|
    }
  }
}
