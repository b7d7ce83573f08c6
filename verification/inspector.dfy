/**
 * The type-erased inspection engine: attribute lookup by label and by
 * `|`-separated path, checked casts, type-name prefixes, one-step unwrapping
 * of the transparent wrapper views, grouping of a container's children and
 * the kind guard used before a view is handed to a typed adapter.
 */
module Inspector {
  import opened Wrappers
  import opened Strings
  import opened Values

  // ---------------------------------------------------------------------------
  // Type names

  /**
   * `typeName(type:prefixOnly: true)`: the part of a type name before the
   * first `<`, i.e. the name without its generic arguments.
   */
  function TypePrefix(name: string): (r: string)
    ensures '<' !in r
    ensures HasPrefix(name, r)
    ensures |r| < |name| ==> name[|r|] == '<'
  {
    SplitHeadIsPrefix(name, '<');
    Split(name, '<')[0]
  }

  /** A name without generic arguments is its own prefix. */
  lemma TypePrefixOfPlainName(name: string)
    requires '<' !in name
    ensures TypePrefix(name) == name
  {
  }

  /** Truncating a type prefix again changes nothing. */
  lemma TypePrefixIdempotent(name: string)
    ensures TypePrefix(TypePrefix(name)) == TypePrefix(name)
  {
    TypePrefixOfPlainName(TypePrefix(name));
  }

  /** The prefix of a type name `P<...>` whose head `P` has no `<` is `P`. */
  lemma TypePrefixOfGeneric(head: string, args: string)
    requires '<' !in head
    ensures TypePrefix(head + "<" + args) == head
  {
    var name := head + "<" + args;
    assert name[|head|] == '<';
    assert name[..|head|] == head;
  }

  // ---------------------------------------------------------------------------
  // Checked casts

  /** `InspectionError.typeMismatch(value, T.self)`: the full names of both types. */
  function Mismatch(v: Value, t: TypeRef): (e: InspectionError)
    ensures e.TypeMismatch?
    ensures e.factual == TypeName(v) && e.expected == TypeRefName(t)
  {
    TypeMismatch(TypeName(v), TypeRefName(t))
  }

  /** `cast(value:type:)`: `v` itself when `v as? T` succeeds, otherwise a type mismatch. */
  function Cast(v: Value, t: TypeRef): (r: Result<Value, InspectionError>)
    ensures r.Ok? <==> Conforms(v, t)
    ensures r.Ok? ==> r.value == v
    ensures r.Err? ==> r.error == TypeMismatch(TypeName(v), TypeRefName(t))
  {
    if Conforms(v, t) then Ok(v) else Err(Mismatch(v, t))
  }

  // ---------------------------------------------------------------------------
  // Attribute lookup

  /** `k` is the position of the first child labelled `key`. */
  predicate IsFirstLabelled(cs: seq<Child>, key: string, k: nat) {
    && k < |cs|
    && cs[k].name == Some(key)
    && forall j | 0 <= j < k :: cs[j].name != Some(key)
  }

  /** Some child is labelled `key`. */
  predicate HasLabelled(cs: seq<Child>, key: string) {
    exists j | 0 <= j < |cs| :: cs[j].name == Some(key)
  }

  /** `Mirror.descendant(label)`: the position of the first child with that label. */
  function FirstLabelled(cs: seq<Child>, key: string): (r: Option<nat>)
    ensures r.Some? ==> IsFirstLabelled(cs, key, r.value)
    ensures r.None? <==> !HasLabelled(cs, key)
  {
    if |cs| == 0 then None
    else if cs[0].name == Some(key) then Some(0)
    else
      match FirstLabelled(cs[1..], key)
      case None => None
      case Some(k) => Some(k + 1)
  }

  /** The children a lookup searches: an already-obtained mirror is used as it is. */
  function LookupChildren(v: Value): seq<Child> {
    if v.Layer? then Reflect(v.layer) else Reflect(v)
  }

  /**
   * `attribute(label:value:type:)`: the first child of `v` labelled `key`,
   * cast to `t`.
   */
  function AttributeAs(key: string, v: Value, t: TypeRef): (r: Result<Value, InspectionError>)
    ensures !HasLabelled(LookupChildren(v), key) ==> r == Err(AttributeNotFound(key, TypeName(v)))
    ensures HasLabelled(LookupChildren(v), key) ==>
      exists k: nat :: IsFirstLabelled(LookupChildren(v), key, k) && r == Cast(LookupChildren(v)[k].value, t)
  {
    var cs := LookupChildren(v);
    match FirstLabelled(cs, key)
    case None => Err(AttributeNotFound(key, TypeName(v)))
    case Some(k) => Cast(cs[k].value, t)
  }

  /** Looking up `"super"` on a value with a superclass yields that layer. */
  predicate IsSuperLookup(key: string, v: Value) {
    key == "super" && SuperclassLayer(v).Some?
  }

  /**
   * `attribute(label:value:)`: the superclass layer for `"super"` when there is
   * one, otherwise the first child labelled `key`.
   */
  function Attribute(key: string, v: Value): (r: Result<Value, InspectionError>)
    ensures IsSuperLookup(key, v) ==> r == Ok(Layer(SuperclassLayer(v).value))
    ensures !IsSuperLookup(key, v) ==> (r.Ok? <==> HasLabelled(LookupChildren(v), key))
    ensures !IsSuperLookup(key, v) && r.Ok? ==>
      exists k: nat :: IsFirstLabelled(LookupChildren(v), key, k) && r.value == LookupChildren(v)[k].value
    ensures r.Err? ==> r.error == AttributeNotFound(key, TypeName(v))
  {
    if IsSuperLookup(key, v) then Ok(Layer(SuperclassLayer(v).value))
    else AttributeAs(key, v, AnyType)
  }

  /** Looking a label up on an obtained layer searches the layer's own fields. */
  lemma AttributeOnLayer(key: string, s: Value, k: nat)
    requires IsFirstLabelled(Reflect(s), key, k)
    ensures Attribute(key, Layer(s)) == Ok(Reflect(s)[k].value)
  {
    var r := Attribute(key, Layer(s));
    var k': nat :| IsFirstLabelled(Reflect(s), key, k') && r.value == Reflect(s)[k'].value;
    FirstLabelledUnique(Reflect(s), key, k, k');
  }

  /** A Swift array's mirror lists its elements without labels, so no label is found on an array. */
  lemma LabelLookupOnArray(key: string, v: Value)
    requires v.Array?
    ensures Attribute(key, v) == Err(AttributeNotFound(key, TypeName(v)))
  {
    var cs := LookupChildren(v);
    assert forall k | 0 <= k < |cs| :: cs[k].name == None;
  }

  lemma FirstLabelledUnique(cs: seq<Child>, key: string, k: nat, k': nat)
    requires IsFirstLabelled(cs, key, k) && IsFirstLabelled(cs, key, k')
    ensures k == k'
  {
  }

  /** The left fold of single-label lookups over `labels`, starting from `v`. */
  function Resolve(labels: seq<string>, v: Value): (r: Result<Value, InspectionError>)
    ensures r.Err? ==> r.error.AttributeNotFound?
    ensures r.Err? ==> r.error.attribute in labels
  {
    if |labels| == 0 then Ok(v)
    else
      var u :- Attribute(labels[0], v);
      Resolve(labels[1..], u)
  }

  /** Resolving `a + b` resolves `a`, then resolves `b` from where `a` ended. */
  lemma {:induction false} ResolveAppend(a: seq<string>, b: seq<string>, v: Value)
    ensures Resolve(a + b, v) ==
      match Resolve(a, v)
      case Err(e) => Err(e)
      case Ok(u) => Resolve(b, u)
  {
    if |a| > 0 {
      assert (a + b)[0] == a[0];
      assert (a + b)[1..] == a[1..] + b;
      match Attribute(a[0], v)
      case Err(e) =>
        assert Resolve(a + b, v) == Err(e);
        assert Resolve(a, v) == Err(e);
      case Ok(u) =>
        ResolveAppend(a[1..], b, u);
        assert Resolve(a + b, v) == Resolve(a[1..] + b, u);
        assert Resolve(a, v) == Resolve(a[1..], u);
    } else {
      assert a + b == b;
    }
  }

  /**
   * Fail-fast: when segment `k` is the first to fail, the whole lookup fails
   * with that segment's error, whatever follows it.
   */
  lemma ResolveStopsAtFailure(labels: seq<string>, v: Value, k: nat, rest: seq<string>)
    requires k < |labels|
    requires Resolve(labels[..k], v).Ok?
    requires Attribute(labels[k], Resolve(labels[..k], v).value).Err?
    ensures Resolve(labels, v) == Attribute(labels[k], Resolve(labels[..k], v).value)
    ensures Resolve(labels[..k + 1] + rest, v) == Resolve(labels, v)
  {
    SplitAtSegment(labels, k, labels[k + 1..]);
    ResolveThroughFailure(labels[..k], labels[k], labels[k + 1..], v);
    SplitAtSegment(labels, k, rest);
    ResolveThroughFailure(labels[..k], labels[k], rest, v);
  }

  lemma SplitAtSegment(labels: seq<string>, k: nat, rest: seq<string>)
    requires k < |labels|
    ensures labels == labels[..k] + ([labels[k]] + labels[k + 1..])
    ensures labels[..k + 1] + rest == labels[..k] + ([labels[k]] + rest)
  {
    assert labels[..k + 1] == labels[..k] + [labels[k]];
  }

  /** A segment that fails after a successful prefix decides the lookup. */
  lemma ResolveThroughFailure(prefix: seq<string>, key: string, rest: seq<string>, v: Value)
    requires Resolve(prefix, v).Ok?
    requires Attribute(key, Resolve(prefix, v).value).Err?
    ensures Resolve(prefix + ([key] + rest), v) == Attribute(key, Resolve(prefix, v).value)
  {
    var u := Resolve(prefix, v).value;
    ResolveAppend(prefix, [key] + rest, v);
    ResolveAppend([key], rest, u);
    assert Resolve([key], u) == Attribute(key, u);
  }

  /**
   * The value the path resolves to, cast to `t`: a result has type `t`; a
   * failure is a missing label of the path or a mismatch against `t`.
   */
  function ResolveAs(labels: seq<string>, v: Value, t: TypeRef): (r: Result<Value, InspectionError>)
    ensures r.Ok? ==> Conforms(r.value, t)
    ensures r.Err? && r.error.AttributeNotFound? ==> r.error.attribute in labels
    ensures r.Err? && !r.error.AttributeNotFound? ==> r.error.TypeMismatch? && r.error.expected == TypeRefName(t)
    ensures t == AnyType && r.Err? ==> r.error.AttributeNotFound?
  {
    var child :- Resolve(labels, v);
    Cast(child, t)
  }

  /**
   * `attribute(path:value:type:)`: split the path on `|`, resolve the labels
   * left to right, then cast the result to `t`.
   */
  function AttributePath(path: string, v: Value, t: TypeRef): (r: Result<Value, InspectionError>)
    ensures r.Ok? ==> Conforms(r.value, t)
    ensures r.Err? && r.error.AttributeNotFound? ==> r.error.attribute in Split(path, '|')
    ensures r.Err? && r.error.AttributeNotFound? ==> '|' !in r.error.attribute
    ensures r.Err? && !r.error.AttributeNotFound? ==> r.error.TypeMismatch? && r.error.expected == TypeRefName(t)
  {
    ResolveAs(Split(path, '|'), v, t)
  }

  /** A path made of separator-free labels resolves exactly those labels. */
  lemma AttributePathSegments(labels: seq<string>, v: Value, t: TypeRef)
    requires |labels| >= 1
    requires forall k | 0 <= k < |labels| :: '|' !in labels[k]
    ensures AttributePath(Join(labels, '|'), v, t) == ResolveAs(labels, v, t)
  {
    SplitJoin(labels, '|');
  }

  /** A path of a single label is a single-label lookup followed by the cast. */
  lemma AttributePathSingle(key: string, v: Value, t: TypeRef)
    requires '|' !in key
    ensures AttributePath(key, v, t) ==
      match Attribute(key, v)
      case Err(e) => Err(e)
      case Ok(u) => Cast(u, t)
  {
    SplitFree(key, '|');
    ResolveSingle(key, v);
  }

  /** Resolving one label is that label's lookup. */
  lemma ResolveSingle(key: string, v: Value)
    ensures Resolve([key], v) == Attribute(key, v)
  {
    assert [key][1..] == [];
  }

  /** A two-label path `a|b` looks `a` up on `v`, then `b` on the result. */
  lemma AttributePathPair(a: string, b: string, v: Value, t: TypeRef)
    requires '|' !in a && '|' !in b
    ensures AttributePath(a + "|" + b, v, t) ==
      match Attribute(a, v)
      case Err(e) => Err(e)
      case Ok(u) =>
        match Attribute(b, u)
        case Err(e) => Err(e)
        case Ok(w) => Cast(w, t)
  {
    assert Join([a, b], '|') == a + "|" + b;
    AttributePathSegments([a, b], v, t);
    assert [a, b] == [a] + [b];
    ResolveAppend([a], [b], v);
    ResolveSingle(a, v);
    match Attribute(a, v)
    case Err(_) =>
    case Ok(u) => ResolveSingle(b, u);
  }

  // ---------------------------------------------------------------------------
  // Unwrapping transparent views

  /** The wrapper views `unwrap(content:)` sees through. */
  datatype Transparent =
    | TreeKind | IDViewKind | OptionalKind | EquatableKind | ModifiedKind
    | SubscriptionKind | ConditionalKind | EnvironmentReaderKind | DelayedPreferenceKind

  /** The type prefix that selects each transparent kind. */
  function KindPrefix(k: Transparent): string {
    match k
    case TreeKind => "Tree"
    case IDViewKind => "IDView"
    case OptionalKind => "Optional"
    case EquatableKind => "EquatableView"
    case ModifiedKind => "ModifiedContent"
    case SubscriptionKind => "SubscriptionView"
    case ConditionalKind => "_ConditionalContent"
    case EnvironmentReaderKind => "EnvironmentReaderView"
    case DelayedPreferenceKind => "_DelayedPreferenceView"
  }

  /** The switch of `unwrap(content:)`: which transparent kind a prefix names, if any. */
  function TransparentKind(prefix: string): (r: Option<Transparent>)
    ensures r.Some? ==> KindPrefix(r.value) == prefix
    ensures r.None? ==> forall k: Transparent :: KindPrefix(k) != prefix
  {
    if prefix == "Tree" then Some(TreeKind)
    else if prefix == "IDView" then Some(IDViewKind)
    else if prefix == "Optional" then Some(OptionalKind)
    else if prefix == "EquatableView" then Some(EquatableKind)
    else if prefix == "ModifiedContent" then Some(ModifiedKind)
    else if prefix == "SubscriptionView" then Some(SubscriptionKind)
    else if prefix == "_ConditionalContent" then Some(ConditionalKind)
    else if prefix == "EnvironmentReaderView" then Some(EnvironmentReaderKind)
    else if prefix == "_DelayedPreferenceView" then Some(DelayedPreferenceKind)
    else None
  }

  /** Each transparent kind is selected by its own prefix and by no other. */
  lemma TransparentKindRoundTrip(k: Transparent)
    ensures TransparentKind(KindPrefix(k)) == Some(k)
  {
  }

  /**
   * The extraction strategies of the other view kinds, which are outside this
   * model: the `child` of each transparent kind, and `TupleView`'s type prefix
   * and `children`. No property of them is assumed.
   */
  datatype Extractors = Extractors(
    child: (Transparent, Content) -> Result<Content, InspectionError>,
    tuplePrefix: string,
    tupleChildren: Content -> Result<LazyGroup, InspectionError>)

  /** The view is not one of the transparent wrappers. */
  predicate Settled(v: Value) {
    TransparentKind(TypePrefix(TypeName(v))).None?
  }

  /**
   * `unwrap(content:)` (and `unwrap(view:modifiers:)`): a transparent wrapper is
   * handed to its kind's extractor; any other view is returned unchanged,
   * modifiers included.
   */
  function Unwrap(x: Extractors, c: Content): (r: Result<Content, InspectionError>)
    ensures Settled(c.view) ==> r == Ok(c)
    ensures !Settled(c.view) ==>
      exists k: Transparent :: KindPrefix(k) == TypePrefix(TypeName(c.view)) && r == x.child(k, c)
  {
    match TransparentKind(TypePrefix(TypeName(c.view)))
    case Some(k) => x.child(k, c)
    case None => Ok(c)
  }

  /** The extractors only ever produce views that are no longer transparent. */
  ghost predicate ExtractorsSettle(x: Extractors) {
    forall k: Transparent, c: Content :: x.child(k, c).Ok? ==> Settled(x.child(k, c).value.view)
  }

  /** When the extractors settle, unwrapping twice is unwrapping once. */
  lemma UnwrapIdempotent(x: Extractors, c: Content)
    requires ExtractorsSettle(x)
    requires Unwrap(x, c).Ok?
    ensures Unwrap(x, Unwrap(x, c).value) == Unwrap(x, c)
  {
    var u := Unwrap(x, c).value;
    if !Settled(c.view) {
      var k :| KindPrefix(k) == TypePrefix(TypeName(c.view)) && Unwrap(x, c) == x.child(k, c);
      assert Settled(u.view);
    }
  }

  /** `isTupleView(_:)`: the view's type prefix is `TupleView`'s. */
  predicate IsTupleView(x: Extractors, v: Value)
    ensures IsTupleView(x, v) ==> HasPrefix(TypeName(v), x.tuplePrefix)
    ensures IsTupleView(x, v) ==> '<' !in x.tuplePrefix
  {
    TypePrefix(TypeName(v)) == x.tuplePrefix
  }

  /**
   * `viewsInContainer(view:resetModifiersForSingleChild:)`: unwrap the view;
   * a tuple view yields its elements, anything else exactly one child, with
   * its modifiers cleared when `reset` is set.
   */
  function ViewsInContainer(x: Extractors, view: Value, reset: bool): (r: Result<LazyGroup, InspectionError>)
    ensures Unwrap(x, Content(view, [])).Err? ==> r == Err(Unwrap(x, Content(view, [])).error)
    ensures Unwrap(x, Content(view, [])).Ok? && IsTupleView(x, Unwrap(x, Content(view, [])).value.view) ==>
      r == x.tupleChildren(Unwrap(x, Content(view, [])).value)
    ensures Unwrap(x, Content(view, [])).Ok? && !IsTupleView(x, Unwrap(x, Content(view, [])).value.view) ==>
      && r.Ok? && r.value.Count() == 1
      && r.value.elements[0].view == Unwrap(x, Content(view, [])).value.view
      && r.value.elements[0].modifiers == (if reset then [] else Unwrap(x, Content(view, [])).value.modifiers)
  {
    var unwrapped :- Unwrap(x, Content(view, []));
    if !IsTupleView(x, unwrapped.view) then
      Ok(LazyGroup([if reset then Content(unwrapped.view, []) else unwrapped]))
    else
      x.tupleChildren(unwrapped)
  }

  /** A settled, non-tuple view is its own single child. */
  lemma ViewsInContainerSingle(x: Extractors, view: Value, reset: bool)
    requires Settled(view) && !IsTupleView(x, view)
    ensures ViewsInContainer(x, view, reset) == Ok(LazyGroup([Content(view, [])]))
  {
  }

  // ---------------------------------------------------------------------------
  // Kind guard

  /** The guidance given for a view hidden behind `navigationBarItems`. */
  function NavigationBarItemsMessage(call: string): (m: string)
    ensures Contains(m, call)
    ensures HasPrefix(m, "Please insert '.navigationBarItems()' before ")
  {
    var head := "Please insert '.navigationBarItems()' before ";
    var m := head + call + " for unwrapping the underlying view hierarchy.";
    assert m[|head|..|head| + |call|] == call;
    ContainsWitness(m, call, |head|);
    assert m[..|head|] == head;
    m
  }

  /** The guidance given for a view under a popover. */
  const PopoverMessage: string := "Unwrapping the view under popover is not supported on iOS 14.0 and 14.1"

  /** The full type name is an environment reader carrying the navigation bar items. */
  predicate HidesNavigationBarItems(name: string) {
    HasPrefix(name, "EnvironmentReaderView") && Contains(name, "NavigationBarItemsKey")
  }

  /** The full type name is an environment reader carrying a popover anchor. */
  predicate HidesPopover(name: string) {
    HasPrefix(name, "EnvironmentReaderView") && Contains(name, "_AnchorWritingModifier")
  }

  /**
   * `guardType(value:prefix:inspectionCall:)`: with a non-empty prefix, the two
   * unsupported environment-reader configurations are reported first; otherwise
   * the full type name must start with `prefix`.
   */
  function GuardType(v: Value, prefix: string, call: string): (r: Outcome<InspectionError>)
    ensures prefix == "" ==> r == Pass
    ensures |prefix| > 0 && HidesNavigationBarItems(TypeName(v)) ==>
      r == Fail(NotSupported(NavigationBarItemsMessage(call)))
    ensures |prefix| > 0 && !HidesNavigationBarItems(TypeName(v)) && HidesPopover(TypeName(v)) ==>
      r == Fail(NotSupported(PopoverMessage))
    ensures (r.Fail? && r.error.NotSupported?) <==>
      |prefix| > 0 && (HidesNavigationBarItems(TypeName(v)) || HidesPopover(TypeName(v)))
    ensures (r.Fail? && r.error.TypeMismatch?) <==>
      !(|prefix| > 0 && (HidesNavigationBarItems(TypeName(v)) || HidesPopover(TypeName(v))))
      && !HasPrefix(TypeName(v), prefix)
    ensures r.Fail? && r.error.TypeMismatch? ==> r.error == TypeMismatch(TypeName(v), prefix)
    ensures !r.Fail? || !r.error.AttributeNotFound?
  {
    var name := TypeName(v);
    if |prefix| > 0 && HasPrefix(name, "EnvironmentReaderView") && Contains(name, "NavigationBarItemsKey") then
      Fail(NotSupported(NavigationBarItemsMessage(call)))
    else if |prefix| > 0 && HasPrefix(name, "EnvironmentReaderView") && Contains(name, "_AnchorWritingModifier") then
      Fail(NotSupported(PopoverMessage))
    else if !HasPrefix(name, prefix) then
      Fail(TypeMismatch(name, prefix))
    else
      Pass
  }

  // ---------------------------------------------------------------------------
  // Shared shapes of the per-kind adapters

  /**
   * A field of a view, looked up by label and unwrapped with no modifiers;
   * the shape of `Picker.labelView()`, `Label.title()` and `Label.icon()`.
   */
  function UnwrappedAttribute(x: Extractors, v: Value, key: string): (r: Result<Content, InspectionError>)
    ensures !IsSuperLookup(key, v) && !HasLabelled(LookupChildren(v), key) ==>
      r == Err(AttributeNotFound(key, TypeName(v)))
    ensures !IsSuperLookup(key, v) && HasLabelled(LookupChildren(v), key) ==>
      exists k: nat :: IsFirstLabelled(LookupChildren(v), key, k) && r == Unwrap(x, Content(LookupChildren(v)[k].value, []))
  {
    var field :- Attribute(key, v);
    Unwrap(x, Content(field, []))
  }

  /**
   * The modifier search of `InspectableView.modifier(_:call:)`, which is not
   * part of this model: given a test on a modifier's type name and the name
   * of the calling accessor, it finds a modifier or fails.
   */
  type ModifierSearch = (string -> bool, string) -> Result<Value, InspectionError>

  /**
   * The shape of `pickerStyle()` and `labelStyle()`: find the modifier whose
   * type passes `matches`, then resolve the path `modifier|style` on it.
   */
  function StyleAttribute(search: ModifierSearch, matches: string -> bool, call: string): (r: Result<Value, InspectionError>)
    ensures search(matches, call).Err? ==> r == Err(search(matches, call).error)
    ensures search(matches, call).Ok? ==>
      r == match Attribute("modifier", search(matches, call).value)
           case Err(e) => Err(e)
           case Ok(u) => Attribute("style", u)
  {
    var modifier :- search(matches, call);
    ModifierStylePath(modifier);
    AttributePath("modifier|style", modifier, AnyType)
  }

  /** The path `modifier|style` looks up `modifier`, then `style`. */
  lemma ModifierStylePath(m: Value)
    ensures AttributePath("modifier|style", m, AnyType) ==
      match Attribute("modifier", m)
      case Err(e) => Err(e)
      case Ok(u) => Attribute("style", u)
  {
    assert "modifier" + "|" + "style" == "modifier|style";
    AttributePathPair("modifier", "style", m, AnyType);
    match Attribute("modifier", m)
    case Err(_) =>
    case Ok(u) =>
      match Attribute("style", u)
      case Err(_) =>
      case Ok(w) => assert Cast(w, AnyType) == Ok(w);
  }
}
