/**
 * The adapter for custom views, `ViewType.View<T>` with `T: Inspectable`:
 * its type prefix and call string, its single child and children, the
 * typed extraction `view(_:)` / `view(_:_:)`, and `actualView()`.
 * A type `T` is given by its full type name.
 */
module CustomView {
  import opened Wrappers
  import opened Strings
  import opened Values
  import opened Inspector

  /** `ViewType.View<T>.typePrefix`: `T`'s name without generic arguments. */
  function ViewTypePrefix(t: string): (r: string)
    ensures '<' !in r
    ensures HasPrefix(t, r)
    ensures |r| < |t| ==> t[|r|] == '<'
  {
    TypePrefix(t)
  }

  /**
   * A value of the custom type `T` passes the guard for `T`'s prefix, unless
   * its name marks one of the unsupported environment readers.
   */
  lemma ViewKindAccepted(v: Value, call: string)
    requires !HidesNavigationBarItems(TypeName(v)) && !HidesPopover(TypeName(v))
    ensures GuardType(v, ViewTypePrefix(TypeName(v)), call) == Pass
  {
  }

  /** `ViewType.View<T>.inspectionCall(index:)`: `.view(P.self)` or `.view(P.self, i)`. */
  function InspectionCall(t: string, index: Option<int>): (r: string)
    ensures HasPrefix(r, ".view(" + ViewTypePrefix(t) + ".self")
    ensures |r| > 0 && r[|r| - 1] == ')'
  {
    var head := ".view(" + ViewTypePrefix(t) + ".self";
    var r := match index
      case Some(i) => head + ", " + IntToString(i) + ")"
      case None => head + ")";
    assert r[..|head|] == head;
    r
  }

  /** The indexed call string is the plain one with `, i` inserted before the closing parenthesis. */
  lemma InspectionCallIndexed(t: string, i: int)
    ensures var plain := InspectionCall(t, None);
      InspectionCall(t, Some(i)) == plain[..|plain| - 1] + ", " + IntToString(i) + ")"
  {
    var head := ".view(" + ViewTypePrefix(t) + ".self";
    assert InspectionCall(t, None)[..|head|] == head;
  }

  /** The call string tells which index, if any, was used. */
  lemma InspectionCallInjective(t: string, a: Option<int>, b: Option<int>)
    requires InspectionCall(t, a) == InspectionCall(t, b)
    ensures a == b
  {
    var head := ".view(" + ViewTypePrefix(t) + ".self";
    var ra := InspectionCall(t, a);
    if a.Some? && b.Some? {
      var sa := IntToString(a.value);
      var sb := IntToString(b.value);
      assert ra == head + ", " + sa + ")";
      assert ra[|head| + 2..|ra| - 1] == sa;
      assert InspectionCall(t, b)[|head| + 2..|ra| - 1] == sb;
      IntToStringInjective(a.value, b.value);
    }
  }

  /**
   * `View.child(_:)`: the body of an `Inspectable` view, unwrapped with no
   * modifiers; any other view is a type mismatch against `Inspectable`.
   */
  function Child(x: Extractors, c: Content): (r: Result<Content, InspectionError>)
    ensures !IsInspectable(c.view) ==> r == Err(TypeMismatch(TypeName(c.view), "Inspectable"))
    ensures IsInspectable(c.view) ==> r == Unwrap(x, Content(c.view.body.value, []))
  {
    var inspectable :- Cast(c.view, InspectableType);
    Unwrap(x, Content(inspectable.body.value, []))
  }

  /** The parent's modifiers never reach the custom view's child. */
  lemma ChildDropsModifiers(x: Extractors, v: Value, m1: seq<Value>, m2: seq<Value>)
    ensures Child(x, Content(v, m1)) == Child(x, Content(v, m2))
  {
  }

  /**
   * `View.children(_:)`: the children of the body of an `Inspectable` view,
   * with the modifiers of a single child reset.
   */
  function Children(x: Extractors, c: Content): (r: Result<LazyGroup, InspectionError>)
    ensures !IsInspectable(c.view) ==> r == Err(TypeMismatch(TypeName(c.view), "Inspectable"))
    ensures IsInspectable(c.view) ==> r == ViewsInContainer(x, c.view.body.value, true)
  {
    var inspectable :- Cast(c.view, InspectableType);
    ViewsInContainer(x, inspectable.body.value, true)
  }

  /** A body that unwraps to a non-tuple view is the only child, with no modifiers. */
  lemma ChildrenOfSingleBody(x: Extractors, c: Content)
    requires IsInspectable(c.view)
    requires Unwrap(x, Content(c.view.body.value, [])).Ok?
    requires !IsTupleView(x, Unwrap(x, Content(c.view.body.value, [])).value.view)
    ensures Children(x, c) == Ok(LazyGroup([Content(Unwrap(x, Content(c.view.body.value, [])).value.view, [])]))
  {
  }

  /** The result of `guardType` as a thrown error. */
  function Guard(v: Value, prefix: string, call: string): Result<(), InspectionError> {
    match GuardType(v, prefix, call)
    case Pass => Ok(())
    case Fail(e) => Err(e)
  }

  /**
   * `view(_:)` on a single-child parent: the parent's child, provided it is
   * a view of `T`'s kind; a rejection names `.view(P.self)`.
   * The parent kind's `child` is `parentChild`.
   */
  function ViewOfSingleParent(parentChild: Content -> Result<Content, InspectionError>, parent: Content, t: string)
    : (r: Result<Content, InspectionError>)
    ensures parentChild(parent).Err? ==> r == Err(parentChild(parent).error)
    ensures parentChild(parent).Ok? ==>
      var child := parentChild(parent).value;
      && (r.Ok? <==> GuardType(child.view, TypePrefix(t), InspectionCall(t, None)) == Pass)
      && (r.Ok? ==> r.value == child)
      && (r.Err? ==> GuardType(child.view, TypePrefix(t), InspectionCall(t, None)) == Fail(r.error))
  {
    var child :- parentChild(parent);
    var _ :- Guard(child.view, TypePrefix(t), InspectionCall(t, None));
    Ok(child)
  }

  /**
   * `view(_:_:)` on a multi-child parent: the parent's child at `index`,
   * provided it is a view of `T`'s kind; a rejection names `.view(P.self, index)`.
   * The parent kind's `child(at:)` is `childAt`.
   */
  function ViewOfMultipleParent(childAt: (Content, int) -> Result<Content, InspectionError>, parent: Content, t: string, index: int)
    : (r: Result<Content, InspectionError>)
    ensures childAt(parent, index).Err? ==> r == Err(childAt(parent, index).error)
    ensures childAt(parent, index).Ok? ==>
      var child := childAt(parent, index).value;
      && (r.Ok? <==> GuardType(child.view, TypePrefix(t), InspectionCall(t, Some(index))) == Pass)
      && (r.Ok? ==> r.value == child)
      && (r.Err? ==> GuardType(child.view, TypePrefix(t), InspectionCall(t, Some(index))) == Fail(r.error))
  {
    var child :- childAt(parent, index);
    var _ :- Guard(child.view, TypePrefix(t), InspectionCall(t, Some(index)));
    Ok(child)
  }

  /**
   * `view(_:)` as the source writes it: the call string handed to
   * `guardType` is the PARENT kind's `inspectionCall(index: nil)`, given here
   * as `parentCall`, not `.view(P.self)`.
   */
  function ViewOfSingleParentAsWritten(parentChild: Content -> Result<Content, InspectionError>, parentCall: string, parent: Content, t: string)
    : (r: Result<Content, InspectionError>)
    ensures parentChild(parent).Err? ==> r == Err(parentChild(parent).error)
    ensures parentChild(parent).Ok? ==>
      var child := parentChild(parent).value;
      && (r.Ok? <==> GuardType(child.view, TypePrefix(t), parentCall) == Pass)
      && (r.Ok? ==> r.value == child)
      && (r.Err? ==> GuardType(child.view, TypePrefix(t), parentCall) == Fail(r.error))
  {
    var child :- parentChild(parent);
    var _ :- Guard(child.view, TypePrefix(t), parentCall);
    Ok(child)
  }

  /**
   * For a child that is an environment reader carrying navigation bar items,
   * the source's message points at the parent's call string, while the call
   * the test wrote, and that `.navigationBarItems()` must precede, is
   * `.view(P.self)`: whenever the two call strings differ, so do the messages.
   */
  lemma AsWrittenNamesParentCall(parentChild: Content -> Result<Content, InspectionError>, parentCall: string, parent: Content, t: string)
    requires parentChild(parent).Ok?
    requires HidesNavigationBarItems(TypeName(parentChild(parent).value.view))
    requires |TypePrefix(t)| > 0
    requires parentCall != InspectionCall(t, None)
    ensures ViewOfSingleParentAsWritten(parentChild, parentCall, parent, t)
      == Err(NotSupported(NavigationBarItemsMessage(parentCall)))
    ensures ViewOfSingleParent(parentChild, parent, t)
      == Err(NotSupported(NavigationBarItemsMessage(InspectionCall(t, None))))
    ensures ViewOfSingleParentAsWritten(parentChild, parentCall, parent, t) != ViewOfSingleParent(parentChild, parent, t)
  {
    if NavigationBarItemsMessage(parentCall) == NavigationBarItemsMessage(InspectionCall(t, None)) {
      NavigationBarItemsMessageInjective(parentCall, InspectionCall(t, None));
    }
  }

  /**
   * `view(_:_:)` as the source writes it: the call string handed to
   * `guardType` is the PARENT kind's `inspectionCall(index: index)`, given
   * here as `parentCall`, not `.view(P.self, index)`.
   */
  function ViewOfMultipleParentAsWritten(childAt: (Content, int) -> Result<Content, InspectionError>, parentCall: string, parent: Content, t: string, index: int)
    : (r: Result<Content, InspectionError>)
    ensures childAt(parent, index).Err? ==> r == Err(childAt(parent, index).error)
    ensures childAt(parent, index).Ok? ==>
      var child := childAt(parent, index).value;
      && (r.Ok? <==> GuardType(child.view, TypePrefix(t), parentCall) == Pass)
      && (r.Ok? ==> r.value == child)
      && (r.Err? ==> GuardType(child.view, TypePrefix(t), parentCall) == Fail(r.error))
  {
    var child :- childAt(parent, index);
    var _ :- Guard(child.view, TypePrefix(t), parentCall);
    Ok(child)
  }

  /**
   * The same discrepancy for the indexed extraction: the as-written message
   * names the parent's call string, the corrected one `.view(P.self, index)`.
   */
  lemma AsWrittenNamesParentCallIndexed(childAt: (Content, int) -> Result<Content, InspectionError>, parentCall: string, parent: Content, t: string, index: int)
    requires childAt(parent, index).Ok?
    requires HidesNavigationBarItems(TypeName(childAt(parent, index).value.view))
    requires |TypePrefix(t)| > 0
    requires parentCall != InspectionCall(t, Some(index))
    ensures ViewOfMultipleParentAsWritten(childAt, parentCall, parent, t, index)
      == Err(NotSupported(NavigationBarItemsMessage(parentCall)))
    ensures ViewOfMultipleParent(childAt, parent, t, index)
      == Err(NotSupported(NavigationBarItemsMessage(InspectionCall(t, Some(index)))))
    ensures ViewOfMultipleParentAsWritten(childAt, parentCall, parent, t, index) != ViewOfMultipleParent(childAt, parent, t, index)
  {
    if NavigationBarItemsMessage(parentCall) == NavigationBarItemsMessage(InspectionCall(t, Some(index))) {
      NavigationBarItemsMessageInjective(parentCall, InspectionCall(t, Some(index)));
    }
  }

  /** Different call strings give different navigation-bar messages. */
  lemma NavigationBarItemsMessageInjective(a: string, b: string)
    requires NavigationBarItemsMessage(a) == NavigationBarItemsMessage(b)
    ensures a == b
  {
    var head := "Please insert '.navigationBarItems()' before ";
    var tail := " for unwrapping the underlying view hierarchy.";
    var ma := NavigationBarItemsMessage(a);
    assert ma == head + a + tail;
    assert ma[|head|..|ma| - |tail|] == a;
    assert NavigationBarItemsMessage(b)[|head|..|ma| - |tail|] == b;
  }

  /** `actualView()`: the view cast to `T`. */
  function ActualView(c: Content, t: string): (r: Result<Value, InspectionError>)
    ensures r.Ok? <==> TypeName(c.view) == t
    ensures r.Ok? ==> r.value == c.view
    ensures r.Err? ==> r.error == TypeMismatch(TypeName(c.view), t)
  {
    Cast(c.view, Exactly(t))
  }

  /** `viewBuilder()`: the receiver itself. */
  function ViewBuilder(c: Content): (r: Content)
    ensures r == c
  {
    c
  }
}
