/** The `ButtonGroup` view: it renders one element per registry entry, and a
    click on a `[data-button]` element runs the handler, shows a loading
    element and disables the buttons while the handler's result is a pending
    thenable, and settles by removing the loading elements, re-enabling and
    emitting `buttonClick`.

    The container's children are a sequence of `Child` values; the pure
    functions below say what each step does to that sequence, and the methods
    of `ButtonGroup` update the sequence in place. */
module ButtonGroupView {
  import opened JsValues
  import opened ClassList
  import opened Registry

  /** The prototype defaults of `disabledClass` and `loadingClass`. */
  const DefaultDisabledClass: string := "disabled dibs-disable"
  const DefaultLoadingClass: string := "icon icon-xlarge fa fa-spinner fa-spin"

  /** The class that marks a button disabled by this view. */
  const Marker: string := "disabled-by-btnView"

  /** What the injected template yields for a descriptor: the markup of the
      root element, its attributes, and the classes of the `button` inside it. */
  datatype Rendered = Rendered(markup: string, attributes: map<string, Value>, buttonClasses: Classes)

  type Template = Descriptor -> Rendered

  /** A child of the container: a rendered button (its root element, whose
      `button` carries `data-button = key` and the classes in `buttonClasses`)
      or a `[data-loading]` element. */
  datatype Child =
    | Item(key: string, markup: string, attributes: map<string, Value>, buttonClasses: Classes)
    | Loading(classes: Classes)

  /** The options the view is constructed with. `None` stands for an absent
      (`undefined`) class option. */
  datatype Options = Options(
    buttons: seq<(string, Value)>,
    disabledClass: Option<string>,
    loadingClass: Option<string>,
    prependLoading: Value,
    btnTmpl: Option<Template>)

  /** The `this` a handler is invoked with. */
  datatype Context = TheView | Bound(value: Value)

  /** One invocation of a handler, with its context and its event. */
  datatype Invocation = Invocation(handler: Value, context: Context, event: ClickEvent)

  /** One emitted `buttonClick` event. */
  datatype ButtonClick = ButtonClick(descriptor: Descriptor, state: Value)

  /** How a click ends synchronously. `Awaiting` carries what settlement
      needs once the thenable finishes. */
  datatype ClickOutcome =
    | Ignored
    | HandlerNotCallable
    | Settled
    | Awaiting(descriptor: Descriptor, result: Value)

  /** `o || fallback` for a class option. */
  predicate Given(o: Option<string>)
  {
    o.Some? && o.value != ""
  }

  // ---------------------------------------------------------------------
  // Rendering

  /** The element `render` appends for one registry entry: the template's
      root element with the descriptor's `attributes` object copied onto it. */
  function RenderItem(e: Entry, tmpl: Template): (c: Child)
    ensures c.Item? && c.key == e.key
    ensures c.markup == tmpl(e.descriptor).markup
    ensures c.buttonClasses == tmpl(e.descriptor).buttonClasses
    ensures Prop(e.descriptor, "attributes").Obj? ==>
      var given, own := Prop(e.descriptor, "attributes").props, tmpl(e.descriptor).attributes;
      && c.attributes.Keys == own.Keys + given.Keys
      && (forall a :: a in given ==> c.attributes[a] == given[a])
      && (forall a :: a in own && a !in given ==> c.attributes[a] == own[a])
    ensures !Prop(e.descriptor, "attributes").Obj? ==> c.attributes == tmpl(e.descriptor).attributes
  {
    var r := tmpl(e.descriptor);
    var attrs := Prop(e.descriptor, "attributes");
    Item(e.key, r.markup, if attrs.Obj? then r.attributes + attrs.props else r.attributes, r.buttonClasses)
  }

  /** The children `render` appends, one per registry entry. */
  function RenderAll(reg: seq<Entry>, tmpl: Template): (r: seq<Child>)
    ensures |r| == |reg|
    ensures forall i :: 0 <= i < |reg| ==>
      && r[i].Item? && r[i].key == reg[i].key
      && r[i].markup == tmpl(reg[i].descriptor).markup
      && r[i].buttonClasses == tmpl(reg[i].descriptor).buttonClasses
  {
    seq(|reg|, i requires 0 <= i < |reg| => RenderItem(reg[i], tmpl))
  }

  /** Every `data-button` key present in `cs` names a registry entry. */
  ghost predicate KeysRegistered(cs: seq<Child>, reg: seq<Entry>)
  {
    forall i :: 0 <= i < |cs| && cs[i].Item? ==> HasKey(reg, cs[i].key)
  }

  /** The rendered children are exactly one button per registry entry, in
      registry order, each tagged with its entry's key; nothing else. */
  lemma RenderAllShape(reg: seq<Entry>, tmpl: Template)
    ensures |RenderAll(reg, tmpl)| == |reg|
    ensures forall i :: 0 <= i < |reg| ==>
      RenderAll(reg, tmpl)[i].Item? && RenderAll(reg, tmpl)[i].key == reg[i].key
    ensures LoadingCount(RenderAll(reg, tmpl)) == 0
    ensures KeysRegistered(RenderAll(reg, tmpl), reg)
  {
    var r := RenderAll(reg, tmpl);
    NoLoadingCount(r);
    forall i | 0 <= i < |r| && r[i].Item? ensures HasKey(reg, r[i].key) {
      assert reg[i].key == r[i].key;
    }
  }

  /** Rendering the registry built from `raw` tags one button with each key
      whose declared value is truthy, and no other key, and no key twice. */
  lemma RenderedKeys(raw: seq<(string, Value)>, tmpl: Template, k: string)
    requires DistinctRaw(raw)
    ensures (exists i :: 0 <= i < |RenderAll(Build(raw), tmpl)| && RenderAll(Build(raw), tmpl)[i].key == k)
        <==> (RawLookup(raw, k).Some? && Truthy(RawLookup(raw, k).value))
    ensures forall i, j :: 0 <= i < j < |RenderAll(Build(raw), tmpl)| ==>
      RenderAll(Build(raw), tmpl)[i].key != RenderAll(Build(raw), tmpl)[j].key
  {
    var reg := Build(raw);
    var r := RenderAll(reg, tmpl);
    RenderAllShape(reg, tmpl);
    BuildLookup(raw, k);
    BuildDistinct(raw);
    if exists i :: 0 <= i < |r| && r[i].key == k {
      var i :| 0 <= i < |r| && r[i].key == k;
      assert reg[i].key == k;
    }
  }

  // ---------------------------------------------------------------------
  // Loading elements

  /** The number of `[data-loading]` children. */
  function LoadingCount(cs: seq<Child>): nat
  {
    if cs == [] then 0
    else LoadingCount(cs[..|cs| - 1]) + (if cs[|cs| - 1].Loading? then 1 else 0)
  }

  /** The loading element `clickBtn` creates. */
  function LoadingElement(loadingClass: string): (l: Child)
    ensures l.Loading?
    ensures forall w :: w in l.classes ==> IsToken(w)
  {
    Loading(Tokens(loadingClass))
  }

  /** `$el.prepend(loading)` or `$el.append(loading)`. */
  function InsertLoading(cs: seq<Child>, l: Child, prepend: bool): (r: seq<Child>)
    ensures |r| == |cs| + 1
    ensures forall i :: 0 <= i < |cs| ==> r[if prepend then i + 1 else i] == cs[i]
    ensures prepend ==> r[0] == l
    ensures !prepend ==> r[|cs|] == l
  {
    if prepend then [l] + cs else cs + [l]
  }

  /** The children left by `this.$('[data-loading]').remove()`. */
  function WithoutLoading(cs: seq<Child>): (r: seq<Child>)
    ensures |r| <= |cs|
    ensures forall i :: 0 <= i < |r| ==> r[i].Item?
  {
    if cs == [] then []
    else WithoutLoading(cs[..|cs| - 1]) + (if cs[|cs| - 1].Loading? then [] else [cs[|cs| - 1]])
  }

  /** The loading element carries exactly the class names written in
      `loadingClass`, whatever they are. */
  lemma LoadingElementNames(ws: seq<string>)
    requires forall i :: 0 <= i < |ws| ==> IsToken(ws[i])
    ensures LoadingElement(Join(ws)).classes == set w | w in ws
  {
    TokensOfJoin(ws);
  }

  const DefaultLoadingNames: seq<string> := ["icon", "icon-xlarge", "fa", "fa-spinner", "fa-spin"]

  lemma DefaultLoadingJoin()
    ensures Join(DefaultLoadingNames) == DefaultLoadingClass
  {
  }

  /** The default `loadingClass` names these five classes, spinner included. */
  lemma DefaultLoadingClasses()
    ensures forall w :: (w in LoadingElement(DefaultLoadingClass).classes <==> w in DefaultLoadingNames)
    ensures "fa-spinner" in LoadingElement(DefaultLoadingClass).classes
  {
    var ws := DefaultLoadingNames;
    DefaultLoadingJoin();
    assert forall i :: 0 <= i < |ws| ==> IsToken(ws[i]);
    LoadingElementNames(ws);
    assert ws[3] == "fa-spinner";
  }

  lemma {:induction false} LoadingCountAppend(a: seq<Child>, b: seq<Child>)
    ensures LoadingCount(a + b) == LoadingCount(a) + LoadingCount(b)
    decreases |b|
  {
    if b != [] {
      assert (a + b)[..|a + b| - 1] == a + b[..|b| - 1];
      assert (a + b)[|a + b| - 1] == b[|b| - 1];
      LoadingCountAppend(a, b[..|b| - 1]);
    } else {
      assert a + b == a;
    }
  }

  lemma {:induction false} NoLoadingCount(cs: seq<Child>)
    requires forall i :: 0 <= i < |cs| ==> !cs[i].Loading?
    ensures LoadingCount(cs) == 0
  {
    if cs != [] {
      NoLoadingCount(cs[..|cs| - 1]);
    }
  }

  lemma {:induction false} WithoutLoadingAppend(a: seq<Child>, b: seq<Child>)
    ensures WithoutLoading(a + b) == WithoutLoading(a) + WithoutLoading(b)
    decreases |b|
  {
    if b != [] {
      assert (a + b)[..|a + b| - 1] == a + b[..|b| - 1];
      assert (a + b)[|a + b| - 1] == b[|b| - 1];
      WithoutLoadingAppend(a, b[..|b| - 1]);
    } else {
      assert a + b == a;
    }
  }

  /** A click whose handler returns a thenable inserts exactly one loading
      element, first when prepending and last otherwise, and settlement
      removes it again. */
  lemma InsertLoadingEffect(cs: seq<Child>, loadingClass: string, prepend: bool)
    ensures var r := InsertLoading(cs, LoadingElement(loadingClass), prepend);
      && |r| == |cs| + 1
      && LoadingCount(r) == LoadingCount(cs) + 1
      && (prepend ==> r[0] == LoadingElement(loadingClass) && r[1..] == cs)
      && (!prepend ==> r[|cs|] == LoadingElement(loadingClass) && r[..|cs|] == cs)
      && WithoutLoading(r) == WithoutLoading(cs)
  {
    var l := LoadingElement(loadingClass);
    LoadingCountAppend([l], cs);
    LoadingCountAppend(cs, [l]);
    WithoutLoadingAppend([l], cs);
    WithoutLoadingAppend(cs, [l]);
    assert [l][..0] == [];
  }

  /** After the removal no loading element is left, every other child is kept
      in order, and nothing else is added. */
  lemma {:induction false} WithoutLoadingEffect(cs: seq<Child>)
    ensures forall i :: 0 <= i < |WithoutLoading(cs)| ==> WithoutLoading(cs)[i].Item?
    ensures forall c :: c in WithoutLoading(cs) <==> c in cs && c.Item?
    ensures |WithoutLoading(cs)| == |cs| - LoadingCount(cs)
  {
    if cs != [] {
      var init := cs[..|cs| - 1];
      WithoutLoadingEffect(init);
      assert cs == init + [cs[|cs| - 1]];
    }
  }

  /** Each button keeps its place relative to the other buttons: the button
      at position `i` moves to position `i` minus the number of loading
      elements before it. */
  lemma {:induction false} WithoutLoadingKeepsOrder(cs: seq<Child>)
    ensures forall i :: 0 <= i < |cs| && cs[i].Item? ==>
      && LoadingCount(cs[..i]) <= i
      && i - LoadingCount(cs[..i]) < |WithoutLoading(cs)|
      && WithoutLoading(cs)[i - LoadingCount(cs[..i])] == cs[i]
  {
    forall i | 0 <= i < |cs| && cs[i].Item?
      ensures LoadingCount(cs[..i]) <= i
      ensures i - LoadingCount(cs[..i]) < |WithoutLoading(cs)|
      ensures WithoutLoading(cs)[i - LoadingCount(cs[..i])] == cs[i]
    {
      WithoutLoadingPosition(cs, i);
    }
  }

  /** Where the button at position `i` ends up after the removal. */
  lemma {:induction false} WithoutLoadingPosition(cs: seq<Child>, i: nat)
    requires i < |cs| && cs[i].Item?
    ensures LoadingCount(cs[..i]) <= i
    ensures i - LoadingCount(cs[..i]) < |WithoutLoading(cs)|
    ensures WithoutLoading(cs)[i - LoadingCount(cs[..i])] == cs[i]
  {
    var n := |cs|;
    var init := cs[..n - 1];
    if i < n - 1 {
      WithoutLoadingPosition(init, i);
      assert cs[..i] == init[..i];
    } else {
      assert cs[..i] == init;
      WithoutLoadingEffect(init);
    }
  }

  /** Removing the loading elements changes nothing when there are none. */
  lemma {:induction false} WithoutLoadingNoOp(cs: seq<Child>)
    requires forall i :: 0 <= i < |cs| ==> cs[i].Item?
    ensures WithoutLoading(cs) == cs
  {
    if cs != [] {
      WithoutLoadingNoOp(cs[..|cs| - 1]);
      assert cs == cs[..|cs| - 1] + [cs[|cs| - 1]];
    }
  }

  /** A second `removeLoadingEl` is a no-op. */
  lemma WithoutLoadingIdempotent(cs: seq<Child>)
    ensures WithoutLoading(WithoutLoading(cs)) == WithoutLoading(cs)
  {
    WithoutLoadingEffect(cs);
    WithoutLoadingNoOp(WithoutLoading(cs));
  }

  // ---------------------------------------------------------------------
  // Disabling and re-enabling

  /** The guard `hasClass(btn, 'disabled') || hasClass(btn, disabledClass)`. */
  predicate IsDisabled(classes: Classes, disabledClass: string, multi: MultiTokenMatcher)
    ensures IsDisabled(classes, disabledClass, multi) <==> "disabled" in classes || HasClass(classes, disabledClass, multi)
    ensures IsToken(disabledClass) ==>
      (IsDisabled(classes, disabledClass, multi) <==> "disabled" in classes || disabledClass in classes)
  {
    assert IsToken("disabled");
    HasClass(classes, "disabled", multi) || HasClass(classes, disabledClass, multi)
  }

  /** What `disableButtons` does to one child. */
  function DisableOne(c: Child, disabledClass: string, multi: MultiTokenMatcher): (r: Child)
    ensures r.Item? == c.Item?
    ensures !c.Item? ==> r == c
    ensures c.Item? ==> r.key == c.key && r.markup == c.markup && r.attributes == c.attributes
    ensures c.Item? ==> c.buttonClasses <= r.buttonClasses
  {
    if c.Item? && !IsDisabled(c.buttonClasses, disabledClass, multi)
    then c.(buttonClasses := AddClass(c.buttonClasses, "disabled disabled-by-btnView " + disabledClass))
    else c
  }

  /** The children after `disableButtons`. */
  function DisableAll(cs: seq<Child>, disabledClass: string, multi: MultiTokenMatcher): (r: seq<Child>)
    ensures |r| == |cs|
    ensures forall i :: 0 <= i < |cs| ==> r[i].Item? == cs[i].Item?
    ensures forall i :: 0 <= i < |cs| && !cs[i].Item? ==> r[i] == cs[i]
    ensures forall i :: 0 <= i < |cs| && cs[i].Item? ==>
      r[i].key == cs[i].key && cs[i].buttonClasses <= r[i].buttonClasses
  {
    seq(|cs|, i requires 0 <= i < |cs| => DisableOne(cs[i], disabledClass, multi))
  }

  /** What `disableButtons` does to one child: a button not already disabled
      gains `disabled`, the marker and the classes of `disabledClass`; an
      already disabled button and a loading element stay as they were; the
      result counts as disabled when it is a button. */
  lemma DisableOneEffect(c: Child, disabledClass: string, multi: MultiTokenMatcher)
    ensures var r := DisableOne(c, disabledClass, multi);
      && (c.Item? && !IsDisabled(c.buttonClasses, disabledClass, multi) ==>
            r == c.(buttonClasses := c.buttonClasses + {"disabled", Marker} + Tokens(disabledClass)))
      && (!c.Item? || IsDisabled(c.buttonClasses, disabledClass, multi) ==> r == c)
      && (r.Item? ==> IsDisabled(r.buttonClasses, disabledClass, multi))
  {
    DisableNames(disabledClass);
    assert IsToken("disabled");
  }

  /** `disableButtons` treats every child as `DisableOne` says, and afterwards
      every button counts as disabled. */
  lemma DisableAllEffect(cs: seq<Child>, disabledClass: string, multi: MultiTokenMatcher)
    ensures |DisableAll(cs, disabledClass, multi)| == |cs|
    ensures forall i :: 0 <= i < |cs| ==>
      var c, r := cs[i], DisableAll(cs, disabledClass, multi)[i];
      && (c.Item? && !IsDisabled(c.buttonClasses, disabledClass, multi) ==>
            r == c.(buttonClasses := c.buttonClasses + {"disabled", Marker} + Tokens(disabledClass)))
      && (!c.Item? || IsDisabled(c.buttonClasses, disabledClass, multi) ==> r == c)
      && (r.Item? ==> IsDisabled(r.buttonClasses, disabledClass, multi))
  {
    forall i | 0 <= i < |cs| {
      DisableOneEffect(cs[i], disabledClass, multi);
    }
  }

  /** The position of the first `[data-button]` element, `|cs|` when there is
      none: `this.$('[data-button]').get(0)`. */
  function FirstItem(cs: seq<Child>): (i: nat)
    ensures i <= |cs|
    ensures forall j :: 0 <= j < i ==> !cs[j].Item?
    ensures i < |cs| ==> cs[i].Item?
  {
    if cs == [] || cs[0].Item? then 0 else 1 + FirstItem(cs[1..])
  }

  /** The children after `reEnableButtons`: `disabled` and the classes of
      `disabledClass` come off the first button only. With no button at all
      nothing changes. */
  function ReEnableFirst(cs: seq<Child>, disabledClass: string): (r: seq<Child>)
    ensures |r| == |cs|
    ensures forall i :: 0 <= i < |cs| ==> r[i].Item? == cs[i].Item?
    ensures forall i :: 0 <= i < |cs| && cs[i].Item? ==>
      r[i].key == cs[i].key && r[i].buttonClasses <= cs[i].buttonClasses
  {
    var i := FirstItem(cs);
    if i == |cs| then cs
    else cs[i := cs[i].(buttonClasses := RemoveClass(cs[i].buttonClasses, "disabled " + disabledClass))]
  }

  /** Two sequences whose children are of the same kinds position by
      position have their first button at the same position. */
  lemma FirstItemSameKinds(a: seq<Child>, b: seq<Child>)
    requires |a| == |b|
    requires forall i :: 0 <= i < |a| ==> a[i].Item? == b[i].Item?
    ensures FirstItem(a) == FirstItem(b)
  {
  }

  /** `reEnableButtons` takes `disabled` and the classes of `disabledClass`
      off the first button, keeps the marker unless `disabledClass` names it,
      and leaves every other child unchanged. */
  lemma ReEnableFirstEffect(cs: seq<Child>, disabledClass: string)
    ensures |ReEnableFirst(cs, disabledClass)| == |cs|
    ensures forall i :: 0 <= i < |cs| && i != FirstItem(cs) ==> ReEnableFirst(cs, disabledClass)[i] == cs[i]
    ensures FirstItem(cs) < |cs| ==>
      ReEnableFirst(cs, disabledClass)[FirstItem(cs)]
        == cs[FirstItem(cs)].(buttonClasses := cs[FirstItem(cs)].buttonClasses - ({"disabled"} + Tokens(disabledClass)))
    ensures Marker !in Tokens(disabledClass) ==>
      forall i :: 0 <= i < |cs| && cs[i].Item? ==>
        (Marker in ReEnableFirst(cs, disabledClass)[i].buttonClasses <==> Marker in cs[i].buttonClasses)
  {
    ReEnableNames(disabledClass);
  }

  /** After `reEnableButtons` the first button no longer has the class
      `disabled`, whatever `disabledClass` is. */
  lemma ReEnableFirstClearsDisabled(cs: seq<Child>, disabledClass: string, multi: MultiTokenMatcher)
    requires FirstItem(cs) < |cs|
    ensures !HasClass(ReEnableFirst(cs, disabledClass)[FirstItem(cs)].buttonClasses, "disabled", multi)
  {
    ReEnableNames(disabledClass);
    assert IsToken("disabled");
  }

  /** After `reEnableButtons` the first button no longer counts as disabled when
      `disabledClass` is a single class name. */
  lemma ReEnableFirstEnables(cs: seq<Child>, disabledClass: string, multi: MultiTokenMatcher)
    requires FirstItem(cs) < |cs| && IsToken(disabledClass)
    ensures !IsDisabled(ReEnableFirst(cs, disabledClass)[FirstItem(cs)].buttonClasses, disabledClass, multi)
  {
    ReEnableFirstClearsDisabled(cs, disabledClass, multi);
    ReEnableNames(disabledClass);
    TokensOfToken(disabledClass);
  }

  /** A second `reEnableButtons` is a no-op. */
  lemma ReEnableFirstIdempotent(cs: seq<Child>, disabledClass: string)
    ensures ReEnableFirst(ReEnableFirst(cs, disabledClass), disabledClass) == ReEnableFirst(cs, disabledClass)
  {
    var r := ReEnableFirst(cs, disabledClass);
    FirstItemSameKinds(cs, r);
    var i := FirstItem(cs);
    if i < |cs| {
      var names := "disabled " + disabledClass;
      assert r[i].buttonClasses == cs[i].buttonClasses - Tokens(names);
      assert RemoveClass(r[i].buttonClasses, names) == r[i].buttonClasses;
      assert r[i := r[i].(buttonClasses := RemoveClass(r[i].buttonClasses, names))] == r;
    }
  }

  /** The children settlement leaves: loading removed, first button
      re-enabled. */
  function SettleChildren(cs: seq<Child>, disabledClass: string): (r: seq<Child>)
    ensures |r| == |cs| - LoadingCount(cs)
    ensures forall i :: 0 <= i < |r| ==> r[i].Item?
  {
    WithoutLoadingEffect(cs);
    ReEnableFirst(WithoutLoading(cs), disabledClass)
  }

  /** Settling again, with nothing pending, changes nothing. */
  lemma SettleIdempotent(cs: seq<Child>, disabledClass: string)
    ensures SettleChildren(SettleChildren(cs, disabledClass), disabledClass) == SettleChildren(cs, disabledClass)
  {
    var w := WithoutLoading(cs);
    WithoutLoadingEffect(cs);
    var r := ReEnableFirst(w, disabledClass);
    FirstItemSameKinds(w, r);
    WithoutLoadingNoOp(r);
    ReEnableFirstIdempotent(w, disabledClass);
  }

  /** After a thenable click on children that are all buttons, settlement
      removes the loading element the click inserted, so the buttons are those
      `disableButtons` left, with the first one re-enabled. */
  lemma ThenableClickSettles(cs: seq<Child>, disabledClass: string, loadingClass: string, prepend: bool, multi: MultiTokenMatcher)
    requires forall i :: 0 <= i < |cs| ==> cs[i].Item?
    ensures SettleChildren(DisableAll(InsertLoading(cs, LoadingElement(loadingClass), prepend), disabledClass, multi), disabledClass)
         == ReEnableFirst(DisableAll(cs, disabledClass, multi), disabledClass)
  {
    var l := LoadingElement(loadingClass);
    var d := DisableAll(cs, disabledClass, multi);
    var x, y := DisableAll(InsertLoading(cs, l, prepend), disabledClass, multi), InsertLoading(d, l, prepend);
    forall i | 0 <= i < |x| ensures x[i] == y[i] {
      if (prepend && i > 0) || (!prepend && i < |cs|) {
        var j := if prepend then i - 1 else i;
        assert InsertLoading(cs, l, prepend)[i] == cs[j];
      }
    }
    assert x == y;
    InsertLoadingEffect(d, loadingClass, prepend);
    WithoutLoadingNoOp(d);
  }

  /** With a single button, a thenable click followed by settlement leaves one
      button that no longer has the class `disabled` but keeps the marker. */
  lemma SingleButtonRoundTrip(c: Child, disabledClass: string, loadingClass: string, prepend: bool, multi: MultiTokenMatcher)
    requires c.Item? && !IsDisabled(c.buttonClasses, disabledClass, multi)
    ensures var r := SettleChildren(DisableAll(InsertLoading([c], LoadingElement(loadingClass), prepend), disabledClass, multi), disabledClass);
      && |r| == 1 && r[0].key == c.key
      && "disabled" !in r[0].buttonClasses
      && (Marker !in Tokens(disabledClass) ==> Marker in r[0].buttonClasses)
  {
    ThenableClickSettles([c], disabledClass, loadingClass, prepend, multi);
    var d := DisableAll([c], disabledClass, multi);
    DisableAllEffect([c], disabledClass, multi);
    ReEnableFirstEffect(d, disabledClass);
    ReEnableFirstClearsDisabled(d, disabledClass, multi);
  }

  /** Only the first button is re-enabled: when a thenable click disabled two
      enabled buttons, settlement leaves the second one disabled and marked, so
      a click on it is ignored until something else clears its classes. */
  lemma SecondButtonStaysDisabled(a: Child, b: Child, disabledClass: string, loadingClass: string, prepend: bool, multi: MultiTokenMatcher)
    requires a.Item? && b.Item?
    requires !IsDisabled(a.buttonClasses, disabledClass, multi) && !IsDisabled(b.buttonClasses, disabledClass, multi)
    ensures var r := SettleChildren(DisableAll(InsertLoading([a, b], LoadingElement(loadingClass), prepend), disabledClass, multi), disabledClass);
      && |r| == 2 && r[1].Item? && r[1].key == b.key
      && IsDisabled(r[1].buttonClasses, disabledClass, multi) && Marker in r[1].buttonClasses
  {
    ThenableClickSettles([a, b], disabledClass, loadingClass, prepend, multi);
    var d := DisableAll([a, b], disabledClass, multi);
    DisableAllEffect([a, b], disabledClass, multi);
    assert FirstItem(d) == 0;
  }

  /** The handler's `this`: `descriptor.context || this.defaultContext || this`. */
  function ResolveContext(d: Descriptor, defaultContext: Value): (c: Context)
    ensures c.Bound? ==> Truthy(c.value)
    ensures Truthy(Prop(d, "context")) ==> c == Bound(Prop(d, "context"))
    ensures !Truthy(Prop(d, "context")) && Truthy(defaultContext) ==> c == Bound(defaultContext)
    ensures c == TheView <==> !Truthy(Prop(d, "context")) && !Truthy(defaultContext)
  {
    var own := Prop(d, "context");
    if Truthy(own) then Bound(own) else if Truthy(defaultContext) then Bound(defaultContext) else TheView
  }

  // ---------------------------------------------------------------------
  // The view

  /** The click event handed to `clickBtn`: its `currentTarget` is the
      position of the clicked button among the container's children. */
  class ClickEvent {
    const currentTarget: nat
    var defaultPrevented: bool

    constructor (target: nat)
      ensures currentTarget == target && !defaultPrevented
    {
      currentTarget := target;
      defaultPrevented := false;
    }

    method PreventDefault()
      modifies this
      ensures defaultPrevented
    {
      defaultPrevented := true;
    }
  }

  class ButtonGroup {
    /** `this.options`, which a caller may replace between renders. */
    var options: Options
    /** `this.btnTpl`. */
    const btnTpl: Template
    /** `this._buttons`, built once by `initialize`. */
    const buttons: seq<Entry>
    /** How the class library answers `hasClass` for a multi-token name. */
    const multi: MultiTokenMatcher
    var disabledClass: string
    var loadingClass: string
    var prependLoading: Value
    /** `this.defaultContext`, set by a caller or subclass if at all. */
    var defaultContext: Value
    /** The children of `$el`. */
    var children: seq<Child>
    /** Every handler invocation so far. */
    ghost var invocations: seq<Invocation>
    /** Every `buttonClick` event emitted so far. */
    ghost var emitted: seq<ButtonClick>

    ghost predicate Valid()
      reads this
    {
      DistinctKeys(buttons) && KeysRegistered(children, buttons)
    }

    /** `initialize(options)`; `defaultTemplate` stands for the module's own
        `button-view-template`. */
    constructor (opts: Options, defaultTemplate: Template, multiMatch: MultiTokenMatcher)
      requires DistinctRaw(opts.buttons)
      ensures Valid()
      ensures options == opts && buttons == Build(opts.buttons) && multi == multiMatch
      ensures btnTpl == (if opts.btnTmpl.Some? then opts.btnTmpl.value else defaultTemplate)
      ensures disabledClass == DefaultDisabledClass && loadingClass == DefaultLoadingClass
      ensures prependLoading == Undefined && defaultContext == Undefined
      ensures children == [] && invocations == [] && emitted == []
    {
      options := opts;
      var tpl: Template := if opts.btnTmpl.Some? then opts.btnTmpl.value else defaultTemplate;
      btnTpl := tpl;
      buttons := Build(opts.buttons);
      multi := multiMatch;
      disabledClass := DefaultDisabledClass;
      loadingClass := DefaultLoadingClass;
      prependLoading := Undefined;
      defaultContext := Undefined;
      children := [];
      invocations := [];
      emitted := [];
      BuildDistinct(opts.buttons);
    }

    /** `render()`: re-resolve the three options, then replace the children
        by one rendered element per registry entry. Returns the view. */
    method Render() returns (self: ButtonGroup)
      requires Valid()
      modifies this`disabledClass, this`loadingClass, this`prependLoading, this`children
      ensures Valid() && self == this
      ensures disabledClass == if Given(options.disabledClass) then options.disabledClass.value else old(disabledClass)
      ensures loadingClass == if Given(options.loadingClass) then options.loadingClass.value else old(loadingClass)
      ensures prependLoading == if options.prependLoading != Undefined then options.prependLoading else old(prependLoading)
      ensures children == RenderAll(buttons, btnTpl)
    {
      var dc := if Given(options.disabledClass) then options.disabledClass.value else disabledClass;
      var lc := if Given(options.loadingClass) then options.loadingClass.value else loadingClass;
      var pl := if options.prependLoading != Undefined then options.prependLoading else prependLoading;
      disabledClass, loadingClass, prependLoading := dc, lc, pl;
      children := [];
      var i := 0;
      while i < |buttons|
        invariant 0 <= i <= |buttons|
        invariant disabledClass == dc && loadingClass == lc && prependLoading == pl
        invariant |children| == i
        invariant forall j :: 0 <= j < i ==> children[j] == RenderItem(buttons[j], btnTpl)
      {
        children := children + [RenderItem(buttons[i], btnTpl)];
        i := i + 1;
      }
      RenderAllShape(buttons, btnTpl);
      self := this;
    }

    /** `removeLoadingEl()`. */
    method RemoveLoadingEl()
      requires Valid()
      modifies this`children
      ensures Valid()
      ensures children == WithoutLoading(old(children))
    {
      var kept: seq<Child> := [];
      var i := 0;
      while i < |children|
        invariant 0 <= i <= |children|
        invariant kept == WithoutLoading(children[..i])
      {
        assert children[..i + 1][..i] == children[..i];
        if !children[i].Loading? {
          kept := kept + [children[i]];
        }
        i := i + 1;
      }
      assert children[..i] == children;
      WithoutLoadingEffect(children);
      children := kept;
    }

    /** `reEnableButtons()`. */
    method ReEnableButtons()
      requires Valid()
      modifies this`children
      ensures Valid()
      ensures children == ReEnableFirst(old(children), disabledClass)
    {
      var i := FirstItem(children);
      if i < |children| {
        children := children[i := children[i].(buttonClasses := RemoveClass(children[i].buttonClasses, "disabled " + disabledClass))];
      }
    }

    /** `disableButtons()`. */
    method DisableButtons()
      requires Valid()
      modifies this`children
      ensures Valid()
      ensures children == DisableAll(old(children), disabledClass, multi)
    {
      ghost var start := children;
      var i := 0;
      while i < |children|
        invariant 0 <= i <= |children| && |children| == |start|
        invariant forall j :: 0 <= j < i ==> children[j] == DisableOne(start[j], disabledClass, multi)
        invariant forall j :: i <= j < |children| ==> children[j] == start[j]
      {
        children := children[i := DisableOne(children[i], disabledClass, multi)];
        i := i + 1;
      }
    }

    /** The `always` callback of a click: remove the loading elements,
        re-enable, emit `buttonClick` with the descriptor and
        `_.result(prom, 'state')`; `stateReturn` is what `prom.state()`
        returns when `state` is a method. */
    method Settle(descriptor: Descriptor, prom: Value, stateReturn: Value)
      requires Valid()
      modifies this`children, this`emitted
      ensures Valid()
      ensures children == SettleChildren(old(children), disabledClass)
      ensures emitted == old(emitted) + [ButtonClick(descriptor, ResultState(prom, stateReturn))]
    {
      RemoveLoadingEl();
      ReEnableButtons();
      emitted := emitted + [ButtonClick(descriptor, ResultState(prom, stateReturn))];
    }

    /** `clickBtn(e)`. The handler lies outside the model: `handlerReturn` is
        what it returns when invoked, and `stateReturn` what the result's
        `state` method returns if settlement happens at once. */
    method Click(e: ClickEvent, handlerReturn: Value, stateReturn: Value) returns (outcome: ClickOutcome)
      requires Valid()
      requires e.currentTarget < |children| && children[e.currentTarget].Item?
      modifies this`children, this`invocations, this`emitted, e
      ensures Valid()
      ensures e.defaultPrevented
      ensures
        var btn := old(children)[e.currentTarget];
        var d := Lookup(buttons, btn.key).value;
        var h := Prop(d, "handler");
        var prom := if h.Func? then handlerReturn else Undefined;
        if IsDisabled(btn.buttonClasses, disabledClass, multi) then
          && outcome == Ignored
          && children == old(children) && invocations == old(invocations) && emitted == old(emitted)
        else if Truthy(h) && !h.Func? then
          && outcome == HandlerNotCallable
          && children == old(children) && invocations == old(invocations) && emitted == old(emitted)
        else
          && invocations == old(invocations) + (if h.Func? then [Invocation(h, ResolveContext(d, defaultContext), e)] else [])
          && (IsThenable(prom) ==>
                && outcome == Awaiting(d, prom)
                && children == DisableAll(InsertLoading(old(children), LoadingElement(loadingClass), Truthy(prependLoading)), disabledClass, multi)
                && emitted == old(emitted))
          && (!IsThenable(prom) ==>
                && outcome == Settled
                && children == SettleChildren(old(children), disabledClass)
                && emitted == old(emitted) + [ButtonClick(d, ResultState(prom, stateReturn))])
    {
      var btn := children[e.currentTarget];
      var d := Lookup(buttons, btn.key).value;
      var context := ResolveContext(d, defaultContext);
      var prepend := Truthy(prependLoading);
      e.PreventDefault();

      if IsDisabled(btn.buttonClasses, disabledClass, multi) {
        return Ignored;
      }
      var h := Prop(d, "handler");
      var prom := Undefined;
      if Truthy(h) {
        if !h.Func? {
          return HandlerNotCallable;
        }
        prom := handlerReturn;
        invocations := invocations + [Invocation(h, context, e)];
      }
      if IsThenable(prom) {
        children := InsertLoading(children, LoadingElement(loadingClass), prepend);
        DisableButtons();
        outcome := Awaiting(d, prom);
      } else {
        Settle(d, prom, stateReturn);
        outcome := Settled;
      }
    }
  }
}
