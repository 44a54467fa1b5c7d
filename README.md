# ButtonGroup — a verified model in Dafny

This project models the `ButtonGroup` view of the `dibs-button-group` package
(`view.es.js`). The view renders a group of buttons from a caller-supplied
button map. A click runs the button's handler. When the handler returns a
thenable, the view shows a loading element and disables the buttons until the
result settles. Settlement removes the loading elements, re-enables, and emits
`buttonClick`.

The model has four modules:

- `JsValues` (`js_values.dfy`): the JavaScript values the view handles, their
  truthiness, the duck-typed thenable test, and `_.result(prom, 'state')`.
- `ClassList` (`class_list.dfy`): class attributes as sets of class names.
  The class helpers (`amp-has-class`, `amp-add-class`, `amp-remove-class`)
  become set operations on the space-separated names of their argument.
- `Registry` (`registry.dfy`): the registry that `initialize` builds from
  `options.buttons`. It is pure: entries are dropped, wrapped and merged.
- `ButtonGroupView` (`button_group.dfy`): the view as a class. Its fields are
  the resolved options, the children of the container (a sequence of `Child`
  values, each a rendered button or a loading element), a ghost log of handler
  invocations and a ghost log of emitted `buttonClick` events. Each method
  (`Render`, `Click`, `Settle`, `DisableButtons`, `ReEnableButtons`,
  `RemoveLoadingEl`) updates the children in place. Its `ensures` ties the new
  children to a pure function of the old ones. Lemmas state what those
  functions do.

The click is split in two. `Click` prevents the default action, applies the
disabled guard, invokes the handler, and on a thenable inserts the loading
element and disables the buttons. `Settle` is the `always` callback. `Click`
calls it at once when the result is not a thenable. A caller calls it later
with the `Awaiting` outcome's descriptor and result when the thenable finishes.

Behaviour kept exactly as the code has it:

- `reEnableButtons` removes `disabled` and the classes of `disabledClass`
  from the first `[data-button]` element only (view.es.js:121). It removes
  the `disabled-by-btnView` marker only when `disabledClass` itself names it. `SecondButtonStaysDisabled`
  shows that a second button disabled by a pending click stays disabled after
  settlement. `ReEnableFirstClearsDisabled` shows that the first button loses
  `disabled` even when something else had disabled it, and
  `ReEnableFirstEnables` that it then passes the click guard when
  `disabledClass` is a single class name. The `disabled-by-btnView` marker
  and the name `reEnableButtons` suggest that every button the view disabled
  was meant to be re-enabled, and only those. But only `.get(0)` is
  re-enabled, and the view never tests for the marker by name. The model follows the code.
- The context fallback reads the view field `this.defaultContext`, not
  `options.defaultContext` (view.es.js:86). The model assumes that
  `BaseView`, like `Backbone.View`, does not copy that option onto the view,
  so the field stays `undefined` unless a caller or subclass sets it. `options.defaultContext` is never read.
- `preventDefault` runs before the disabled guard (view.es.js:91-95).
- `disabledClass` and `loadingClass` are re-resolved with `||`, and
  `prependLoading` with `_.isUndefined` (view.es.js:61-65). So a defined
  falsy `prependLoading` such as `null` or `false` replaces the previous value.
- `_.extend({key, text}, options)` copies the descriptor's enumerable
  properties (in the model, which has no prototypes: its own ones). A descriptor
  that gives `key: undefined` explicitly therefore ends up with an undefined
  `key` (`Normalize`).
- The `data-button` attribute carries the registry key, not the descriptor's
  own `key` field (view.es.js:74).

## Model

| member | source | states |
|---|---|---|
| `JsValues.ResultState` | view.es.js:112 | `_.result(prom, 'state')` is undefined for a non-object, and also for an object without `state`; it is the property's value when that is not a function, and the value the method returns when it is |
| `JsValues.Truthy` | view.es.js:42 | a value is falsy exactly when it is `undefined`, `null`, `false`, `0` or `""`; every function and object is truthy |
| `JsValues.IsThenable` | view.es.js:100 | a value passes `prom && _.isFunction(prom.promise)` exactly when it is an object whose `promise` property is a function |
| `Registry.Normalize` | view.es.js:45-53 | a bare function `f` under key `k` becomes `{key: k, text: k, handler: f}`; an object keeps every own property unchanged and gains `key`/`text` = `k` only where it has none; a truthy primitive becomes `{key: k, text: k}` |
| `Registry.Build` | view.es.js:41-55 | the registry never has more entries than the input, and has as many exactly when every declared value is truthy; every descriptor has `key` and `text` |
| `Registry.Lookup` | view.es.js:85 | `this._buttons[k]` finds a descriptor exactly when some entry has key `k`, and it is that entry's descriptor |
| `Registry.BuildLookup` | view.es.js:41-55 | for a falsy input value the registry has no entry under its key; for a truthy one it has the normalised descriptor under the original key; undeclared keys are absent |
| `Registry.BuildKeysDeclared` | view.es.js:41-55 | every registry key was declared in the input |
| `Registry.BuildSelectsTruthy` | view.es.js:41-55 | the registry is the truthy input entries, in input order, each normalised under its own key, and none of them is missing |
| `Registry.BuildDistinct` | view.es.js:54-55 | the registry's keys are distinct, so `_.object` loses nothing |
| `ClassList.Tokens` | view.es.js:133 | every class name a class string denotes is non-empty and free of spaces |
| `ClassList.ReEnableNames` | view.es.js:121 | the string `'disabled ' + disabledClass` names `disabled` plus the names of `disabledClass` |
| `ClassList.DisableNames` | view.es.js:133 | the string `'disabled disabled-by-btnView ' + disabledClass` names `disabled`, the marker, and the names of `disabledClass` |
| `ClassList.HasClass` | view.es.js:93 | for a single class name `hasClass` holds exactly when the element has that class |
| `ClassList.AddClass` | view.es.js:133 | `addClass` keeps every class, adds every name of its argument, and adds nothing else |
| `ClassList.RemoveClass` | view.es.js:121 | `removeClass` removes every name of its argument and keeps every other class |
| `ClassList.AddRemoveHasClass` | view.es.js:121-133 | after `addClass` the element has each single name of the argument, after `removeClass` it has none of them |
| `ButtonGroupView.RenderAll` | view.es.js:66-76 | `render` appends one element per registry entry, in registry order, each a button tagged with the entry's key and carrying the template's markup and button classes |
| `ButtonGroupView.RenderItem` | view.es.js:68-74 | a rendered element is the template's markup, its button carries `data-button` equal to the entry's key and the template's button classes; when the descriptor's `attributes` is an object, each of its attributes is set with its value over the template's and the template's other attributes stay; otherwise the template's attributes are kept |
| `ButtonGroupView.RenderAllShape` | view.es.js:66-76 | after rendering there is exactly one button per registry entry, in registry order, each tagged with its key, and no loading element |
| `ButtonGroupView.RenderedKeys` | view.es.js:41-76 | a key is rendered exactly when its declared value is truthy, and no key is rendered twice |
| `ButtonGroupView.LoadingElement` | view.es.js:101-103 | the element a thenable click creates is a `[data-loading]` element whose classes are class names |
| `ButtonGroupView.LoadingElementNames` | view.es.js:102 | for any `loadingClass` written as class names separated by single spaces, the loading element carries exactly those names |
| `ButtonGroupView.DefaultLoadingClasses` | view.es.js:37 | with the default `loadingClass` the loading element has exactly the classes `icon`, `icon-xlarge`, `fa`, `fa-spinner`, `fa-spin`, so it is found by `.fa-spinner` |
| `ButtonGroupView.InsertLoading` | view.es.js:88-105 | `prepend` or `append` adds the loading element first or last and shifts no other child out of order |
| `ButtonGroupView.WithoutLoading` | view.es.js:116-118 | `removeLoadingEl` never adds children and leaves only buttons |
| `ButtonGroupView.InsertLoadingEffect` | view.es.js:101-105 | a thenable click inserts exactly one loading element, first when prepending and last otherwise, leaving the other children in place, and removing loading elements takes it away again |
| `ButtonGroupView.WithoutLoadingEffect` | view.es.js:116-118 | `removeLoadingEl` leaves no loading element, keeps every button and adds nothing; the result is shorter by the number of loading elements |
| `ButtonGroupView.WithoutLoadingKeepsOrder` | view.es.js:116-118 | the button at position `i` ends up at `i` minus the number of loading elements before it, so the buttons keep their order and none is duplicated |
| `ButtonGroupView.WithoutLoadingNoOp` | view.es.js:116-118 | with no loading element present, `removeLoadingEl` changes nothing |
| `ButtonGroupView.WithoutLoadingIdempotent` | view.es.js:116-118 | a second `removeLoadingEl` is a no-op |
| `ButtonGroupView.IsDisabled` | view.es.js:93 | the guard holds exactly when the button has `disabled` or `hasClass(btn, disabledClass)` holds; for a single-name `disabledClass` that is membership |
| `ButtonGroupView.DisableOne` | view.es.js:130-133 | disabling keeps a child's kind, key, markup and attributes, only adds classes, and leaves a loading element alone |
| `ButtonGroupView.DisableAll` | view.es.js:127-135 | `disableButtons` keeps the number, the kinds and the keys of the children and only adds classes |
| `ButtonGroupView.DisableOneEffect` | view.es.js:129-134 | a button that is not disabled gains `disabled`, `disabled-by-btnView` and the names of `disabledClass`; an already disabled button and a loading element are untouched; afterwards the button counts as disabled for the click guard |
| `ButtonGroupView.DisableAllEffect` | view.es.js:127-135 | `disableButtons` treats every child that way, and afterwards every button counts as disabled for the click guard |
| `ButtonGroupView.FirstItem` | view.es.js:121 | `.get(0)` is the first `[data-button]` element: every child before it is a loading element, and it is past the end when there is no button |
| `ButtonGroupView.ReEnableFirst` | view.es.js:120-122 | `reEnableButtons` keeps the number, the kinds and the keys of the children and only removes classes |
| `ButtonGroupView.ReEnableFirstEffect` | view.es.js:120-122 | `reEnableButtons` removes `disabled` and the names of `disabledClass` from the first button only; every other child is unchanged; the marker stays unless `disabledClass` names it |
| `ButtonGroupView.ReEnableFirstClearsDisabled` | view.es.js:121 | whatever `disabledClass` is, the first button no longer has the class `disabled` |
| `ButtonGroupView.ReEnableFirstEnables` | view.es.js:121 | when `disabledClass` is one class name, the first button no longer counts as disabled for the click guard |
| `ButtonGroupView.ReEnableFirstIdempotent` | view.es.js:120-122 | a second `reEnableButtons` is a no-op |
| `ButtonGroupView.SettleChildren` | view.es.js:109-111 | after settlement the children are buttons only, as many as the old buttons |
| `ButtonGroupView.SettleIdempotent` | view.es.js:109-111 | running `removeLoadingEl` and `reEnableButtons` again after a settlement changes nothing |
| `ButtonGroupView.ThenableClickSettles` | view.es.js:100-111 | when every child is a button, a thenable click followed by settlement leaves the buttons `disableButtons` produced with the first one re-enabled: the loading element is gone, prepended or appended |
| `ButtonGroupView.SingleButtonRoundTrip` | spec.es.js:50-60 | with one enabled button, a thenable click then settlement leaves that button without `disabled`, still carrying the marker unless `disabledClass` names it |
| `ButtonGroupView.SecondButtonStaysDisabled` | view.es.js:100-135 | when a thenable click on one of two enabled buttons inserted the loading element and disabled both, settlement leaves the second still disabled and still marked |
| `ButtonGroupView.ResolveContext` | view.es.js:86 | the handler's `this` is `descriptor.context` when truthy, else the view's `defaultContext` when truthy, else the view; a bound context is always truthy |
| `ButtonGroupView.ButtonGroup.constructor` | view.es.js:38-56 | the registry is `Build(options.buttons)`; the template is `btnTmpl` when given, else the default template; the classes start at the prototype defaults; no children, invocations or events exist yet |
| `ButtonGroupView.ButtonGroup.Render` | view.es.js:60-78 | the three options are re-resolved (`||` for the classes, `isUndefined` for `prependLoading`); the children become exactly the rendered registry; the result is the view itself |
| `ButtonGroupView.ButtonGroup.RemoveLoadingEl` | view.es.js:116-118 | the children become the old children without loading elements |
| `ButtonGroupView.ButtonGroup.ReEnableButtons` | view.es.js:120-122 | the children become the old ones with the first button re-enabled |
| `ButtonGroupView.ButtonGroup.DisableButtons` | view.es.js:127-135 | the children become the old ones with every button not yet disabled disabled and marked |
| `ButtonGroupView.ButtonGroup.Settle` | view.es.js:109-113 | loading elements go, the first button is re-enabled, and exactly one `buttonClick` with the descriptor and the result's `state` is appended |
| `ButtonGroupView.ButtonGroup.Click` | view.es.js:83-114 | the default is always prevented. A disabled button changes nothing else. A truthy non-function handler throws. Otherwise the clicked key's handler, if any, is invoked once with the event and the resolved context. A thenable result adds one loading element and disables the buttons without emitting. Any other result settles at once and emits one `buttonClick` |

## Left out

- `BaseView` (the `baseview` module the view extends) is not part of this model. The model assumes it behaves like `Backbone.View` and copies no option onto the view: `defaultContext` starts `undefined`, and `disabledClass`/`loadingClass` start at the prototype defaults until `render`.
- The Backbone/BaseView plumbing is not modelled: the `events` map (view.es.js:57-59), `tagName`/`className`, `$el` and `trigger` as an event bus. `buttonClick` is an entry appended to a ghost log. A click is modelled as `Click` on a child that is a button, which is what the delegated `click [data-button]` binding delivers.
- The template and the DOM calls are not modelled. `btnTmpl` and the default `button-view-template` are an opaque function from descriptor to rendered markup, attributes and button classes. `innerHTML`, `childNodes.item(...)`, `querySelector('button')` and `style.padding` are not modelled. A template whose output has no inner `button` would make `render` throw; the model assumes it has one.
- Attributes: only an `attributes` object is copied onto the element. A string value (which `_.each` would walk character by character) and attribute-name validity errors are not modelled. Attribute values stay JavaScript values; their conversion to strings is not modelled.
- Handlers are external code. Their return value is a parameter of `Click`, and the model assumes a handler does not touch the view. A handler that throws is not modelled. An object handler with its own `call` method is not modelled either: any truthy non-function handler is the `HandlerNotCallable` outcome.
- The promise libraries are not modelled. SimplyDeferred's `when(...).always(...)` and jQuery Deferred become the explicit `Settle` step. The model assumes that `when` treats exactly the values that pass the view's thenable test as pending. A thenable that has already finished is settled by the caller calling `Settle` right away. When `state` is a method, its return value is a parameter.
- The class libraries: `hasClass` with a name that contains a space is decided by an unseen library, so it is a matcher parameter (`MultiTokenMatcher`). `addClass`/`removeClass` split on the space character only; other whitespace is not modelled. `removeClass` on a missing element (no button at all) is modelled as a no-op.
- JavaScript objects: objects have no identity in the model (equal properties mean equal objects), they have no prototype (so inherited enumerable properties, which `_.extend` and `_.each` would also visit, are not modelled), functions carry no properties, `NaN` and the ordering of integer-like object keys are not modelled. The input button map is a sequence of distinct keys in iteration order. The class options are strings or absent; non-string class options and the string conversion `+` applies to them are not modelled.
- Normalize: `options.buttons` is modelled as an object whose keys are strings. An array, which the JSDoc names, would give `_.map` numeric indices as keys, so `key` and `text` would default to numbers, not strings; the model always writes `Str(key)`.
- `initialize` with `options` undefined throws at `options.btnTmpl` even though the line before defaults `this.options`. The model requires an options value.
- Concurrency is not modelled beyond the split between `Click` and `Settle`. A caller may interleave several pending clicks and renders; each `Settle` reads the view's fields as they are when it runs.
