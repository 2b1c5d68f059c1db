# AdminLTE widgets, modelled in Dafny

This project models the script layer of the AdminLTE admin template. That
layer is a set of small widgets that read their options from `data-*`
attributes and then react to clicks, keys and window resizes by adding and
removing CSS classes and setting heights.

- `values.dfy`: the JavaScript values an options object holds, and truthiness.
- `dom.dfy`: the document as a tree of elements addressed by child-index
  paths. It also defines a class-rewriting operation that every Tree edit
  is an instance of, and the lemmas about it.
- `utilities.dfy`: `Utilities.findChildren`, as a loop and as a filter, and
  `Utilities.grabOptions`, as a loop and as a declarative resolution. The
  resolution covers override, then `data-*` attribute, then default, and turns
  the string `'false'` into `false`.
- `tree.dfy`: the collapsible tree menu. It covers clicks on a link, accordion
  mode, whether navigation is suppressed, the notifications that follow, and
  the constructor opening the first active branch.
- `push_menu.dfy`: the push-menu button. It covers opening and closing by body
  classes at wide and narrow widths, hover expansion of the mini sidebar, the
  content-wrapper click and the constructor.
- `layout.dfy`: the content wrapper's minimum height and the fixed sidebar's
  height, computed from the page's geometry. It also covers activation and the
  once-only binding of the resize listeners.
- `dropdown.dfy`: dropdown toggling, clearing every dropdown, and the Escape
  key.
- `control_sidebar.dfy`: the control sidebar's open and close, and the
  `slide` option.

Each widget is modelled as pure functions over an immutable state. The
window's inner width and height, element heights, and which elements exist
all become parameters. Animations end at once, so their only trace is the
notification they dispatch, kept as a count or a log. A JavaScript exception
is a `threw` flag next to the state reached before it.

## Model

| member | source | states |
|---|---|---|
| Utilities.FindChildren | dist/js/adminlite.js:24-36 | the sibling walk returns exactly the direct children with the node name and the class, in sibling order |
| Utilities.ChildrenMatchingCounts | dist/js/adminlite.js:24-36 | each matching child occurs in the result as often as among the children; a non-matching one never occurs |
| Utilities.ChildrenMatchingMembers | dist/js/adminlite.js:28-30 | an element is in the result iff it is a child with the requested node name and class |
| Utilities.ChildrenMatchingOrder | dist/js/adminlite.js:26-33 | the result is a subsequence of the children (sibling order kept), so never longer |
| Utilities.GrabOptions | dist/js/adminlite.js:46-79 | the loop over the fields computes the declarative resolution of override, `data-*` attribute and default |
| Utilities.Coerce | dist/js/adminlite.js:72-73 | exactly the string `'false'` becomes `false`; every other value is kept |
| Utilities.DedupFacts | dist/js/adminlite.js:54-75 | assigning fields in order keeps each key exactly once and no other key; distinct fields are kept as they are |
| Utilities.DedupOrder | dist/js/adminlite.js:54-75 | the keys come out in the order of their first occurrence among the fields, as repeated assignment to one object keeps a key where it was first set |
| Utilities.ResolveKeys | dist/js/adminlite.js:54-76 | the result's keys are the requested fields, or the defaults' keys, each once and in order of first mention |
| Utilities.ResolvePrecedence | dist/js/adminlite.js:50-73 | per field, a key present in the override wins (even with `undefined`), then the dataset, then the default; a null override or element is the same as an empty one; unrequested fields are absent |
| Utilities.ResolveCoercesFalse | dist/js/adminlite.js:72-75 | no result value is the string `'false'`; each value is the picked value, with `'false'` replaced by `false` |
| Utilities.ResolveIdempotent | dist/js/adminlite.js:61-63 | feeding the result back in as the override object reproduces it, whatever the element |
| Utilities.ResolveExample | dist/js/adminlite.js:46-79 | defaults `{a:1,b:2}`, override `{a:5}` and `data-b="false"` give `{a:5,b:false}` |
| Dom.MapClassesAt | build/js/Tree.js:74-121 | every Tree class edit (collapse, expand, construction) keeps the tree's shape, names and links, and gives each element the classes the edit prescribes |
| Tree.ConfigureFlags | build/js/Tree.js:22-28 | with no overrides accordion and followLink are on; `data-accordion="false"` turns accordion off, `"true"` keeps it on |
| Tree.Collapse | build/js/Tree.js:74-89 | collapsing keeps the document's shape |
| Tree.Expand | build/js/Tree.js:96-121 | expanding keeps the document's shape |
| Tree.Toggle | build/js/Tree.js:128-150 | an item without `treeview` is left alone; otherwise navigation is prevented iff followLink is off or the href is `#`; one `tree_expanded` follows exactly when a closed treeview item is clicked |
| Tree.ToggleIsEdit | build/js/Tree.js:128-150 | a click rewrites each element's classes by the collapse or expand edit and keeps all else |
| Tree.ToggleFrame | build/js/Tree.js:128-150 | only the clicked item and its siblings can change class; names, links and shape are kept |
| Tree.ToggleCollapses | build/js/Tree.js:74-89 | clicking an open item removes only its `menu-open`; one `tree_collapsed` per submenu list follows |
| Tree.ToggleExpandsAccordion | build/js/Tree.js:96-121 | in accordion mode the opened item becomes the only open `LI` among its siblings; the open siblings lose exactly `menu-open`; the notifications are counted |
| Tree.ToggleExpandsAlone | build/js/Tree.js:96-121 | without accordion mode, opening adds `menu-open` to the item and changes no other element |
| Tree.ToggleTwice | build/js/Tree.js:128-150 | without accordion mode, two clicks on a closed item restore the document |
| Tree.ItemSubtreeKept | build/js/Tree.js:74-121 | a click never changes the elements below the clicked item |
| Tree.ToggleKeepsAccordion | build/js/Tree.js:96-108 | in accordion mode a click keeps the invariant that no list has two open `LI` children |
| Tree.FindFromSpec | build/js/Tree.js:183 | the search finds the first `.treeview.active` descendant in document order, and none iff there is none |
| Tree.ConstructOpensFirstActive | build/js/Tree.js:174-191 | `Tree.Construct` (the constructor) adds `tree` to the element and `menu-open` to the first active branch only |
| PushMenu.ConfigureFlags | build/js/PushMenu.js:16-20 | with nothing overridden the screen size is 767 and hovering is off; a `data-collapse-screen-size` of decimal digits gives its value; `data-expand-on-hover="false"` keeps hovering off |
| PushMenu.OpenSidebar | build/js/PushMenu.js:116-122 | afterwards the sidebar counts as open; a wide screen changes only `sidebar-collapse`, a narrow one only `sidebar-open`; only the body changes |
| PushMenu.CloseSidebar | build/js/PushMenu.js:127-135 | afterwards the sidebar counts as closed; a wide screen changes only `sidebar-collapse` and loses the hover expansion; a narrow one loses `sidebar-open` and `sidebar-collapse` and keeps every other class |
| PushMenu.Toggle | build/js/PushMenu.js:140-152 | the sidebar's open state flips, with the exact class changes at each width |
| PushMenu.Click | build/js/PushMenu.js:158-166 | without the listener nothing happens; with it, the width is re-read and the sidebar flips |
| PushMenu.ToggleTwice | build/js/PushMenu.js:116-152 | two toggles restore the body except for the hover class (wide) or `sidebar-collapse` (narrow) |
| PushMenu.MouseOver | build/js/PushMenu.js:70-101 | a collapsed mini sidebar on a wide screen swaps `sidebar-collapse` for the hover class; otherwise nothing changes |
| PushMenu.MouseLeave | build/js/PushMenu.js:80-108 | a hover expansion swaps back; otherwise nothing changes |
| PushMenu.HoverRoundTrip | build/js/PushMenu.js:70-108 | hovering in and out restores the state |
| PushMenu.ContentWrapperClick | build/js/PushMenu.js:195-205 | closes the sidebar exactly on a narrow screen where it is open, removing only `sidebar-open` and `sidebar-collapse`; otherwise nothing changes |
| PushMenu.ContentWrapperClickTwice | build/js/PushMenu.js:195-205 | a second content-wrapper click changes nothing more |
| PushMenu.WrapperCloseThenToggle | build/js/PushMenu.js:127-205 | after a content-wrapper close, the button reopens the sidebar and the body is as before without `sidebar-collapse` |
| PushMenu.BindHover | build/js/PushMenu.js:90-111 | hover listeners exist afterwards iff they did before or a main sidebar exists; nothing else changes |
| PushMenu.HoverAfterBind | build/js/PushMenu.js:90-111 | once bound to a main sidebar, hovering a collapsed mini sidebar on a wide screen expands it and leaving restores it; with no main sidebar hovering does nothing |
| PushMenu.HoverStep | build/js/PushMenu.js:188-193 | the constructor's hover step binds hover iff the feature is on and a main sidebar exists, and adds `sidebar-mini-expand-feature` iff the feature is on |
| PushMenu.ConstructAsWritten | build/js/PushMenu.js:173-219 | the constructor as written throws, and leaves the button unbound, iff the content wrapper or the search field is missing |
| PushMenu.NoSearchFormLeavesButtonDead | build/js/PushMenu.js:207-218 | on a page without a sidebar search form, button clicks change nothing |
| PushMenu.Construct | build/js/PushMenu.js:173-219 | the hover feature and its class follow the options and body classes; the wrapper listener exists iff the wrapper does; the button is always bound |
| PushMenu.ConstructAgrees | build/js/PushMenu.js:173-219 | where the source does not throw, the corrected constructor agrees with it |
| PushMenu.ClickAfterConstruct | build/js/PushMenu.js:158-166 | after construction a click on a wide screen flips `sidebar-collapse` |
| Layout.ConfigureFlags | build/js/Layout.js:21-24 | with no `data-*` attributes both options are on; `"false"` turns either off |
| Layout.Fix | build/js/Layout.js:70-118 | a height is set iff the wrapper exists: on a fixed layout window minus footer, otherwise the page height, raised to a taller control sidebar |
| Layout.FixFixedIgnores | build/js/Layout.js:98-99 | on a fixed layout the header, sidebar and control sidebar do not affect the wrapper height |
| Layout.FixSidebar | build/js/Layout.js:123-140 | the sidebar gets a height iff it exists and the body is fixed: the window minus the header |
| Layout.FixLayoutIdempotent | build/js/Layout.js:145-148 | `Layout.FixLayout` (`fixLayout`, both height rules) applied twice at the same geometry is applied once; the body classes and listeners are untouched |
| Layout.AddedCounts | build/js/Layout.js:172-182 | activation adds one resize listener and the transition listeners only when not yet bound |
| Layout.ActivateStep | build/js/Layout.js:172-182 | one activation registers the resize, logo and (when found) sidebar listeners on the first binding only, and is bound afterwards |
| Layout.ActivateAsWritten | build/js/Layout.js:153-187 | activation as written throws iff the sidebar menu is missing, binds resize and logo once on the first activation, and never adds a sidebar `transitionend` listener |
| Layout.SidebarNeverBound | build/js/Layout.js:172-182 | even with a sidebar on the page, over any number of activations as written, no sidebar `transitionend` listener is ever bound, while resize and logo are bound exactly once |
| Layout.Activate | build/js/Layout.js:153-187 | it throws iff the sidebar menu is missing; hold-transition goes iff transitions are enabled; it is bound afterwards; the heights are those of the fix rules; the first activation binds the sidebar's `transitionend` listener when the sidebar exists |
| Layout.ActivateAgrees | build/js/Layout.js:172-182 | on a page without a sidebar, activation as written and as intended agree |
| Layout.BindOnce | build/js/Layout.js:172-182 | over any number of activations, as written or as intended, each resize and transition listener is bound at most once |
| Layout.ResizeBoundAtMostOnce | build/js/Layout.js:172-182 | from the initial page, any number of intended activations binds at most one resize listener, and the sidebar's listener exactly once when the sidebar exists |
| Dropdown.ClearOthersFlag | build/js/Dropdown.js:16-19 | clearOthers is on by default; `data-clear-others="false"` turns it off, any other non-empty value keeps it |
| Dropdown.GetParent | build/js/Dropdown.js:84-90 | a set `data-target` gives the selector's match or null; otherwise the parent node |
| Dropdown.ClearFrom | build/js/Dropdown.js:68-77 | only dropdown parents lose `open`; it throws iff some parent is not found; otherwise every parent loses `open` |
| Dropdown.ClearMenus | build/js/Dropdown.js:65-78 | a right-button click changes nothing; otherwise every dropdown parent loses `open` |
| Dropdown.ClearMenusIdempotent | build/js/Dropdown.js:65-78 | clearing twice is clearing once, even when the clearing throws |
| Dropdown.Toggle | build/js/Dropdown.js:96-113 | a disabled toggle does nothing; an enabled toggle whose parent is not found throws and changes nothing |
| Dropdown.ToggleClearsOthers | build/js/Dropdown.js:103-112 | with clearOthers, opening leaves the toggled parent the only open dropdown parent, and closing leaves none; other elements are untouched |
| Dropdown.ToggleAlone | build/js/Dropdown.js:103-112 | without clearOthers, only the toggled parent's `open` flips |
| Dropdown.ToggleTwice | build/js/Dropdown.js:103-112 | two clicks on one toggle restore the open set without clearOthers; with clearOthers a closed dropdown opens and closes again, leaving no dropdown parent open |
| Dropdown.Contains | build/js/Dropdown.js:51 | the pattern test holds iff the pattern occurs at some index |
| Dropdown.HandleKeydown | build/js/Dropdown.js:47-59 | only Escape from a target that is not a text field clears the dropdowns |
| Dropdown.KeydownTargets | build/js/Dropdown.js:50-51 | Escape in `INPUT` or `textarea` changes nothing; Escape on `BODY` clears |
| ControlSidebar.SlideFlag | build/js/ControlSidebar.js:16-18 | slide is on by default; `data-slide="false"` turns it off, any other non-empty value keeps it |
| ControlSidebar.Expand | build/js/ControlSidebar.js:82-90 | the class goes on the body without slide and on the sidebar with it; one expanded event |
| ControlSidebar.Collapse | build/js/ControlSidebar.js:95-100 | the class goes from both; one collapsed event |
| ControlSidebar.Toggle | build/js/ControlSidebar.js:105-118 | without a sidebar nothing happens; otherwise the open state flips, with one matching event |
| ControlSidebar.Click | build/js/ControlSidebar.js:125-143 | a click re-reads the options, toggles, and leaves the resize listener bound |
| ControlSidebar.ToggleTwice | build/js/ControlSidebar.js:105-118 | from closed, two toggles with any `slide` values restore the state, with events expanded then collapsed |
| ControlSidebar.ClickTwice | build/js/ControlSidebar.js:125-143 | two clicks restore the page; in between the class sits where `data-slide` says |

## Left out

- Animations, `setTimeout` delays and easing: every change is immediate. A widget's animation shows up only as the event it dispatches when it ends.
- Tree.Expand: counts one `tree_expanded` even when the item has no submenu list. What Velocity does with an undefined element is outside the model.
- Listener plumbing is left out: `preventDefault` only where it decides an outcome (Tree), `stopPropagation`, and the form click guards in Dropdown and PushMenu.
- Style strings are left out: `px` formatting, the `resetHeight` styles, the boxed wrapper's `overflow`, and the sidebar's `overflowY`. Heights are the integers the source formats.
- `ControlSidebar.fix` only sets styles on a boxed layout, so the model keeps just the fact that it is bound to resizes.
- Within a file, widget state is shared: the last constructed instance's options and elements are the ones in force. The model has one instance per widget and takes its options as a parameter.
- PushMenu.Configure: JavaScript's string-to-number conversion of a `data-collapse-screen-size` string is modelled for plain decimal digits only; any other value (signs, spaces, fractions, hexadecimal, or a non-numeric string) gives None. A non-numeric string would make the screen size NaN, and every width comparison with NaN is false: `toggle` then reads the wide state while `open` and `close` take the narrow branch, so the button never changes `sidebar-collapse`, and hover expansion and the content-wrapper close never fire.
- Utilities.ResolvePrecedence: `in` on the override object also sees inherited prototype keys. The model looks at own keys only.
- Utilities.ResolveKeys: JavaScript lists integer-like keys first in an object. The model keeps insertion order for every key.
- Utilities.FindChildren: text and comment nodes among the children are left out. They never match an element name.
- Dropdown.IsTextField: case folding is ASCII only.
- Tree: a link directly under the document's root element has no sibling items. Its item's parent is the document node.
- The DOM ignores a second registration of the same listener. Layout's registration log records each registration, so its bind-once lemmas state the property of the source's flag.
- `Dropdown.init` returns a thunk instead of running, and the `runner` start-up on window load is left out.
- BoxWidget, DirectChat, `main.js` and the webpack configuration are not part of this model.

## Findings

| source | as written | input that shows it | evidently intended | confidence | as-written member | corrected member |
|---|---|---|---|---|---|---|
| build/js/Layout.js:176 | the sidebar is looked up with `ClassName.sidebar`, which is undefined, so the selector matches nothing | any page with a `.sidebar` element | look it up with `Selector.sidebar` and bind its `transitionend` listener once | high; not executed | Layout.SidebarNeverBound | Layout.Activate |
| build/js/PushMenu.js:207-218 | the search field is used without a null check before the button's listener is bound | a page with a content wrapper but no `.sidebar-form .form-control` | bind the button's click listener regardless of optional elements | medium; not executed | PushMenu.NoSearchFormLeavesButtonDead | PushMenu.Construct |
