/** The `PushMenu` widget: the button that opens and closes the main
    sidebar by classes on the page body. On a wide screen the sidebar is open
    unless the body has `sidebar-collapse`; on a narrow one (width at most
    `collapseScreenSize`) it is open when the body has `sidebar-open`. Hovering
    a collapsed mini sidebar expands it until the pointer leaves. The hover
    transition delay is not modelled: changes are immediate. */
module PushMenu {
  import opened Values
  import Utilities

  const Collapsed := "sidebar-collapse"
  const OpenClass := "sidebar-open"
  const Mini := "sidebar-mini"
  const LayoutFixed := "fixed"
  const Expanded := "sidebar-expanded-on-hover"
  const ExpandFeature := "sidebar-mini-expand-feature"

  /** The options the widget reads (`expandTransitionDelay` only times the
      hover changes). */
  datatype Options = Options(collapseScreenSize: int, expandOnHover: bool)

  /** The widget's default options, in declaration order. */
  const Defaults: Utilities.Entries :=
    [("collapseScreenSize", Num(767)), ("expandOnHover", Bool(false)), ("expandTransitionDelay", Num(0))]

  /** The value of a string of decimal digits, None for any other string. */
  function DecimalValue(s: string): (r: Option<nat>)
    ensures r.Some? <==> |s| > 0 && forall i :: 0 <= i < |s| ==> '0' <= s[i] <= '9'
    decreases |s|
  {
    if |s| == 0 || !('0' <= s[|s| - 1] <= '9') then None
    else if |s| == 1 then Some(s[0] as int - '0' as int)
    else match DecimalValue(s[..|s| - 1])
         case None => None
         case Some(n) => Some(10 * n + (s[|s| - 1] as int - '0' as int))
  }

  /** The number `width <= options.collapseScreenSize` compares against: a
      number as given, or a `data-*` string of decimal digits converted to
      its value. None for any other value (see README). */
  function ScreenSize(v: Value): Option<int> {
    match v
    case Num(n) => Some(n)
    case Str(t) => DecimalValue(t)
    case _ => None
  }

  /** `Constructor` resolves the options from the caller's overrides and the
      element's `data-*` attributes. None when the screen size is not a
      number the model compares. */
  function Configure(current: Option<Utilities.Entries>, element: Option<Utilities.Dataset>): Option<Options> {
    var o := Utilities.Resolve(Defaults, current, element, None);
    match ScreenSize(Utilities.Get(o, "collapseScreenSize").GetOr(Undefined))
    case None => None
    case Some(size) => Some(Options(size, Truthy(Utilities.Get(o, "expandOnHover").GetOr(Undefined))))
  }

  /** With nothing overridden the screen size is 767 and hovering is off; a
      `data-collapse-screen-size` of decimal digits sets the screen size to
      their value, and `data-expand-on-hover="false"` keeps hovering off. */
  lemma ConfigureFlags(element: Option<Utilities.Dataset>)
    ensures Configure(None, None) == Some(Options(767, false))
    ensures element.Some? && "collapseScreenSize" in element.value &&
            DecimalValue(element.value["collapseScreenSize"]).Some? ==>
              Configure(None, element).Some? &&
              Configure(None, element).value.collapseScreenSize == DecimalValue(element.value["collapseScreenSize"]).value
    ensures element.Some? && "expandOnHover" in element.value && element.value["expandOnHover"] == "false" &&
            Configure(None, element).Some? ==>
              !Configure(None, element).value.expandOnHover
  {
    assert Utilities.Get(Defaults, "collapseScreenSize") == Some(Num(767));
    assert Utilities.Get(Defaults, "expandOnHover") == Some(Bool(false));
    Utilities.ResolveDefaultField(Defaults, None, "collapseScreenSize", Num(767));
    Utilities.ResolveDefaultField(Defaults, None, "expandOnHover", Bool(false));
    Utilities.ResolveDefaultField(Defaults, element, "collapseScreenSize", Num(767));
    Utilities.ResolveDefaultField(Defaults, element, "expandOnHover", Bool(false));
    assert DecimalValue("false").None? by { assert !('0' <= "false"[0] <= '9'); }
  }

  /** The widget's state: the body's classes, the window width as last read
      (at construction and at each button click, never on resize or hover),
      and which listeners are in place. */
  datatype State = State(body: set<string>, width: int, hoverBound: bool, wrapperBound: bool, buttonBound: bool)

  /** The page at construction: the body's classes, the window width, and
      which of the elements the widget hooks into exist. */
  datatype Page = Page(body: set<string>, width: int, mainSidebar: bool, contentWrapper: bool, searchInput: bool)

  /** A width equal to `collapseScreenSize` is narrow. */
  predicate Wide(o: Options, s: State) {
    s.width > o.collapseScreenSize
  }

  /** Whether the sidebar counts as open, as `toggle` decides it. */
  predicate IsOpen(o: Options, s: State) {
    if Wide(o, s) then Collapsed !in s.body else OpenClass in s.body
  }

  /** `open()`. */
  function OpenSidebar(o: Options, s: State): (r: State)
    ensures IsOpen(o, r)
    ensures r == s.(body := r.body)
    ensures Wide(o, s) ==> r.body - {Collapsed} == s.body - {Collapsed}
    ensures !Wide(o, s) ==> r.body - {OpenClass} == s.body - {OpenClass}
  {
    if Wide(o, s) then s.(body := s.body - {Collapsed})
    else s.(body := s.body + {OpenClass})
  }

  /** `close()`: on a wide screen it collapses the sidebar and ends a hover
      expansion; on a narrow one it removes both `sidebar-open` and
      `sidebar-collapse`. */
  function CloseSidebar(o: Options, s: State): (r: State)
    ensures !IsOpen(o, r)
    ensures r == s.(body := r.body)
    ensures Wide(o, s) ==> Expanded !in r.body && r.body - {Collapsed, Expanded} == s.body - {Collapsed, Expanded}
    ensures !Wide(o, s) ==> OpenClass !in r.body && Collapsed !in r.body
    ensures !Wide(o, s) ==> r.body - {Collapsed, OpenClass} == s.body - {Collapsed, OpenClass}
  {
    if Wide(o, s) then s.(body := s.body - {Expanded} + {Collapsed})
    else s.(body := s.body - {OpenClass, Collapsed})
  }

  /** `toggle()`: it flips whether the sidebar is open. On a wide screen only
      `sidebar-collapse` (and, when closing, `sidebar-expanded-on-hover`)
      change; on a narrow one `sidebar-open` is added when absent, and
      `sidebar-open` and `sidebar-collapse` are removed when present. */
  function Toggle(o: Options, s: State): (r: State)
    ensures IsOpen(o, r) <==> !IsOpen(o, s)
    ensures r.width == s.width && r == s.(body := r.body)
    ensures Wide(o, s) ==> (Collapsed in r.body <==> Collapsed !in s.body)
    ensures Wide(o, s) ==> r.body - {Collapsed, Expanded} == s.body - {Collapsed, Expanded}
    ensures Wide(o, s) && Collapsed !in s.body ==> Expanded !in r.body
    ensures Wide(o, s) && Collapsed in s.body ==> r.body == s.body - {Collapsed}
    ensures !Wide(o, s) && OpenClass !in s.body ==> r.body == s.body + {OpenClass}
    ensures !Wide(o, s) && OpenClass in s.body ==> r.body == s.body - {OpenClass, Collapsed}
  {
    var isOpen := if s.width <= o.collapseScreenSize then OpenClass in s.body else Collapsed !in s.body;
    if !isOpen then OpenSidebar(o, s) else CloseSidebar(o, s)
  }

  /** A click on the push-menu button: the width is read afresh, then the
      sidebar toggles. Without the click listener nothing happens. */
  function Click(o: Options, s: State, width: int): (r: State)
    ensures !s.buttonBound ==> r == s
    ensures s.buttonBound ==> r.width == width && (IsOpen(o, r) <==> !IsOpen(o, s.(width := width)))
  {
    if s.buttonBound then Toggle(o, s.(width := width)) else s
  }

  /** Two toggles at one width open and close again (or close and open):
      on a wide screen the only lasting change is that a hover expansion is
      gone; on a narrow one, that `sidebar-collapse` is gone. */
  lemma ToggleTwice(o: Options, s: State)
    ensures Wide(o, s) ==> Toggle(o, Toggle(o, s)) == s.(body := s.body - {Expanded})
    ensures !Wide(o, s) ==> Toggle(o, Toggle(o, s)) == s.(body := s.body - {Collapsed})
  {
  }

  /** Mouse over the main sidebar: a collapsed mini sidebar on a wide screen
      swaps `sidebar-collapse` for `sidebar-expanded-on-hover`. */
  function MouseOver(o: Options, s: State): (r: State)
    ensures r == s.(body := r.body)
    ensures (r != s) ==> s.hoverBound && Mini in s.body && Collapsed in s.body && Wide(o, s)
    ensures s.hoverBound && Mini in s.body && Collapsed in s.body && Wide(o, s) ==>
              r.body == s.body - {Collapsed} + {Expanded}
  {
    if s.hoverBound && Mini in s.body && Collapsed in s.body && s.width > o.collapseScreenSize then
      s.(body := s.body - {Collapsed} + {Expanded})
    else s
  }

  /** The pointer leaves the main sidebar: a hover expansion swaps back to
      `sidebar-collapse`; nothing else happens. */
  function MouseLeave(s: State): (r: State)
    ensures r == s.(body := r.body)
    ensures (r != s) ==> s.hoverBound && Expanded in s.body
    ensures s.hoverBound && Expanded in s.body ==> r.body == s.body - {Expanded} + {Collapsed}
  {
    if s.hoverBound && Expanded in s.body then s.(body := s.body - {Expanded} + {Collapsed}) else s
  }

  /** Hovering in and out again restores the body. */
  lemma HoverRoundTrip(o: Options, s: State)
    requires s.hoverBound && Mini in s.body && Collapsed in s.body && Wide(o, s) && Expanded !in s.body
    ensures MouseLeave(MouseOver(o, s)) == s
  {
    assert s.body - {Collapsed} + {Expanded} - {Expanded} + {Collapsed} == s.body;
  }

  /** A click on the content wrapper closes the sidebar only on a narrow
      screen where it is open. */
  function ContentWrapperClick(o: Options, s: State): (r: State)
    ensures s.wrapperBound && !Wide(o, s) && OpenClass in s.body ==> r == CloseSidebar(o, s)
    ensures !(s.wrapperBound && !Wide(o, s) && OpenClass in s.body) ==> r == s
    ensures !IsOpen(o, r) || r == s
    ensures r != s ==> OpenClass !in r.body && Collapsed !in r.body &&
                       r.body - {Collapsed, OpenClass} == s.body - {Collapsed, OpenClass}
  {
    if s.wrapperBound && s.width <= o.collapseScreenSize && OpenClass in s.body then CloseSidebar(o, s) else s
  }

  /** A second content-wrapper click changes nothing more. */
  lemma ContentWrapperClickTwice(o: Options, s: State)
    ensures ContentWrapperClick(o, ContentWrapperClick(o, s)) == ContentWrapperClick(o, s)
  {
  }

  /** After the content wrapper closed the sidebar, the button reopens it:
      the body is as before except that `sidebar-collapse` is gone. */
  lemma WrapperCloseThenToggle(o: Options, s: State)
    requires s.wrapperBound && !Wide(o, s) && OpenClass in s.body
    ensures Toggle(o, ContentWrapperClick(o, s)) == s.(body := s.body - {Collapsed})
  {
    assert s.body - {OpenClass, Collapsed} + {OpenClass} == s.body - {Collapsed};
  }

  /** Whether `Constructor` turns on the hover feature. */
  predicate HoverFeature(o: Options, body: set<string>) {
    o.expandOnHover || (Mini in body && LayoutFixed in body)
  }

  /** `expandOnHover()`, also public: hover listeners go on every main
      sidebar element; with no main sidebar nothing is bound. */
  function BindHover(mainSidebar: bool, s: State): (r: State)
    ensures r.hoverBound <==> s.hoverBound || mainSidebar
    ensures r.(hoverBound := s.hoverBound) == s
  {
    s.(hoverBound := s.hoverBound || mainSidebar)
  }

  /** Once `expandOnHover()` has found a main sidebar, hovering a collapsed
      mini sidebar on a wide screen expands it and leaving restores it;
      without a main sidebar (and no earlier binding) hovering does
      nothing. */
  lemma HoverAfterBind(o: Options, mainSidebar: bool, s: State)
    ensures var b := BindHover(mainSidebar, s);
            mainSidebar && Mini in s.body && Collapsed in s.body && Wide(o, s) ==>
              MouseOver(o, b).body == s.body - {Collapsed} + {Expanded}
    ensures var b := BindHover(mainSidebar, s);
            mainSidebar && Mini in s.body && Collapsed in s.body && Wide(o, s) && Expanded !in s.body ==>
              MouseLeave(MouseOver(o, b)) == b
    ensures !mainSidebar && !s.hoverBound ==>
              MouseOver(o, BindHover(mainSidebar, s)) == s && MouseLeave(BindHover(mainSidebar, s)) == s
  {
    var b := BindHover(mainSidebar, s);
    if mainSidebar && Mini in s.body && Collapsed in s.body && Wide(o, s) && Expanded !in s.body {
      HoverRoundTrip(o, b);
    }
  }

  /** The hover step of `Constructor`: when the feature is on,
      `expandOnHover()` runs and the body gains
      `sidebar-mini-expand-feature`. */
  function HoverStep(o: Options, p: Page): (r: State)
    ensures r.hoverBound <==> HoverFeature(o, p.body) && p.mainSidebar
    ensures r.body == if HoverFeature(o, p.body) then p.body + {ExpandFeature} else p.body
    ensures r.width == p.width && !r.wrapperBound && !r.buttonBound
  {
    var s := State(p.body, p.width, false, false, false);
    if HoverFeature(o, p.body) then
      var b := BindHover(p.mainSidebar, s);
      b.(body := b.body + {ExpandFeature})
    else s
  }

  /** `Constructor` as written: the content wrapper and the sidebar search
      field are looked up and used without a null check, so a page lacking
      either throws before the button's click listener is bound. Returns the
      state and whether it threw. */
  function ConstructAsWritten(o: Options, p: Page): (r: (State, bool))
    ensures r.1 <==> !p.contentWrapper || !p.searchInput
    ensures r.0.buttonBound <==> p.contentWrapper && p.searchInput
  {
    var s := HoverStep(o, p);
    if !p.contentWrapper then (s, true)
    else if !p.searchInput then (s.(wrapperBound := true), true)
    else (s.(wrapperBound := true, buttonBound := true), false)
  }

  /** A page with everything but the sidebar search form: the button is left
      without its click listener, so clicks never toggle the sidebar. */
  lemma NoSearchFormLeavesButtonDead(o: Options, body: set<string>, width: int, w: int)
    ensures var p := Page(body, width, true, true, false);
            var s := ConstructAsWritten(o, p).0;
            ConstructAsWritten(o, p).1 && Click(o, s, w) == s
  {
  }

  /** `Constructor` with its evident intent: the hover feature is on exactly
      when `expandOnHover` is set or the body has both `sidebar-mini` and
      `fixed` (and then the body gets `sidebar-mini-expand-feature`); the
      content-wrapper listener exists when the wrapper does; the button
      always gets its click listener. */
  function Construct(o: Options, p: Page): (r: State)
    ensures r.hoverBound <==> HoverFeature(o, p.body) && p.mainSidebar
    ensures r.body == if HoverFeature(o, p.body) then p.body + {ExpandFeature} else p.body
    ensures r.wrapperBound == p.contentWrapper && r.buttonBound
    ensures r.width == p.width
  {
    HoverStep(o, p).(wrapperBound := p.contentWrapper, buttonBound := true)
  }

  /** Where the source does not throw, the corrected constructor agrees with
      it. */
  lemma ConstructAgrees(o: Options, p: Page)
    requires p.contentWrapper && p.searchInput
    ensures ConstructAsWritten(o, p) == (Construct(o, p), false)
  {
  }

  /** After construction, a click on a wide screen flips `sidebar-collapse`. */
  lemma ClickAfterConstruct(o: Options, p: Page, w: int)
    requires w > o.collapseScreenSize
    ensures var s := Construct(o, p);
            Collapsed in Click(o, s, w).body <==> Collapsed !in p.body
  {
  }
}
