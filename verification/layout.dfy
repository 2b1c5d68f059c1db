/** The `Layout` widget: it sets the content wrapper's minimum height and,
    on a fixed layout, the sidebar's height from the heights of the page's
    parts, and binds itself to window resizes once. Heights are the integers
    the source formats into `px` strings. */
module Layout {
  import opened Values
  import Utilities

  const HoldTransition := "hold-transition"
  const Fixed := "fixed"

  /** The widget's default options, in declaration order. */
  const Defaults: Utilities.Entries := [("resetHeight", Bool(true)), ("transitionEnabled", Bool(true))]

  datatype Options = Options(resetHeight: bool, transitionEnabled: bool)

  /** `Constructor` resolves the options with no overrides, from the body's
      `data-*` attributes. */
  function Configure(body: Utilities.Dataset): Options {
    var o := Utilities.Resolve(Defaults, None, Some(body), None);
    Options(Truthy(Utilities.Get(o, "resetHeight").GetOr(Undefined)),
            Truthy(Utilities.Get(o, "transitionEnabled").GetOr(Undefined)))
  }

  /** A body without `data-*` attributes keeps both defaults;
      `data-transition-enabled="false"` keeps `hold-transition` on the body. */
  lemma ConfigureFlags(body: Utilities.Dataset)
    ensures Configure(map[]) == Options(true, true)
    ensures "transitionEnabled" in body && body["transitionEnabled"] == "false" ==> !Configure(body).transitionEnabled
    ensures "resetHeight" in body && body["resetHeight"] == "false" ==> !Configure(body).resetHeight
  {
    assert Utilities.Get(Defaults, "resetHeight") == Some(Bool(true));
    assert Utilities.Get(Defaults, "transitionEnabled") == Some(Bool(true));
    Utilities.ResolveDefaultField(Defaults, Some(map[]), "resetHeight", Bool(true));
    Utilities.ResolveDefaultField(Defaults, Some(map[]), "transitionEnabled", Bool(true));
    Utilities.ResolveDefaultField(Defaults, Some(body), "resetHeight", Bool(true));
    Utilities.ResolveDefaultField(Defaults, Some(body), "transitionEnabled", Bool(true));
  }

  /** The page's geometry: the window's inner height, the heights of the
      parts that exist (`offsetHeight`, and `clientHeight` for the control
      sidebar), and which of the hooked elements exist. */
  datatype Page = Page(
    windowHeight: int,
    header: Option<int>,
    footer: Option<int>,
    sidebar: Option<int>,
    contentWrapper: bool,
    controlSidebar: Option<int>,
    logo: bool,
    sidebarMenu: bool)

  /** The height a non-fixed page needs: what the window leaves below the
      header and above the footer, or the sidebar's height when the sidebar
      is the taller. */
  function PageHeight(p: Page): int {
    if p.windowHeight >= p.sidebar.GetOr(0) then p.windowHeight - p.header.GetOr(0) - p.footer.GetOr(0)
    else p.sidebar.GetOr(0)
  }

  /** `fix()`: the content wrapper's new minimum height, or None when there
      is no wrapper (and nothing is set). On a fixed body it is the window
      height less the footer's; otherwise it is the window height less header
      and footer when the window is at least as tall as the sidebar, the
      sidebar height when not, raised to the control sidebar's height when
      that is taller. A missing part counts as height 0. */
  function Fix(body: set<string>, p: Page): (r: Option<int>)
    ensures r.Some? <==> p.contentWrapper
    ensures r.Some? && Fixed in body ==> r.value == p.windowHeight - p.footer.GetOr(0)
    ensures r.Some? && Fixed !in body && p.controlSidebar.None? ==> r.value == PageHeight(p)
    ensures r.Some? && Fixed !in body && p.controlSidebar.Some? ==>
              r.value >= PageHeight(p) && r.value >= p.controlSidebar.value &&
              (r.value == PageHeight(p) || r.value == p.controlSidebar.value)
  {
    if !p.contentWrapper then None
    else
      var footerHeight := if p.footer.Some? then p.footer.value else 0;
      var sidebarHeight := if p.sidebar.Some? then p.sidebar.value else 0;
      var neg := if p.header.Some? then p.header.value + footerHeight else footerHeight;
      if Fixed in body then Some(p.windowHeight - footerHeight)
      else
        var postSetHeight := if p.windowHeight >= sidebarHeight then p.windowHeight - neg else sidebarHeight;
        match p.controlSidebar
        case Some(h) => if h > postSetHeight then Some(h) else Some(postSetHeight)
        case None => Some(postSetHeight)
  }

  /** On a fixed body the header, the sidebar and the control sidebar play
      no part in the wrapper's height. */
  lemma FixFixedIgnores(body: set<string>, p: Page, header: Option<int>, sidebar: Option<int>, controlSidebar: Option<int>)
    requires Fixed in body
    ensures Fix(body, p) == Fix(body, p.(header := header, sidebar := sidebar, controlSidebar := controlSidebar))
  {
  }

  /** `fixSidebar()`: the sidebar's new height, set only when the sidebar
      exists and the body is fixed: the window height less the header's. */
  function FixSidebar(body: set<string>, p: Page): (r: Option<int>)
    ensures r.Some? <==> p.sidebar.Some? && Fixed in body
    ensures r.Some? ==> r.value == p.windowHeight - p.header.GetOr(0)
  {
    if p.sidebar.None? then None
    else if Fixed !in body then None
    else
      var headerHeight := if p.header.Some? then p.header.value else 0;
      Some(p.windowHeight - headerHeight)
  }

  /** A listener registration (`addEventListener` call) made by `activate`. */
  datatype Listener = WindowResize | LogoTransitionEnd | SidebarTransitionEnd | MenuTreeExpanded | MenuTreeCollapsed

  /** The widget's state: the body's classes, the heights last set, the
      bind-once flag, and every listener registration so far, in order. */
  datatype State = State(
    body: set<string>,
    wrapperMinHeight: Option<int>,
    sidebarHeight: Option<int>,
    bound: bool,
    registrations: seq<Listener>)

  /** The result of `activate`: the new state, and whether it threw (the
      sidebar menu is used without a null check). */
  datatype Outcome = Outcome(state: State, threw: bool)

  function Count(ls: seq<Listener>, l: Listener): nat
    decreases |ls|
  {
    if |ls| == 0 then 0 else Count(ls[..|ls| - 1], l) + (if ls[|ls| - 1] == l then 1 else 0)
  }

  lemma {:induction false} CountAppend(a: seq<Listener>, b: seq<Listener>, l: Listener)
    ensures Count(a + b, l) == Count(a, l) + Count(b, l)
    decreases |b|
  {
    if |b| > 0 {
      assert (a + b)[..|a + b| - 1] == a + b[..|b| - 1];
      assert (a + b)[|a + b| - 1] == b[|b| - 1];
      CountAppend(a, b[..|b| - 1], l);
    } else {
      assert a + b == a;
    }
  }

  /** `fixLayout()`: both height rules, each keeping the old height when it
      sets nothing. */
  function FixLayout(p: Page, s: State): State {
    var wrapper := Fix(s.body, p);
    var sidebar := FixSidebar(s.body, p);
    s.(wrapperMinHeight := if wrapper.Some? then wrapper else s.wrapperMinHeight,
       sidebarHeight := if sidebar.Some? then sidebar else s.sidebarHeight)
  }

  /** Fixing the layout again at the same geometry changes nothing: the
      heights depend only on the page and the body's classes, which the
      fix leaves alone. */
  lemma FixLayoutIdempotent(p: Page, s: State)
    ensures FixLayout(p, FixLayout(p, s)) == FixLayout(p, s)
    ensures FixLayout(p, s).body == s.body && FixLayout(p, s).registrations == s.registrations
  {
  }

  /** The registrations of the bind-once block. */
  function Bindings(p: Page, sidebarFound: bool): seq<Listener> {
    [WindowResize] + (if p.logo then [LogoTransitionEnd] else []) + (if sidebarFound then [SidebarTransitionEnd] else [])
  }

  /** The registrations one activation adds. */
  function Added(bound: bool, p: Page, sidebarFound: bool): seq<Listener> {
    (if bound then [] else Bindings(p, sidebarFound))
      + (if p.sidebarMenu then [MenuTreeExpanded, MenuTreeCollapsed] else [])
  }

  lemma AddedCounts(bound: bool, p: Page, sidebarFound: bool)
    ensures Count(Added(bound, p, sidebarFound), WindowResize) == (if bound then 0 else 1)
    ensures Count(Added(bound, p, sidebarFound), LogoTransitionEnd) == (if !bound && p.logo then 1 else 0)
    ensures Count(Added(bound, p, sidebarFound), SidebarTransitionEnd) == (if !bound && sidebarFound then 1 else 0)
  {
    var b := (if bound then [] else Bindings(p, sidebarFound));
    var m := (if p.sidebarMenu then [MenuTreeExpanded, MenuTreeCollapsed] else []);
    var l := (if p.logo then [LogoTransitionEnd] else []);
    var sb := (if sidebarFound then [SidebarTransitionEnd] else []);
    forall x | x in {WindowResize, LogoTransitionEnd, SidebarTransitionEnd}
      ensures Count(Added(bound, p, sidebarFound), x) == Count(b, x)
    {
      CountAppend(b, m, x);
      assert Count(m, x) == 0;
    }
    if !bound {
      forall x ensures Count(b, x) == Count([WindowResize], x) + Count(l, x) + Count(sb, x) {
        CountAppend([WindowResize] + l, sb, x);
        CountAppend([WindowResize], l, x);
      }
    }
  }

  /** `activate()`, parametrised by whether the lookup of the sidebar for its
      `transitionend` listener finds the sidebar. */
  function ActivateWith(sidebarFound: bool, o: Options, p: Page, s: State): Outcome {
    var s1 := FixLayout(p, s);
    var s2 := if o.transitionEnabled then s1.(body := s1.body - {HoldTransition}) else s1;
    var s3 := s2.(bound := true, registrations := s2.registrations + Added(s2.bound, p, sidebarFound));
    Outcome(s3, !p.sidebarMenu)
  }

  /** What one activation adds to the bind-once listeners: each of them once
      on the first activation (the sidebar's when it is found), nothing
      afterwards. */
  lemma ActivateStep(sidebarFound: bool, o: Options, p: Page, s: State)
    ensures var t := ActivateWith(sidebarFound, o, p, s).state;
            && t.bound
            && Count(t.registrations, WindowResize) == Count(s.registrations, WindowResize) + (if s.bound then 0 else 1)
            && Count(t.registrations, LogoTransitionEnd)
                 == Count(s.registrations, LogoTransitionEnd) + (if !s.bound && p.logo then 1 else 0)
            && Count(t.registrations, SidebarTransitionEnd)
                 == Count(s.registrations, SidebarTransitionEnd) + (if !s.bound && sidebarFound then 1 else 0)
  {
    CountAppend(s.registrations, Added(s.bound, p, sidebarFound), WindowResize);
    CountAppend(s.registrations, Added(s.bound, p, sidebarFound), LogoTransitionEnd);
    CountAppend(s.registrations, Added(s.bound, p, sidebarFound), SidebarTransitionEnd);
    AddedCounts(s.bound, p, sidebarFound);
  }

  /** `activate()` as written: the sidebar is looked up with the selector
      `ClassName.sidebar`, which is undefined, so the sidebar is never found.
      The resize and logo listeners are still bound once, on the first
      activation; the sidebar's never is. */
  function ActivateAsWritten(o: Options, p: Page, s: State): (r: Outcome)
    ensures r.threw <==> !p.sidebarMenu
    ensures r.state.bound
    ensures Count(r.state.registrations, WindowResize) == Count(s.registrations, WindowResize) + (if s.bound then 0 else 1)
    ensures Count(r.state.registrations, LogoTransitionEnd)
              == Count(s.registrations, LogoTransitionEnd) + (if !s.bound && p.logo then 1 else 0)
    ensures Count(r.state.registrations, SidebarTransitionEnd) == Count(s.registrations, SidebarTransitionEnd)
  {
    ActivateStep(false, o, p, s);
    ActivateWith(false, o, p, s)
  }

  /** `activate()` with its evident intent: the sidebar's `transitionend`
      listener is bound when the sidebar exists. */
  function Activate(o: Options, p: Page, s: State): (r: Outcome)
    ensures r.threw <==> !p.sidebarMenu
    ensures o.transitionEnabled ==> r.state.body == s.body - {HoldTransition}
    ensures !o.transitionEnabled ==> r.state.body == s.body
    ensures r.state.bound
    ensures r.state.wrapperMinHeight == if p.contentWrapper then Fix(s.body, p) else s.wrapperMinHeight
    ensures r.state.sidebarHeight == if FixSidebar(s.body, p).Some? then FixSidebar(s.body, p) else s.sidebarHeight
    ensures Count(r.state.registrations, SidebarTransitionEnd)
              == Count(s.registrations, SidebarTransitionEnd) + (if !s.bound && p.sidebar.Some? then 1 else 0)
  {
    ActivateStep(p.sidebar.Some?, o, p, s);
    ActivateWith(p.sidebar.Some?, o, p, s)
  }

  /** On a page without a sidebar the source's activation is the intended
      one. */
  lemma ActivateAgrees(o: Options, p: Page, s: State)
    requires p.sidebar.None?
    ensures ActivateAsWritten(o, p, s) == Activate(o, p, s)
  {
  }

  /** The state before the first activation. */
  const Initial := State({}, None, None, false, [])

  /** `n` activations in a row from the state `s`, each finding the sidebar
      or not as `sidebarFound` says: `p.sidebar.Some?` for the intended
      activation, false for the source's. */
  function ActivateTimes(sidebarFound: bool, o: Options, p: Page, s: State, n: nat): State
    decreases n
  {
    if n == 0 then s else ActivateTimes(sidebarFound, o, p, ActivateWith(sidebarFound, o, p, s).state, n - 1)
  }

  /** However often `activate` runs, the resize listener and each
      `transitionend` listener are registered at most once: once the widget
      has been activated, exactly once each (the sidebar's when it is
      found). */
  lemma {:induction false} BindOnce(sidebarFound: bool, o: Options, p: Page, s: State, n: nat)
    requires Count(s.registrations, WindowResize) == (if s.bound then 1 else 0)
    requires Count(s.registrations, SidebarTransitionEnd) == (if s.bound && sidebarFound then 1 else 0)
    requires Count(s.registrations, LogoTransitionEnd) == (if s.bound && p.logo then 1 else 0)
    ensures var t := ActivateTimes(sidebarFound, o, p, s, n);
            && t.bound == (s.bound || n > 0)
            && Count(t.registrations, WindowResize) == (if t.bound then 1 else 0)
            && Count(t.registrations, SidebarTransitionEnd) == (if t.bound && sidebarFound then 1 else 0)
            && Count(t.registrations, LogoTransitionEnd) == (if t.bound && p.logo then 1 else 0)
    decreases n
  {
    if n > 0 {
      ActivateStep(sidebarFound, o, p, s);
      BindOnce(sidebarFound, o, p, ActivateWith(sidebarFound, o, p, s).state, n - 1);
    }
  }

  /** From the initial state, any number of intended activations binds the
      resize listener at most once, and the sidebar's `transitionend`
      listener exactly once when the sidebar exists. */
  lemma ResizeBoundAtMostOnce(o: Options, p: Page, n: nat)
    ensures Count(ActivateTimes(p.sidebar.Some?, o, p, Initial, n).registrations, WindowResize) <= 1
    ensures n > 0 && p.sidebar.Some? ==>
              Count(ActivateTimes(p.sidebar.Some?, o, p, Initial, n).registrations, SidebarTransitionEnd) == 1
  {
    BindOnce(p.sidebar.Some?, o, p, Initial, n);
  }

  /** On a page that has a sidebar, however often the source's `activate`
      runs from the initial state, no `transitionend` listener is ever bound
      to the sidebar, while the resize listener is bound exactly once. */
  lemma SidebarNeverBound(o: Options, p: Page, n: nat)
    requires p.sidebar.Some?
    ensures var t := ActivateTimes(false, o, p, Initial, n);
            && Count(t.registrations, SidebarTransitionEnd) == 0
            && Count(t.registrations, WindowResize) == (if n > 0 then 1 else 0)
            && Count(t.registrations, LogoTransitionEnd) == (if n > 0 && p.logo then 1 else 0)
  {
    BindOnce(false, o, p, Initial, n);
  }
}
