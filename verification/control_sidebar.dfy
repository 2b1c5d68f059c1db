/** The `ControlSidebar` widget: a `[data-toggle="control-sidebar"]` button
    opens and closes the control sidebar by the `control-sidebar-open` class,
    put on the page body when `slide` is off and on the sidebar itself when
    it is on. Each click runs the whole constructor again: the options are
    read afresh, the sidebar is looked up, and the sidebar toggles. */
module ControlSidebar {
  import opened Values
  import Utilities

  const OpenClass := "control-sidebar-open"

  const Defaults: Utilities.Entries := [("slide", Bool(true))]

  /** The `slide` option as the constructor reads it through `grabOptions`:
      truthy unless overridden, `data-slide="false"` makes it false. */
  function Slide(current: Option<Utilities.Entries>, element: Option<Utilities.Dataset>): bool {
    Truthy(Utilities.Get(Utilities.Resolve(Defaults, current, element, None), "slide").GetOr(Undefined))
  }

  lemma SlideFlag(element: Option<Utilities.Dataset>)
    ensures Slide(None, None)
    ensures element.Some? && "slide" in element.value && element.value["slide"] == "false" ==> !Slide(None, element)
    ensures element.Some? && "slide" in element.value && element.value["slide"] != "" ==>
              (Slide(None, element) <==> element.value["slide"] != "false")
  {
    assert Utilities.Get(Defaults, "slide") == Some(Bool(true));
    Utilities.ResolveDefaultField(Defaults, None, "slide", Bool(true));
    Utilities.ResolveDefaultField(Defaults, element, "slide", Bool(true));
  }

  /** The custom events dispatched on the sidebar element. */
  datatype Event = Expanded | Collapsed

  /** The page: whether a `.control-sidebar` element exists, whether the body
      and the sidebar carry `control-sidebar-open`, and whether the window's
      resize listener (`fix`) is in place. */
  datatype State = State(sidebarExists: bool, bodyOpen: bool, sidebarOpen: bool, resizeBound: bool)

  /** The page after an operation, and the events dispatched on the way. */
  datatype Outcome = Outcome(state: State, events: seq<Event>)

  /** Whether the sidebar counts as open, as `toggle` decides it. */
  predicate IsOpen(s: State) {
    s.bodyOpen || s.sidebarOpen
  }

  /** `expand()`. */
  function Expand(slide: bool, s: State): (r: Outcome)
    ensures r.events == [Expanded] && IsOpen(r.state)
    ensures !slide ==> r.state == s.(bodyOpen := true)
    ensures slide ==> r.state == s.(sidebarOpen := true)
  {
    if !slide then Outcome(s.(bodyOpen := true), [Expanded])
    else Outcome(s.(sidebarOpen := true), [Expanded])
  }

  /** `collapse()`: the class goes from both the body and the sidebar,
      whichever `slide` put it on. */
  function Collapse(s: State): (r: Outcome)
    ensures r.events == [Collapsed] && !IsOpen(r.state)
    ensures r.state == s.(bodyOpen := false, sidebarOpen := false)
  {
    Outcome(s.(bodyOpen := false, sidebarOpen := false), [Collapsed])
  }

  /** `toggle()`: without a sidebar nothing happens; otherwise a closed
      sidebar expands and an open one collapses. */
  function Toggle(slide: bool, s: State): (r: Outcome)
    ensures !s.sidebarExists ==> r == Outcome(s, [])
    ensures s.sidebarExists ==> (IsOpen(r.state) <==> !IsOpen(s))
    ensures s.sidebarExists ==> |r.events| == 1 && (r.events[0] == Expanded <==> !IsOpen(s))
    ensures r.state.sidebarExists == s.sidebarExists && r.state.resizeBound == s.resizeBound
  {
    if !s.sidebarExists then Outcome(s, [])
    else if !s.sidebarOpen && !s.bodyOpen then Expand(slide, s)
    else Collapse(s)
  }

  /** A click on the button: the constructor runs with the button's options,
      toggles the sidebar, and binds `fix` to window resizes (binding the
      same listener again adds nothing). */
  function Click(current: Option<Utilities.Entries>, element: Option<Utilities.Dataset>, s: State): (r: Outcome)
    ensures r.state.resizeBound
    ensures r.events == Toggle(Slide(current, element), s).events
    ensures r.state.(resizeBound := s.resizeBound) == Toggle(Slide(current, element), s).state
  {
    var t := Toggle(Slide(current, element), s);
    Outcome(t.state.(resizeBound := true), t.events)
  }

  /** From closed, two toggles open and close again, whatever `slide` was
      each time; the events are one expansion, then one collapse. */
  lemma ToggleTwice(slide1: bool, slide2: bool, s: State)
    requires s.sidebarExists && !IsOpen(s)
    ensures var t1 := Toggle(slide1, s);
            var t2 := Toggle(slide2, t1.state);
            t2.state == s && t1.events + t2.events == [Expanded, Collapsed]
  {
  }

  /** Two clicks on a page with a sidebar leave it as it was (once the resize
      listener is bound), and the button's `data-slide` decides only where the
      class sits in between. */
  lemma ClickTwice(current: Option<Utilities.Entries>, element: Option<Utilities.Dataset>, s: State)
    requires s.sidebarExists && !IsOpen(s) && s.resizeBound
    ensures var c1 := Click(current, element, s);
            && Click(current, element, c1.state).state == s
            && (Slide(current, element) ==> c1.state.sidebarOpen && !c1.state.bodyOpen)
            && (!Slide(current, element) ==> c1.state.bodyOpen && !c1.state.sidebarOpen)
  {
  }
}
