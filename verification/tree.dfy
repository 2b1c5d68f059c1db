/** The `Tree` widget: a nested list turned into a collapsible menu. Each
    item (`LI.treeview`) opens and closes by the `menu-open` class on a click
    of its link; in accordion mode, opening an item first closes its open
    sibling items. The state change is immediate; the slide animations only
    delay the `tree_expanded` and `tree_collapsed` notifications, which are
    counted here. */
module Tree {
  import opened Values
  import opened Dom
  import Utilities

  const Open := "menu-open"
  const TreeClass := "tree"
  const Treeview := "treeview"
  const TreeviewMenu := "treeview-menu"
  const Active := "active"

  /** The widget's default options, in declaration order. */
  const Defaults: Utilities.Entries := [
    ("animationSpeed", Num(300)),
    ("accordion", Bool(true)),
    ("followLink", Bool(true)),
    ("trigger", Str(".treeview a")),
    ("easing", Str("easeInSine"))
  ]

  /** The options the state machine reads. */
  datatype Options = Options(accordion: bool, followLink: bool)

  /** The options a tree element ends up with, from the caller's overrides
      and the element's `data-*` attributes. */
  function Configure(current: Option<Utilities.Entries>, element: Option<Utilities.Dataset>): Options {
    var o := Utilities.Resolve(Defaults, current, element, None);
    Options(Truthy(Utilities.Get(o, "accordion").GetOr(Undefined)),
            Truthy(Utilities.Get(o, "followLink").GetOr(Undefined)))
  }

  /** With nothing overridden both flags are on; `data-accordion="false"`
      turns accordion mode off, while `data-accordion="true"` (a non-empty
      string) keeps it on. */
  lemma ConfigureFlags(element: Option<Utilities.Dataset>)
    ensures Configure(None, None) == Options(true, true)
    ensures element.Some? && "accordion" in element.value && element.value["accordion"] == "false" ==>
              !Configure(None, element).accordion
    ensures element.Some? && "accordion" in element.value && element.value["accordion"] == "true" ==>
              Configure(None, element).accordion
  {
    assert Utilities.Get(Defaults, "accordion") == Some(Bool(true));
    assert Utilities.Get(Defaults, "followLink") == Some(Bool(true));
    Utilities.ResolveDefaultField(Defaults, None, "accordion", Bool(true));
    Utilities.ResolveDefaultField(Defaults, None, "followLink", Bool(true));
    Utilities.ResolveDefaultField(Defaults, element, "accordion", Bool(true));
  }

  /** Notifications dispatched on the tree element once the animations end. */
  datatype Notices = Notices(expanded: nat, collapsed: nat)

  /** The result of a click: the new document, whether the link's default
      navigation is suppressed, and the notifications that will follow. */
  datatype Outcome = Outcome(doc: Elem, preventDefault: bool, notices: Notices)

  /** An open item: an `LI` carrying `menu-open`. */
  predicate OpenItem(n: Elem) {
    n.name == "LI" && Open in n.classes
  }

  /** The number of submenu lists (`UL.treeview-menu` children) of an item:
      one slide-up, and so one `tree_collapsed`, per list. */
  function Submenus(item: Elem): nat {
    |Utilities.ChildrenMatching(item.children, "UL", TreeviewMenu)|
  }

  /** The submenu lists of the open items among `cs`. */
  function OpenSubmenus(cs: seq<Elem>): nat
    decreases |cs|
  {
    if |cs| == 0 then 0
    else OpenSubmenus(cs[..|cs| - 1]) + (if OpenItem(cs[|cs| - 1]) then Submenus(cs[|cs| - 1]) else 0)
  }

  /** The number of open items among `cs`. */
  function OpenCount(cs: seq<Elem>): nat
    decreases |cs|
  {
    if |cs| == 0 then 0
    else OpenCount(cs[..|cs| - 1]) + (if OpenItem(cs[|cs| - 1]) then 1 else 0)
  }

  /** The item owning a link: the link's parent element. */
  function Item(doc: Elem, link: Path): Elem
    requires ValidPath(doc, link) && |link| >= 1
    ensures ValidPath(doc, Parent(link))
  {
    PrefixValid(doc, link, |link| - 1);
    At(doc, Parent(link))
  }

  /** `collapse`: the item loses `menu-open`. */
  function CollapseEdit(li: Path): (Path, Elem) -> set<string> {
    (p: Path, n: Elem) => if p == li then n.classes - {Open} else n.classes
  }

  /** `expand`: in accordion mode the open `LI` children of the item's parent
      lose `menu-open`; then the item gains it. */
  function ExpandEdit(li: Path, accordion: bool): (Path, Elem) -> set<string> {
    (p: Path, n: Elem) =>
      if p == li then n.classes + {Open}
      else if accordion && SameParent(p, li) && OpenItem(n) then n.classes - {Open}
      else n.classes
  }

  /** `collapse(treeviewMenu, parentLi)`. */
  function Collapse(doc: Elem, li: Path): (r: Outcome)
    requires ValidPath(doc, li)
    ensures forall q :: ValidPath(r.doc, q) <==> ValidPath(doc, q)
  {
    MapClassesShape(doc, [], CollapseEdit(li));
    Outcome(MapClasses(doc, [], CollapseEdit(li)), false, Notices(0, Submenus(At(doc, li))))
  }

  /** `expand(treeviewMenu, parentLi)`. When the item is the document's root
      element its parent is the document node, which has no `LI` children,
      so nothing is closed. */
  function Expand(o: Options, doc: Elem, li: Path): (r: Outcome)
    requires ValidPath(doc, li)
    ensures forall q :: ValidPath(r.doc, q) <==> ValidPath(doc, q)
  {
    MapClassesShape(doc, [], ExpandEdit(li, o.accordion));
    var closed :=
      if o.accordion && |li| >= 1 then
        PrefixValid(doc, li, |li| - 1);
        OpenSubmenus(At(doc, Parent(li)).children)
      else 0;
    Outcome(MapClasses(doc, [], ExpandEdit(li, o.accordion)), false, Notices(1, closed))
  }

  /** `toggle(link, event)`: a click on the link at path `link`. A link whose
      item lacks `treeview` is left alone (it navigates). Otherwise navigation
      is suppressed exactly when `followLink` is off or the `href` is exactly
      `'#'`, and the item is collapsed when open and expanded when not. */
  function Toggle(o: Options, doc: Elem, link: Path): (r: Outcome)
    requires ValidPath(doc, link) && |link| >= 1
    ensures forall q :: ValidPath(r.doc, q) <==> ValidPath(doc, q)
    ensures r.preventDefault <==>
              Treeview in Item(doc, link).classes && (!o.followLink || At(doc, link).href == Some("#"))
    ensures Treeview !in Item(doc, link).classes ==> r == Outcome(doc, false, Notices(0, 0))
    ensures r.notices.expanded == (if Treeview in Item(doc, link).classes && Open !in Item(doc, link).classes then 1 else 0)
  {
    var li := Parent(link);
    var item := Item(doc, link);
    if Treeview !in item.classes then Outcome(doc, false, Notices(0, 0))
    else
      var prevent := !o.followLink || At(doc, link).href == Some("#");
      if Open in item.classes then Collapse(doc, li).(preventDefault := prevent)
      else Expand(o, doc, li).(preventDefault := prevent)
  }

  /** The class edit a click applies, element by element. */
  function ToggleEdit(o: Options, doc: Elem, link: Path): (Path, Elem) -> set<string>
    requires ValidPath(doc, link) && |link| >= 1
  {
    var item := Item(doc, link);
    if Treeview !in item.classes then (p: Path, n: Elem) => n.classes
    else if Open in item.classes then CollapseEdit(Parent(link))
    else ExpandEdit(Parent(link), o.accordion)
  }

  lemma ToggleIsEdit(o: Options, doc: Elem, link: Path, q: Path)
    requires ValidPath(doc, link) && |link| >= 1
    ensures ValidPath(Toggle(o, doc, link).doc, q) <==> ValidPath(doc, q)
    ensures ValidPath(doc, q) ==>
              && At(Toggle(o, doc, link).doc, q).name == At(doc, q).name
              && At(Toggle(o, doc, link).doc, q).href == At(doc, q).href
              && At(Toggle(o, doc, link).doc, q).classes == ToggleEdit(o, doc, link)(q, At(doc, q))
              && |At(Toggle(o, doc, link).doc, q).children| == |At(doc, q).children|
  {
    var item := Item(doc, link);
    assert [] + q == q;
    if Treeview in item.classes {
      MapClassesAt(doc, [], ToggleEdit(o, doc, link), q);
    }
  }

  /** A click keeps the document's shape, names and links, and changes the
      classes of no element other than the clicked item and its siblings: open
      branches at other nesting levels are untouched. */
  lemma ToggleFrame(o: Options, doc: Elem, link: Path)
    requires ValidPath(doc, link) && |link| >= 1
    ensures forall q :: ValidPath(Toggle(o, doc, link).doc, q) <==> ValidPath(doc, q)
    ensures forall q :: ValidPath(doc, q) ==>
              && At(Toggle(o, doc, link).doc, q).name == At(doc, q).name
              && At(Toggle(o, doc, link).doc, q).href == At(doc, q).href
    ensures forall q :: ValidPath(doc, q) && q != Parent(link) && !SameParent(q, Parent(link)) ==>
              At(Toggle(o, doc, link).doc, q).classes == At(doc, q).classes
  {
    forall q ensures ValidPath(Toggle(o, doc, link).doc, q) <==> ValidPath(doc, q) {
      ToggleIsEdit(o, doc, link, q);
    }
    forall q | ValidPath(doc, q)
      ensures && At(Toggle(o, doc, link).doc, q).name == At(doc, q).name
              && At(Toggle(o, doc, link).doc, q).href == At(doc, q).href
              && (q != Parent(link) && !SameParent(q, Parent(link)) ==>
                    At(Toggle(o, doc, link).doc, q).classes == At(doc, q).classes)
    {
      ToggleIsEdit(o, doc, link, q);
    }
  }

  /** Clicking an open item removes `menu-open` from that item only: its
      siblings and its nested items keep their classes; one `tree_collapsed`
      follows per submenu list of the item. */
  lemma ToggleCollapses(o: Options, doc: Elem, link: Path)
    requires ValidPath(doc, link) && |link| >= 1
    requires Treeview in Item(doc, link).classes && Open in Item(doc, link).classes
    ensures var r := Toggle(o, doc, link);
            && ValidPath(r.doc, Parent(link))
            && Open !in At(r.doc, Parent(link)).classes
            && At(r.doc, Parent(link)).classes == Item(doc, link).classes - {Open}
            && r.notices == Notices(0, Submenus(Item(doc, link)))
    ensures forall q :: ValidPath(doc, q) && q != Parent(link) ==>
              At(Toggle(o, doc, link).doc, q).classes == At(doc, q).classes
  {
    PrefixValid(doc, link, |link| - 1);
    ToggleIsEdit(o, doc, link, Parent(link));
    forall q | ValidPath(doc, q) && q != Parent(link)
      ensures At(Toggle(o, doc, link).doc, q).classes == At(doc, q).classes
    {
      ToggleIsEdit(o, doc, link, q);
    }
  }

  /** Accordion mode: after a closed item is opened it is the only `LI`
      child of its parent list carrying `menu-open`; the siblings that were
      open lose exactly `menu-open`; one `tree_expanded` follows, and one
      `tree_collapsed` per submenu list of the siblings that were open. */
  lemma ToggleExpandsAccordion(o: Options, doc: Elem, link: Path)
    requires ValidPath(doc, link) && |link| >= 2
    requires o.accordion
    requires Treeview in Item(doc, link).classes && Open !in Item(doc, link).classes
    ensures var r := Toggle(o, doc, link);
            var list := Parent(Parent(link));
            && ValidPath(doc, list)
            && ValidPath(r.doc, list)
            && ValidPath(r.doc, Parent(link))
            && Open in At(r.doc, Parent(link)).classes
            && (forall i :: 0 <= i < |At(r.doc, list).children| ==>
                  (OpenItem(At(r.doc, list).children[i]) <==> list + [i] == Parent(link) && Item(doc, link).name == "LI"))
            && r.notices == Notices(1, OpenSubmenus(At(doc, list).children))
    ensures forall q :: ValidPath(doc, q) && SameParent(q, Parent(link)) && q != Parent(link) ==>
              At(Toggle(o, doc, link).doc, q).classes
                == if OpenItem(At(doc, q)) then At(doc, q).classes - {Open} else At(doc, q).classes
  {
    var r := Toggle(o, doc, link);
    var li := Parent(link);
    var list := Parent(li);
    PrefixValid(doc, link, |link| - 2);
    assert link[..|link| - 2] == list;
    assert li[..|li| - 1] == list;
    ToggleIsEdit(o, doc, link, li);
    ToggleIsEdit(o, doc, link, list);
    forall i | 0 <= i < |At(r.doc, list).children|
      ensures OpenItem(At(r.doc, list).children[i]) <==> list + [i] == li && Item(doc, link).name == "LI"
    {
      AtChild(doc, list, i);
      AtChild(r.doc, list, i);
      ToggleIsEdit(o, doc, link, list + [i]);
      assert Parent(list + [i]) == list;
    }
    forall q | ValidPath(doc, q) && SameParent(q, li) && q != li
      ensures At(r.doc, q).classes
                == if OpenItem(At(doc, q)) then At(doc, q).classes - {Open} else At(doc, q).classes
    {
      ToggleIsEdit(o, doc, link, q);
    }
  }

  /** Without accordion mode, opening a closed item adds `menu-open` to it and
      changes nothing else. */
  lemma ToggleExpandsAlone(o: Options, doc: Elem, link: Path)
    requires ValidPath(doc, link) && |link| >= 1
    requires !o.accordion
    requires Treeview in Item(doc, link).classes && Open !in Item(doc, link).classes
    ensures var r := Toggle(o, doc, link);
            && ValidPath(r.doc, Parent(link))
            && At(r.doc, Parent(link)).classes == Item(doc, link).classes + {Open}
            && r.notices == Notices(1, 0)
    ensures forall q :: ValidPath(doc, q) && q != Parent(link) ==>
              At(Toggle(o, doc, link).doc, q).classes == At(doc, q).classes
  {
    PrefixValid(doc, link, |link| - 1);
    ToggleIsEdit(o, doc, link, Parent(link));
    forall q | ValidPath(doc, q) && q != Parent(link)
      ensures At(Toggle(o, doc, link).doc, q).classes == At(doc, q).classes
    {
      ToggleIsEdit(o, doc, link, q);
    }
  }

  /** Without accordion mode, two clicks on a closed item restore the
      document exactly. */
  lemma ToggleTwice(o: Options, doc: Elem, link: Path)
    requires ValidPath(doc, link) && |link| >= 1
    requires !o.accordion
    requires Treeview in Item(doc, link).classes && Open !in Item(doc, link).classes
    ensures ValidPath(Toggle(o, doc, link).doc, link)
    ensures var r1 := Toggle(o, doc, link);
            var r2 := Toggle(o, r1.doc, link);
            r2.doc == doc && r1.notices == Notices(1, 0) && r2.notices == Notices(0, Submenus(Item(doc, link)))
  {
    var li := Parent(link);
    var r1 := Toggle(o, doc, link);
    ToggleFrame(o, doc, link);
    ToggleExpandsAlone(o, doc, link);
    PrefixValid(doc, link, |link| - 1);
    assert ValidPath(r1.doc, link);
    PrefixValid(r1.doc, link, |link| - 1);
    assert Item(r1.doc, link).classes == Item(doc, link).classes + {Open};
    var r2 := Toggle(o, r1.doc, link);
    ToggleFrame(o, r1.doc, link);
    ToggleCollapses(o, r1.doc, link);
    assert Item(r1.doc, link).name == Item(doc, link).name;
    assert Item(r1.doc, link).children == Item(doc, link).children by {
      // the item's subtree is unchanged: only the item's own classes moved
      ItemSubtreeKept(o, doc, link);
    }
    forall q | ValidPath(r2.doc, q)
      ensures Label(At(r2.doc, q)) == Label(At(doc, q))
    {
      if q == li {
        assert (Item(doc, link).classes + {Open}) - {Open} == Item(doc, link).classes;
      }
    }
    Extensionality(r2.doc, doc);
  }

  /** Clicking an item never changes the elements below it. */
  lemma ItemSubtreeKept(o: Options, doc: Elem, link: Path)
    requires ValidPath(doc, link) && |link| >= 1
    ensures ValidPath(Toggle(o, doc, link).doc, Parent(link))
    ensures Item(Toggle(o, doc, link).doc, link).children == Item(doc, link).children
  {
    var r := Toggle(o, doc, link);
    var li := Parent(link);
    PrefixValid(doc, link, |link| - 1);
    ToggleFrame(o, doc, link);
    var a := Item(r.doc, link);
    var b := Item(doc, link);
    assert |a.children| == |b.children| by { ToggleIsEdit(o, doc, link, li); }
    forall i | 0 <= i < |a.children|
      ensures a.children[i] == b.children[i]
    {
      AtChild(doc, li, i);
      AtChild(r.doc, li, i);
      forall q ensures ValidPath(a.children[i], q) <==> ValidPath(b.children[i], q) {
        AtConcat(r.doc, li + [i], q);
        AtConcat(doc, li + [i], q);
      }
      forall q | ValidPath(a.children[i], q)
        ensures Label(At(a.children[i], q)) == Label(At(b.children[i], q))
      {
        AtConcat(r.doc, li + [i], q);
        AtConcat(doc, li + [i], q);
        var p := li + [i] + q;
        assert |p| > |li|;
        assert !SameParent(p, li);
      }
      Extensionality(a.children[i], b.children[i]);
    }
  }

  /** The accordion invariant: no list has two open `LI` children. */
  ghost predicate AccordionHolds(doc: Elem) {
    forall q :: ValidPath(doc, q) ==> OpenCount(At(doc, q).children) <= 1
  }

  lemma {:induction false} OpenCountMonotone(a: seq<Elem>, b: seq<Elem>)
    requires |a| == |b|
    requires forall i :: 0 <= i < |b| && OpenItem(b[i]) ==> OpenItem(a[i])
    ensures OpenCount(b) <= OpenCount(a)
    decreases |a|
  {
    if |a| > 0 {
      OpenCountMonotone(a[..|a| - 1], b[..|b| - 1]);
    }
  }

  lemma {:induction false} OpenCountSingle(cs: seq<Elem>, k: int)
    requires forall i :: 0 <= i < |cs| && OpenItem(cs[i]) ==> i == k
    ensures OpenCount(cs) <= if 0 <= k < |cs| then 1 else 0
    decreases |cs|
  {
    if |cs| > 0 {
      OpenCountSingle(cs[..|cs| - 1], k);
    }
  }

  /** The list holding a freshly opened item has no open item but that one. */
  lemma OpenedListSingle(o: Options, doc: Elem, link: Path, q: Path)
    requires ValidPath(doc, link) && |link| >= 2 && o.accordion
    requires Treeview in Item(doc, link).classes && Open !in Item(doc, link).classes
    requires q == Parent(Parent(link)) && ValidPath(doc, q)
    ensures ValidPath(Toggle(o, doc, link).doc, q)
    ensures OpenCount(At(Toggle(o, doc, link).doc, q).children) <= 1
  {
    var r := Toggle(o, doc, link);
    var li := Parent(link);
    var b := At(r.doc, q).children;
    var k := li[|li| - 1];
    assert li == q + [k];
    forall i | 0 <= i < |b| && OpenItem(b[i])
      ensures i == k
    {
      AtChild(doc, q, i);
      AtChild(r.doc, q, i);
      ToggleIsEdit(o, doc, link, q + [i]);
      assert Parent(q + [i]) == q;
      assert SameParent(q + [i], li);
      assert q + [i] == li;
      assert (q + [i])[|q|] == i;
    }
    OpenCountSingle(b, k);
  }

  /** An element that is neither a freshly opened item nor one of its
      siblings becomes an open item only if it was one. */
  lemma NoNewOpenItem(o: Options, doc: Elem, link: Path, p: Path)
    requires ValidPath(doc, link) && |link| >= 1 && ValidPath(doc, p)
    requires Treeview in Item(doc, link).classes && Open !in Item(doc, link).classes ==>
               p != Parent(link) && !SameParent(p, Parent(link))
    ensures ValidPath(Toggle(o, doc, link).doc, p)
    ensures OpenItem(At(Toggle(o, doc, link).doc, p)) ==> OpenItem(At(doc, p))
  {
    var li := Parent(link);
    var item := Item(doc, link);
    ToggleIsEdit(o, doc, link, p);
    if Treeview !in item.classes {
    } else if Open in item.classes {
      assert ToggleEdit(o, doc, link)(p, At(doc, p)) == CollapseEdit(li)(p, At(doc, p));
    } else {
      assert ToggleEdit(o, doc, link)(p, At(doc, p)) == At(doc, p).classes;
    }
  }

  /** A child of a list other than the one holding a freshly opened item is
      an open item after the click only if it was one before. */
  lemma OtherListChild(o: Options, doc: Elem, link: Path, q: Path, i: nat)
    requires ValidPath(doc, link) && |link| >= 1 && ValidPath(doc, q)
    requires Treeview in Item(doc, link).classes && Open !in Item(doc, link).classes ==>
               |link| == 1 || q != Parent(Parent(link))
    requires i < |At(doc, q).children|
    ensures ValidPath(Toggle(o, doc, link).doc, q)
    ensures i < |At(Toggle(o, doc, link).doc, q).children|
    ensures OpenItem(At(Toggle(o, doc, link).doc, q).children[i]) ==> OpenItem(At(doc, q).children[i])
  {
    ToggleIsEdit(o, doc, link, q);
    AtChild(doc, q, i);
    AtChild(Toggle(o, doc, link).doc, q, i);
    assert Parent(q + [i]) == q;
    NoNewOpenItem(o, doc, link, q + [i]);
  }

  /** Every list other than the one holding a freshly opened item has no
      open item that was not open before. */
  lemma OtherListShrinks(o: Options, doc: Elem, link: Path, q: Path)
    requires ValidPath(doc, link) && |link| >= 1 && ValidPath(doc, q)
    requires Treeview in Item(doc, link).classes && Open !in Item(doc, link).classes ==>
               |link| == 1 || q != Parent(Parent(link))
    ensures ValidPath(Toggle(o, doc, link).doc, q)
    ensures OpenCount(At(Toggle(o, doc, link).doc, q).children) <= OpenCount(At(doc, q).children)
  {
    var r := Toggle(o, doc, link);
    ToggleIsEdit(o, doc, link, q);
    var a := At(doc, q).children;
    var b := At(r.doc, q).children;
    forall i | 0 <= i < |b| && OpenItem(b[i])
      ensures OpenItem(a[i])
    {
      OtherListChild(o, doc, link, q, i);
    }
    OpenCountMonotone(a, b);
  }

  /** In accordion mode a click keeps the accordion invariant. */
  lemma ToggleKeepsAccordion(o: Options, doc: Elem, link: Path)
    requires ValidPath(doc, link) && |link| >= 1
    requires o.accordion && AccordionHolds(doc)
    ensures AccordionHolds(Toggle(o, doc, link).doc)
  {
    var r := Toggle(o, doc, link);
    var item := Item(doc, link);
    forall q: Path | ValidPath(r.doc, q)
      ensures OpenCount(At(r.doc, q).children) <= 1
    {
      if Treeview in item.classes && Open !in item.classes && |link| >= 2 && q == Parent(Parent(link)) {
        OpenedListSingle(o, doc, link, q);
      } else {
        OtherListShrinks(o, doc, link, q);
      }
    }
  }

  // ---------------------------------------------------------------------
  // Constructor
  // ---------------------------------------------------------------------

  /** The selector `.treeview.active`. */
  predicate IsActive(n: Elem) {
    Treeview in n.classes && Active in n.classes
  }

  /** `querySelector` below `e`, starting at its `k`th child: the first
      matching descendant in document order, as a path from `e`. */
  function FindFrom(e: Elem, k: nat): Option<Path>
    decreases e, |e.children| - k
  {
    if k >= |e.children| then None
    else if IsActive(e.children[k]) then Some([k])
    else match FindFrom(e.children[k], 0)
      case Some(p) => Some([k] + p)
      case None => FindFrom(e, k + 1)
  }

  /** `element.querySelector('.treeview.active')`. */
  function FirstActive(e: Elem): Option<Path> {
    FindFrom(e, 0)
  }

  /** Document order: `a` comes before `b` when it is a proper prefix of `b`
      (an ancestor) or branches off to an earlier sibling. */
  predicate Precedes(a: Path, b: Path)
    decreases |a|
  {
    |b| > 0 && (|a| == 0 || a[0] < b[0] || (a[0] == b[0] && Precedes(a[1..], b[1..])))
  }

  /** No descendant in the subtrees from the `k`th child on is active. */
  ghost predicate NoActiveFrom(e: Elem, k: nat) {
    forall q :: ValidPath(e, q) && |q| >= 1 && q[0] >= k ==> !IsActive(At(e, q))
  }

  /** `p` leads to an active descendant in the subtrees from the `k`th child
      on, and no active descendant there comes before it in document order. */
  ghost predicate FirstActiveFrom(e: Elem, k: nat, p: Path) {
    && ValidPath(e, p) && |p| >= 1 && p[0] >= k && IsActive(At(e, p))
    && forall q :: ValidPath(e, q) && |q| >= 1 && q[0] >= k && Precedes(q, p) ==> !IsActive(At(e, q))
  }

  /** A path into the `k`th child's subtree, seen from that child. */
  lemma Descend(e: Elem, k: nat, q: Path)
    requires k < |e.children| && ValidPath(e, q) && |q| >= 1 && q[0] == k
    ensures q == [k] + q[1..]
    ensures ValidPath(e.children[k], q[1..]) && At(e, q) == At(e.children[k], q[1..])
  {
    assert q == [k] + q[1..];
    ThroughChild(e, k, q[1..]);
  }

  /** Nothing in the subtree of an inactive `k`th child without active
      descendants is active. */
  lemma CleanChild(e: Elem, k: nat, q: Path)
    requires k < |e.children| && !IsActive(e.children[k]) && NoActiveFrom(e.children[k], 0)
    requires ValidPath(e, q) && |q| >= 1 && q[0] == k
    ensures !IsActive(At(e, q))
  {
    Descend(e, k, q);
    if |q| == 1 {
      assert q[1..] == [];
    }
  }

  /** An active `k`th child is the first match from `k` on. */
  lemma FoundHere(e: Elem, k: nat)
    requires k < |e.children| && IsActive(e.children[k])
    ensures FirstActiveFrom(e, k, [k])
  {
    ThroughChild(e, k, []);
    assert [k] + [] == [k];
    forall q | ValidPath(e, q) && |q| >= 1 && q[0] >= k
      ensures !Precedes(q, [k])
    {
      assert [k][1..] == [];
    }
  }

  /** The first match inside an inactive `k`th child is the first match
      from `k` on. */
  lemma FoundInside(e: Elem, k: nat, p: Path)
    requires k < |e.children| && !IsActive(e.children[k]) && FirstActiveFrom(e.children[k], 0, p)
    ensures FirstActiveFrom(e, k, [k] + p)
  {
    ThroughChild(e, k, p);
    var p' := [k] + p;
    assert p'[0] == k && p'[1..] == p;
    forall q | ValidPath(e, q) && |q| >= 1 && q[0] >= k && Precedes(q, p')
      ensures !IsActive(At(e, q))
    {
      assert q[0] == k && Precedes(q[1..], p);
      Descend(e, k, q);
      if |q| == 1 {
        assert q[1..] == [];
      }
    }
  }

  /** Past an inactive `k`th child without active descendants, the first
      match from `k + 1` on is the first from `k` on. */
  lemma SkipChild(e: Elem, k: nat, p: Path)
    requires k < |e.children| && !IsActive(e.children[k]) && NoActiveFrom(e.children[k], 0)
    requires FirstActiveFrom(e, k + 1, p)
    ensures FirstActiveFrom(e, k, p)
  {
    forall q | ValidPath(e, q) && |q| >= 1 && q[0] == k
      ensures !IsActive(At(e, q))
    {
      CleanChild(e, k, q);
    }
  }

  /** Past an inactive `k`th child without active descendants, no match
      from `k + 1` on means no match from `k` on. */
  lemma SkipChildNone(e: Elem, k: nat)
    requires k < |e.children| && !IsActive(e.children[k]) && NoActiveFrom(e.children[k], 0)
    requires NoActiveFrom(e, k + 1)
    ensures NoActiveFrom(e, k)
  {
    forall q | ValidPath(e, q) && |q| >= 1 && q[0] == k
      ensures !IsActive(At(e, q))
    {
      CleanChild(e, k, q);
    }
  }

  /** The search finds the first active descendant in document order among
      the subtrees from the `k`th child on, and finds none exactly when there
      is none. */
  lemma {:induction false} FindFromSpec(e: Elem, k: nat)
    ensures FindFrom(e, k).Some? ==> FirstActiveFrom(e, k, FindFrom(e, k).value)
    ensures FindFrom(e, k).None? ==> NoActiveFrom(e, k)
    decreases e, |e.children| - k
  {
    if k >= |e.children| {
    } else if IsActive(e.children[k]) {
      FoundHere(e, k);
    } else {
      var c := e.children[k];
      FindFromSpec(c, 0);
      match FindFrom(c, 0)
      case Some(p) =>
        FoundInside(e, k, p);
      case None =>
        FindFromSpec(e, k + 1);
        if FindFrom(e, k + 1).Some? {
          SkipChild(e, k, FindFrom(e, k + 1).value);
        } else {
          SkipChildNone(e, k);
        }
    }
  }

  /** `Constructor`'s edit: the tree element gains `tree`, and the first
      `.treeview.active` descendant, if any, gains `menu-open`. */
  function ConstructEdit(root: Path, found: Option<Path>): (Path, Elem) -> set<string> {
    (p: Path, n: Elem) =>
      if p == root then n.classes + {TreeClass}
      else if found.Some? && p == root + found.value then n.classes + {Open}
      else n.classes
  }

  /** `Constructor(el, opts)` on the tree element at path `root`. */
  function Construct(doc: Elem, root: Path): Elem
    requires ValidPath(doc, root)
  {
    MapClasses(doc, [], ConstructEdit(root, FirstActive(At(doc, root))))
  }

  /** Construction, element by element: the shape is kept and each element
      gets the classes the constructor's edit prescribes. */
  lemma ConstructAt(doc: Elem, root: Path, q: Path)
    requires ValidPath(doc, root)
    ensures ValidPath(Construct(doc, root), q) <==> ValidPath(doc, q)
    ensures ValidPath(doc, q) ==>
              At(Construct(doc, root), q).classes
                == ConstructEdit(root, FirstActive(At(doc, root)))(q, At(doc, q))
  {
    MapClassesAt(doc, [], ConstructEdit(root, FirstActive(At(doc, root))), q);
    assert [] + q == q;
  }

  /** After construction the tree element carries `tree`; the first active
      item in document order below it, and only that one, has been opened;
      with no active item nothing but the tree element changed. */
  lemma ConstructOpensFirstActive(doc: Elem, root: Path)
    requires ValidPath(doc, root)
    ensures forall q :: ValidPath(Construct(doc, root), q) <==> ValidPath(doc, q)
    ensures TreeClass in At(Construct(doc, root), root).classes
    ensures match FirstActive(At(doc, root))
            case Some(p) =>
              && FirstActiveFrom(At(doc, root), 0, p)
              && ValidPath(doc, root + p)
              && At(Construct(doc, root), root + p).classes == At(doc, root + p).classes + {Open}
              && (forall q :: ValidPath(doc, q) && q != root && q != root + p ==>
                    At(Construct(doc, root), q).classes == At(doc, q).classes)
            case None =>
              && NoActiveFrom(At(doc, root), 0)
              && (forall q :: ValidPath(doc, q) && q != root ==>
                    At(Construct(doc, root), q).classes == At(doc, q).classes)
  {
    var found := FirstActive(At(doc, root));
    FindFromSpec(At(doc, root), 0);
    forall q ensures ValidPath(Construct(doc, root), q) <==> ValidPath(doc, q) {
      ConstructAt(doc, root, q);
    }
    ConstructAt(doc, root, root);
    forall q | ValidPath(doc, q) && q != root && (found.None? || q != root + found.value)
      ensures At(Construct(doc, root), q).classes == At(doc, q).classes
    {
      ConstructAt(doc, root, q);
    }
    if found.Some? {
      var p := found.value;
      AtConcat(doc, root, p);
      ConstructAt(doc, root, root + p);
      assert root + p != root;
    }
  }
}
