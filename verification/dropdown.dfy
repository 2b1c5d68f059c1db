/** The `Dropdown` widget: each `[data-toggle="dropdown"]` element opens
    and closes its dropdown parent by the `open` class. A click elsewhere or
    the Escape key closes every dropdown. A `data-target` selector that
    matches nothing leaves a null parent, on which the source throws; the
    model reports that as `threw`, keeping any change made before it. */
module Dropdown {
  import opened Values
  import Utilities

  const OpenClass := "open"
  const EscKeyCode := 27
  const RightButton := 3

  /** The default options; only `clearOthers` is read. */
  const Defaults: Utilities.Entries := [("clearOthers", Bool(true)), ("boxClickClose", Bool(true))]

  /** The `clearOthers` flag `Constructor` reads through `grabOptions`. The
      options live in one variable shared by every dropdown, so the flag in
      force is the one of the dropdown constructed last. */
  function ClearOthers(current: Option<Utilities.Entries>, element: Option<Utilities.Dataset>): bool {
    Truthy(Utilities.Get(Utilities.Resolve(Defaults, current, element, None), "clearOthers").GetOr(Undefined))
  }

  /** Clearing the others is the default; `data-clear-others="false"` (the
      dataset key `clearOthers`) turns it off. */
  lemma ClearOthersFlag(element: Option<Utilities.Dataset>)
    ensures ClearOthers(None, None)
    ensures element.Some? && "clearOthers" in element.value && element.value["clearOthers"] == "false" ==>
              !ClearOthers(None, element)
    ensures element.Some? && "clearOthers" in element.value && element.value["clearOthers"] != "" ==>
              (ClearOthers(None, element) <==> element.value["clearOthers"] != "false")
  {
    assert Utilities.Get(Defaults, "clearOthers") == Some(Bool(true));
    Utilities.ResolveDefaultField(Defaults, None, "clearOthers", Bool(true));
    Utilities.ResolveDefaultField(Defaults, element, "clearOthers", Bool(true));
  }

  /** Elements are told apart by an identity. */
  type ElemId = nat

  /** A toggle element: its parent node, its `data-target` selector (`""`
      when absent, which is falsy as well), and whether it is disabled by
      class or by property. */
  datatype Toggler = Toggler(parentNode: ElemId, target: string, disabledClass: bool, disabledProp: bool)

  /** The page: the toggle elements in document order, what each selector
      `querySelector` finds, and the elements that carry `open`. */
  datatype Doc = Doc(toggles: seq<Toggler>, selectors: map<string, ElemId>, open: set<ElemId>)

  /** The classes after an operation, and whether it threw. */
  datatype Outcome = Outcome(open: set<ElemId>, threw: bool)

  /** `getParent(el)`: the element the `data-target` selector finds when
      the attribute is set (None if it finds nothing), otherwise the parent
      node. */
  function GetParent(t: Toggler, selectors: map<string, ElemId>): (r: Option<ElemId>)
    ensures t.target == "" ==> r == Some(t.parentNode)
    ensures t.target != "" && t.target in selectors ==> r == Some(selectors[t.target])
    ensures t.target != "" && t.target !in selectors ==> r == None
  {
    if t.target != "" then
      if t.target in selectors then Some(selectors[t.target]) else None
    else Some(t.parentNode)
  }

  /** Every toggle's parent is found. */
  predicate AllFound(ts: seq<Toggler>, selectors: map<string, ElemId>) {
    forall i :: 0 <= i < |ts| ==> GetParent(ts[i], selectors).Some?
  }

  /** The parents of the toggles whose parent is found. */
  function Parents(ts: seq<Toggler>, selectors: map<string, ElemId>): set<ElemId> {
    set i | 0 <= i < |ts| && GetParent(ts[i], selectors).Some? :: GetParent(ts[i], selectors).value
  }

  /** The loop of `clearMenus`: each toggle's parent in turn loses `open`,
      until a parent is not found, which throws. */
  function ClearFrom(ts: seq<Toggler>, selectors: map<string, ElemId>, open: set<ElemId>): (r: Outcome)
    ensures r.open <= open
    ensures open - r.open <= Parents(ts, selectors)
    ensures r.threw <==> !AllFound(ts, selectors)
    ensures AllFound(ts, selectors) ==> r.open == open - Parents(ts, selectors)
    decreases |ts|
  {
    if |ts| == 0 then Outcome(open, false)
    else
      match GetParent(ts[0], selectors)
      case None => Outcome(open, true)
      case Some(p) =>
        var rest := ClearFrom(ts[1..], selectors, open - {p});
        assert Parents(ts, selectors) == {p} + Parents(ts[1..], selectors) by {
          forall x | x in Parents(ts, selectors) ensures x in {p} + Parents(ts[1..], selectors) {
            var i :| 0 <= i < |ts| && GetParent(ts[i], selectors).Some? && GetParent(ts[i], selectors).value == x;
            if i > 0 { assert ts[1..][i - 1] == ts[i]; }
          }
          forall x | x in Parents(ts[1..], selectors) ensures x in Parents(ts, selectors) {
            var i :| 0 <= i < |ts[1..]| && GetParent(ts[1..][i], selectors).Some? && GetParent(ts[1..][i], selectors).value == x;
            assert ts[i + 1] == ts[1..][i];
          }
        }
        assert AllFound(ts, selectors) <==> AllFound(ts[1..], selectors) by {
          if AllFound(ts[1..], selectors) {
            forall i | 0 <= i < |ts| ensures GetParent(ts[i], selectors).Some? {
              if i > 0 { assert ts[1..][i - 1] == ts[i]; }
            }
          }
        }
        rest
  }

  /** `clearMenus(e)`: a right-button click (`which === 3`) is ignored;
      otherwise every dropdown parent loses `open`. `which` is None when no
      event is given. */
  function ClearMenus(doc: Doc, which: Option<int>): (r: Outcome)
    ensures which == Some(RightButton) ==> r == Outcome(doc.open, false)
    ensures which != Some(RightButton) && AllFound(doc.toggles, doc.selectors) ==>
              r == Outcome(doc.open - Parents(doc.toggles, doc.selectors), false)
  {
    if which.Some? && which.value == RightButton then Outcome(doc.open, false)
    else ClearFrom(doc.toggles, doc.selectors, doc.open)
  }

  lemma {:induction false} ClearFromTwice(ts: seq<Toggler>, selectors: map<string, ElemId>, open: set<ElemId>)
    ensures ClearFrom(ts, selectors, ClearFrom(ts, selectors, open).open) == ClearFrom(ts, selectors, open)
    decreases |ts|
  {
    if |ts| > 0 {
      match GetParent(ts[0], selectors)
      case None =>
      case Some(p) =>
        var once := ClearFrom(ts[1..], selectors, open - {p});
        assert p !in once.open;
        assert once.open - {p} == once.open;
        ClearFromTwice(ts[1..], selectors, open - {p});
    }
  }

  /** Clearing twice is clearing once, even when the clearing throws part
      way. */
  lemma ClearMenusIdempotent(doc: Doc, which: Option<int>)
    ensures ClearMenus(doc.(open := ClearMenus(doc, which).open), which) == ClearMenus(doc, which)
  {
    if which != Some(RightButton) {
      ClearFromTwice(doc.toggles, doc.selectors, doc.open);
    }
  }

  /** `toggle(element)` on the `i`th toggle element: a disabled element does
      nothing; a parent that is not found throws before anything changes;
      with `clearOthers` every dropdown is cleared first; then the parent's
      `open` flips from what it was before the clearing. */
  function Toggle(clearOthers: bool, doc: Doc, i: nat): (r: Outcome)
    requires i < |doc.toggles|
    ensures doc.toggles[i].disabledClass || doc.toggles[i].disabledProp ==> r == Outcome(doc.open, false)
    ensures GetParent(doc.toggles[i], doc.selectors).None? ==> r.open == doc.open
    ensures !doc.toggles[i].disabledClass && !doc.toggles[i].disabledProp && GetParent(doc.toggles[i], doc.selectors).None? ==>
              r == Outcome(doc.open, true)
  {
    var t := doc.toggles[i];
    if t.disabledClass || t.disabledProp then Outcome(doc.open, false)
    else
      match GetParent(t, doc.selectors)
      case None => Outcome(doc.open, true)
      case Some(parent) =>
        var isActive := parent in doc.open;
        var cleared := if clearOthers then ClearMenus(doc, None) else Outcome(doc.open, false);
        if cleared.threw then cleared
        else if !isActive then Outcome(cleared.open + {parent}, false)
        else Outcome(cleared.open - {parent}, false)
  }

  /** With `clearOthers` and every parent found, toggling a closed dropdown
      leaves it the only open dropdown parent, and toggling an open one leaves
      none open; elements that are no dropdown parent keep their classes. */
  lemma ToggleClearsOthers(doc: Doc, i: nat)
    requires i < |doc.toggles| && !doc.toggles[i].disabledClass && !doc.toggles[i].disabledProp
    requires AllFound(doc.toggles, doc.selectors)
    ensures var p := GetParent(doc.toggles[i], doc.selectors).value;
            var r := Toggle(true, doc, i);
            && !r.threw
            && r.open - Parents(doc.toggles, doc.selectors) == doc.open - Parents(doc.toggles, doc.selectors)
            && (p !in doc.open ==> r.open * Parents(doc.toggles, doc.selectors) == {p})
            && (p in doc.open ==> r.open * Parents(doc.toggles, doc.selectors) == {})
  {
    var p := GetParent(doc.toggles[i], doc.selectors).value;
    assert p in Parents(doc.toggles, doc.selectors);
  }

  /** Without `clearOthers`, a toggle flips its own parent's `open` and
      nothing else. */
  lemma ToggleAlone(doc: Doc, i: nat)
    requires i < |doc.toggles| && !doc.toggles[i].disabledClass && !doc.toggles[i].disabledProp
    requires GetParent(doc.toggles[i], doc.selectors).Some?
    ensures var p := GetParent(doc.toggles[i], doc.selectors).value;
            var r := Toggle(false, doc, i);
            && !r.threw
            && (p in r.open <==> p !in doc.open)
            && r.open - {p} == doc.open - {p}
  {
  }

  /** Two clicks on one toggle, with or without `clearOthers`: without it the
      open set is restored; with it (every parent found) a dropdown that was
      closed opens and closes again, leaving no dropdown parent open. */
  lemma ToggleTwice(doc: Doc, i: nat)
    requires i < |doc.toggles| && !doc.toggles[i].disabledClass && !doc.toggles[i].disabledProp
    requires GetParent(doc.toggles[i], doc.selectors).Some?
    ensures Toggle(false, doc.(open := Toggle(false, doc, i).open), i).open == doc.open
    ensures AllFound(doc.toggles, doc.selectors) && GetParent(doc.toggles[i], doc.selectors).value !in doc.open ==>
              Toggle(true, doc.(open := Toggle(true, doc, i).open), i).open * Parents(doc.toggles, doc.selectors) == {}
  {
    var p := GetParent(doc.toggles[i], doc.selectors).value;
    var once := doc.(open := Toggle(false, doc, i).open);
    ToggleAlone(doc, i);
    ToggleAlone(once, i);
    if AllFound(doc.toggles, doc.selectors) {
      var d1 := doc.(open := Toggle(true, doc, i).open);
      ToggleClearsOthers(doc, i);
      ToggleClearsOthers(d1, i);
    }
  }

  /** Lower-cases ASCII letters. */
  function Lower(s: string): string {
    seq(|s|, i requires 0 <= i < |s| => if 'A' <= s[i] <= 'Z' then (s[i] as int + 32) as char else s[i])
  }

  /** `pattern` occurs in `s` at index `k`. */
  predicate MatchAt(s: string, pattern: string, k: int) {
    0 <= k <= |s| - |pattern| && s[k..k + |pattern|] == pattern
  }

  /** A match in `s` not at index 0 is a match in `s[1..]`, one index back. */
  lemma ShiftMatch(s: string, pattern: string)
    requires |s| > 0 && !MatchAt(s, pattern, 0)
    ensures (exists k :: MatchAt(s, pattern, k)) <==> (exists k :: MatchAt(s[1..], pattern, k))
  {
    if exists k :: MatchAt(s, pattern, k) {
      var k :| MatchAt(s, pattern, k);
      assert s[1..][k - 1..k - 1 + |pattern|] == s[k..k + |pattern|];
      assert MatchAt(s[1..], pattern, k - 1);
    }
    if exists k :: MatchAt(s[1..], pattern, k) {
      var k :| MatchAt(s[1..], pattern, k);
      assert s[k + 1..k + 1 + |pattern|] == s[1..][k..k + |pattern|];
      assert MatchAt(s, pattern, k + 1);
    }
  }

  /** `pattern` occurs somewhere in `s`, as a regular expression without
      special characters tests it. */
  function Contains(s: string, pattern: string): (r: bool)
    ensures r <==> exists k :: MatchAt(s, pattern, k)
    decreases |s|
  {
    if |pattern| <= |s| && s[..|pattern|] == pattern then
      assert MatchAt(s, pattern, 0);
      true
    else if |s| == 0 then false
    else
      ShiftMatch(s, pattern);
      Contains(s[1..], pattern)
  }

  /** The test `/input|textarea/i` applies to the event target's tag name. */
  predicate IsTextField(tagName: string) {
    Contains(Lower(tagName), "input") || Contains(Lower(tagName), "textarea")
  }

  /** `handleKeydown(e)`: only the Escape key, from a target that is not a
      text field, clears the dropdowns. */
  function HandleKeydown(doc: Doc, which: int, tagName: string): (r: Outcome)
    ensures which != EscKeyCode || IsTextField(tagName) ==> r == Outcome(doc.open, false)
    ensures which == EscKeyCode && !IsTextField(tagName) ==> r == ClearMenus(doc, None)
  {
    if which != EscKeyCode || IsTextField(tagName) then Outcome(doc.open, false)
    else ClearMenus(doc, None)
  }

  /** Escape in an input or a textarea, in either case, leaves the dropdowns
      open; Escape on the body clears them. */
  lemma KeydownTargets(doc: Doc)
    ensures HandleKeydown(doc, EscKeyCode, "INPUT") == Outcome(doc.open, false)
    ensures HandleKeydown(doc, EscKeyCode, "textarea") == Outcome(doc.open, false)
    ensures HandleKeydown(doc, EscKeyCode, "BODY") == ClearMenus(doc, None)
  {
    assert Lower("INPUT") == "input";
    assert MatchAt("input", "input", 0);
    assert Lower("textarea") == "textarea";
    assert MatchAt("textarea", "textarea", 0);
    assert Lower("BODY") == "body";
  }
}
