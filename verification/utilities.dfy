/** The shared helpers of the bundle: `Utilities.findChildren`, a filter over
    an element's direct children, and `Utilities.grabOptions`, which merges a
    widget's defaults, the caller's overrides and the element's `data-*`
    attributes into the widget's effective options. */
module Utilities {
  import opened Values
  import opened Dom

  // ---------------------------------------------------------------------
  // findChildren
  // ---------------------------------------------------------------------

  /** The test `findChildren` applies to each child. */
  predicate Matches(n: Elem, nodeType: string, className: string) {
    n.name == nodeType && className in n.classes
  }

  /** The children among `cs` that match, in sibling order. */
  function ChildrenMatching(cs: seq<Elem>, nodeType: string, className: string): seq<Elem>
    decreases |cs|
  {
    if |cs| == 0 then []
    else
      var last := cs[|cs| - 1];
      ChildrenMatching(cs[..|cs| - 1], nodeType, className)
        + (if Matches(last, nodeType, className) then [last] else [])
  }

  /** `a` can be obtained from `b` by deleting elements. */
  ghost predicate IsSubsequence<T>(a: seq<T>, b: seq<T>)
    decreases |b|
  {
    |a| == 0 ||
    (|b| > 0 &&
     ((a[|a| - 1] == b[|b| - 1] && IsSubsequence(a[..|a| - 1], b[..|b| - 1])) ||
      IsSubsequence(a, b[..|b| - 1])))
  }

  lemma {:induction false} SubsequenceLength<T>(a: seq<T>, b: seq<T>)
    requires IsSubsequence(a, b)
    ensures |a| <= |b|
    decreases |b|
  {
    if |a| > 0 {
      if a[|a| - 1] == b[|b| - 1] && IsSubsequence(a[..|a| - 1], b[..|b| - 1]) {
        SubsequenceLength(a[..|a| - 1], b[..|b| - 1]);
      } else {
        SubsequenceLength(a, b[..|b| - 1]);
      }
    }
  }

  /** The walk over `firstChild`/`nextSibling`: the result is exactly the
      matching direct children, in sibling order. */
  method FindChildren(nodeType: string, className: string, parentNode: Elem) returns (found: seq<Elem>)
    ensures found == ChildrenMatching(parentNode.children, nodeType, className)
  {
    found := [];
    var i := 0;
    while i < |parentNode.children|
      invariant 0 <= i <= |parentNode.children|
      invariant found == ChildrenMatching(parentNode.children[..i], nodeType, className)
    {
      var child := parentNode.children[i];
      if child.name == nodeType && className in child.classes {
        found := found + [child];
      }
      assert parentNode.children[..i + 1][..i] == parentNode.children[..i];
      i := i + 1;
    }
    assert parentNode.children[..i] == parentNode.children;
  }

  /** The filter keeps each matching child as many times as it occurs among
      the children and nothing else. */
  lemma {:induction false} ChildrenMatchingCounts(cs: seq<Elem>, nodeType: string, className: string)
    ensures forall x :: multiset(ChildrenMatching(cs, nodeType, className))[x]
                          == if Matches(x, nodeType, className) then multiset(cs)[x] else 0
    decreases |cs|
  {
    if |cs| > 0 {
      var init := cs[..|cs| - 1];
      var last := cs[|cs| - 1];
      ChildrenMatchingCounts(init, nodeType, className);
      assert cs == init + [last];
      assert multiset(cs) == multiset(init) + multiset{last};
    }
  }

  /** The filter returns exactly the matching direct children: no other
      child and no deeper descendant. */
  lemma ChildrenMatchingMembers(cs: seq<Elem>, nodeType: string, className: string)
    ensures forall x :: x in ChildrenMatching(cs, nodeType, className) <==> x in cs && Matches(x, nodeType, className)
  {
    var r := ChildrenMatching(cs, nodeType, className);
    ChildrenMatchingCounts(cs, nodeType, className);
    forall x ensures x in r <==> x in cs && Matches(x, nodeType, className) {
      assert x in r <==> multiset(r)[x] > 0;
      assert x in cs <==> multiset(cs)[x] > 0;
    }
  }

  /** The filter keeps sibling order: its result is a subsequence of the
      children, so it is never longer. */
  lemma {:induction false} ChildrenMatchingOrder(cs: seq<Elem>, nodeType: string, className: string)
    ensures IsSubsequence(ChildrenMatching(cs, nodeType, className), cs)
    ensures |ChildrenMatching(cs, nodeType, className)| <= |cs|
    decreases |cs|
  {
    var r := ChildrenMatching(cs, nodeType, className);
    if |cs| > 0 {
      var init := cs[..|cs| - 1];
      var last := cs[|cs| - 1];
      var r0 := ChildrenMatching(init, nodeType, className);
      ChildrenMatchingOrder(init, nodeType, className);
      if Matches(last, nodeType, className) {
        assert r == r0 + [last];
        assert r[..|r| - 1] == r0 && r[|r| - 1] == last;
      } else {
        assert r == r0;
      }
      assert IsSubsequence(r, cs);
    }
    SubsequenceLength(r, cs);
  }

  // ---------------------------------------------------------------------
  // grabOptions
  // ---------------------------------------------------------------------

  /** An options object: its keys in insertion order, each with its value. */
  type Entries = seq<(string, Value)>

  /** An element's `dataset`: its `data-*` attributes by (camel-cased) name. */
  type Dataset = map<string, string>

  function Keys(o: Entries): seq<string> {
    seq(|o|, i requires 0 <= i < |o| => o[i].0)
  }

  /** Property lookup: the value under the first occurrence of `k`. */
  function Get(o: Entries, k: string): Option<Value>
    decreases |o|
  {
    if |o| == 0 then None
    else if o[0].0 == k then Some(o[0].1)
    else Get(o[1..], k)
  }

  /** Property assignment: an existing key keeps its place and takes the new
      value; a new key goes last. */
  function Put(o: Entries, k: string, v: Value): Entries
    decreases |o|
  {
    if |o| == 0 then [(k, v)]
    else if o[0].0 == k then [(k, v)] + o[1..]
    else [o[0]] + Put(o[1..], k, v)
  }

  predicate Distinct<T(==)>(s: seq<T>) {
    forall i, j :: 0 <= i < j < |s| ==> s[i] != s[j]
  }

  /** The first occurrence of every key, in order. */
  function Dedup(s: seq<string>): seq<string>
    decreases |s|
  {
    if |s| == 0 then []
    else
      var d := Dedup(s[..|s| - 1]);
      if s[|s| - 1] in d then d else d + [s[|s| - 1]]
  }

  lemma {:induction false} DedupFacts(s: seq<string>)
    ensures Distinct(Dedup(s))
    ensures forall x :: x in Dedup(s) <==> x in s
    ensures Distinct(s) ==> Dedup(s) == s
    decreases |s|
  {
    if |s| > 0 {
      var init := s[..|s| - 1];
      DedupFacts(init);
      assert s == init + [s[|s| - 1]];
      if Distinct(s) {
        assert s[|s| - 1] !in init;
      }
    }
  }

  /** The index of the first occurrence of `x` in `s`. */
  function FirstIndex(s: seq<string>, x: string): (r: nat)
    requires x in s
    ensures r < |s| && s[r] == x && x !in s[..r]
    decreases |s|
  {
    if s[0] == x then 0
    else
      var k := FirstIndex(s[1..], x);
      assert s[..k + 1] == [s[0]] + s[1..][..k];
      k + 1
  }

  /** A first occurrence is the only index at which `x` occurs with no
      earlier `x`. */
  lemma FirstIndexUnique(s: seq<string>, x: string, k: nat)
    requires k < |s| && s[k] == x && x !in s[..k]
    ensures FirstIndex(s, x) == k
  {
  }

  /** Appending a key leaves the first occurrences of earlier keys where
      they are. */
  lemma FirstIndexAppend(s: seq<string>, y: string, x: string)
    requires x in s
    ensures FirstIndex(s + [y], x) == FirstIndex(s, x)
  {
    var k := FirstIndex(s, x);
    assert (s + [y])[..k] == s[..k];
    FirstIndexUnique(s + [y], x, k);
  }

  /** `Dedup` lists the keys in the order of their first occurrences: it is
      the distinct keys of `s`, sorted by where each first appears. */
  lemma {:induction false} DedupOrder(s: seq<string>)
    ensures forall x :: x in Dedup(s) <==> x in s
    ensures forall i, j :: 0 <= i < j < |Dedup(s)| ==> FirstIndex(s, Dedup(s)[i]) < FirstIndex(s, Dedup(s)[j])
    decreases |s|
  {
    if |s| > 0 {
      var init := s[..|s| - 1];
      var y := s[|s| - 1];
      assert s == init + [y];
      DedupOrder(init);
      var d := Dedup(init);
      forall i | 0 <= i < |d| ensures FirstIndex(s, d[i]) == FirstIndex(init, d[i]) < |init| {
        FirstIndexAppend(init, y, d[i]);
      }
      if y !in d {
        assert y !in s[..|init|];
        FirstIndexUnique(s, y, |init|);
      }
    }
  }

  /** The value `grabOptions` picks for one field before coercion: the
      override, else the `data-*` attribute, else the default (`undefined`
      when the defaults lack the field). */
  function Pick(def: Entries, current: Entries, element: Option<Dataset>, k: string): Value {
    match Get(current, k)
    case Some(v) => v
    case None =>
      if element.Some? && k in element.value then Str(element.value[k])
      else Get(def, k).GetOr(Undefined)
  }

  /** The string `'false'` becomes boolean `false`; every other value, the
      string `'true'` included, is kept. */
  function Coerce(v: Value): (r: Value)
    ensures r != Str("false")
    ensures v != Str("false") ==> r == v
    ensures v == Str("false") ==> r == Bool(false)
  {
    if v == Str("false") then Bool(false) else v
  }

  /** The fields to resolve: `fields` when given, otherwise the keys of the
      defaults. */
  function FieldsToFetch(def: Entries, fields: Option<seq<string>>): seq<string> {
    fields.GetOr(Keys(def))
  }

  /** The options object `grabOptions` builds for the field list `fs`: one
      entry per distinct field, in order of first mention. */
  function ResolveFields(def: Entries, current: Entries, element: Option<Dataset>, fs: seq<string>): Entries {
    var ks := Dedup(fs);
    seq(|ks|, i requires 0 <= i < |ks| => (ks[i], Coerce(Pick(def, current, element, ks[i]))))
  }

  /** The effective options; a `null` override object counts as `{}`. */
  function Resolve(def: Entries, current: Option<Entries>, element: Option<Dataset>, fields: Option<seq<string>>): Entries {
    ResolveFields(def, current.GetOr([]), element, FieldsToFetch(def, fields))
  }

  /** The loop of `grabOptions`, field by field. */
  method GrabOptions(def: Entries, current: Option<Entries>, element: Option<Dataset>, fields: Option<seq<string>>)
    returns (calculated: Entries)
    ensures calculated == Resolve(def, current, element, fields)
  {
    var cur := current.GetOr([]);
    var fieldsToFetch := fields.GetOr(Keys(def));
    calculated := [];
    var i := 0;
    while i < |fieldsToFetch|
      invariant 0 <= i <= |fieldsToFetch|
      invariant calculated == ResolveFields(def, cur, element, fieldsToFetch[..i])
    {
      var fieldName := fieldsToFetch[i];
      var value;
      match Get(cur, fieldName) {
        case Some(v) =>
          value := v;
        case None =>
          if element.Some? && fieldName in element.value {
            value := Str(element.value[fieldName]);
          } else {
            value := Get(def, fieldName).GetOr(Undefined);
          }
      }
      value := if value == Str("false") then Bool(false) else value;
      assert value == Coerce(Pick(def, cur, element, fieldName));
      assert fieldsToFetch[..i + 1] == fieldsToFetch[..i] + [fieldName];
      ResolveFieldsStep(def, cur, element, fieldsToFetch[..i], fieldName);
      calculated := Put(calculated, fieldName, value);
      i := i + 1;
    }
    assert fieldsToFetch[..i] == fieldsToFetch;
  }

  lemma {:induction false} GetAt(o: Entries, j: nat)
    requires j < |o| && Distinct(Keys(o))
    ensures Get(o, o[j].0) == Some(o[j].1)
    decreases |o|
  {
    if j > 0 {
      assert Keys(o)[0] != Keys(o)[j];
      assert Keys(o[1..]) == Keys(o)[1..];
      GetAt(o[1..], j - 1);
    }
  }

  lemma {:induction false} GetAbsent(o: Entries, k: string)
    requires k !in Keys(o)
    ensures Get(o, k) == None
    decreases |o|
  {
    if |o| > 0 {
      assert Keys(o)[0] == o[0].0;
      assert Keys(o[1..]) == Keys(o)[1..];
      GetAbsent(o[1..], k);
    }
  }

  lemma {:induction false} PutPresent(o: Entries, k: string, v: Value)
    requires Get(o, k) == Some(v)
    ensures Put(o, k, v) == o
    decreases |o|
  {
    if |o| > 0 && o[0].0 != k {
      PutPresent(o[1..], k, v);
    }
  }

  lemma {:induction false} PutAbsent(o: Entries, k: string, v: Value)
    requires k !in Keys(o)
    ensures Put(o, k, v) == o + [(k, v)]
    decreases |o|
  {
    if |o| > 0 {
      assert Keys(o)[0] == o[0].0;
      assert Keys(o[1..]) == Keys(o)[1..];
      PutAbsent(o[1..], k, v);
      assert [o[0]] + (o[1..] + [(k, v)]) == o + [(k, v)];
    }
  }

  lemma ResolveFieldsKeys(def: Entries, current: Entries, element: Option<Dataset>, fs: seq<string>)
    ensures Keys(ResolveFields(def, current, element, fs)) == Dedup(fs)
  {
  }

  /** A field not yet resolved adds its entry at the end. */
  lemma ResolveFieldsNew(def: Entries, current: Entries, element: Option<Dataset>, fs: seq<string>, x: string)
    requires x !in Dedup(fs)
    ensures ResolveFields(def, current, element, fs + [x])
            == ResolveFields(def, current, element, fs) + [(x, Coerce(Pick(def, current, element, x)))]
  {
    var fs' := fs + [x];
    assert fs'[..|fs'| - 1] == fs;
    assert Dedup(fs') == Dedup(fs) + [x];
  }

  /** A field already resolved adds nothing. */
  lemma ResolveFieldsRepeat(def: Entries, current: Entries, element: Option<Dataset>, fs: seq<string>, x: string)
    requires x in Dedup(fs)
    ensures ResolveFields(def, current, element, fs + [x]) == ResolveFields(def, current, element, fs)
  {
    var fs' := fs + [x];
    assert fs'[..|fs'| - 1] == fs;
    assert Dedup(fs') == Dedup(fs);
  }

  /** One turn of the loop extends the options object for `fs` to the one
      for `fs + [x]`. */
  lemma ResolveFieldsStep(def: Entries, current: Entries, element: Option<Dataset>, fs: seq<string>, x: string)
    ensures Put(ResolveFields(def, current, element, fs), x, Coerce(Pick(def, current, element, x)))
            == ResolveFields(def, current, element, fs + [x])
  {
    var o := ResolveFields(def, current, element, fs);
    var v := Coerce(Pick(def, current, element, x));
    ResolveFieldsKeys(def, current, element, fs);
    DedupFacts(fs);
    if x in Dedup(fs) {
      var j :| 0 <= j < |Dedup(fs)| && Dedup(fs)[j] == x;
      GetAt(o, j);
      PutPresent(o, x, v);
      ResolveFieldsRepeat(def, current, element, fs, x);
    } else {
      PutAbsent(o, x, v);
      ResolveFieldsNew(def, current, element, fs, x);
    }
  }

  /** Looking a field up in the options object for `fs`: its resolved
      value when it was asked for, nothing otherwise. */
  lemma ResolveFieldsGet(def: Entries, current: Entries, element: Option<Dataset>, fs: seq<string>, k: string)
    ensures k in fs ==> Get(ResolveFields(def, current, element, fs), k) == Some(Coerce(Pick(def, current, element, k)))
    ensures k !in fs ==> Get(ResolveFields(def, current, element, fs), k) == None
  {
    var r := ResolveFields(def, current, element, fs);
    ResolveFieldsKeys(def, current, element, fs);
    DedupFacts(fs);
    if k in fs {
      var j :| 0 <= j < |Dedup(fs)| && Dedup(fs)[j] == k;
      GetAt(r, j);
    } else {
      GetAbsent(r, k);
    }
  }

  lemma {:induction false} GetInKeys(o: Entries, k: string)
    requires Get(o, k).Some?
    ensures k in Keys(o)
    decreases |o|
  {
    assert Keys(o)[0] == o[0].0;
    if o[0].0 != k {
      GetInKeys(o[1..], k);
      assert Keys(o[1..]) == Keys(o)[1..];
    }
  }

  /** With no overrides and no field list, a field the defaults hold
      resolves to the element's `data-*` attribute when it has one, else to
      the default, with `'false'` coerced. */
  lemma ResolveDefaultField(def: Entries, element: Option<Dataset>, k: string, v: Value)
    requires Get(def, k) == Some(v)
    ensures Get(Resolve(def, None, element, None), k)
            == Some(Coerce(if element.Some? && k in element.value then Str(element.value[k]) else v))
  {
    GetInKeys(def, k);
    ResolvePrecedence(def, None, element, None, k);
  }

  /** The keys of the result are the requested fields (or the defaults'
      keys), each once, in order of first mention; with no field list and
      defaults without repeated keys, they are exactly the defaults' keys. */
  lemma ResolveKeys(def: Entries, current: Option<Entries>, element: Option<Dataset>, fields: Option<seq<string>>)
    ensures Keys(Resolve(def, current, element, fields)) == Dedup(FieldsToFetch(def, fields))
    ensures forall k :: k in Keys(Resolve(def, current, element, fields)) <==> k in FieldsToFetch(def, fields)
    ensures fields.None? && Distinct(Keys(def)) ==> Keys(Resolve(def, current, element, fields)) == Keys(def)
    ensures Distinct(Keys(Resolve(def, current, element, fields)))
  {
    ResolveFieldsKeys(def, current.GetOr([]), element, FieldsToFetch(def, fields));
    DedupFacts(FieldsToFetch(def, fields));
  }

  /** Precedence, field by field: an override present in `current` wins
      (even when it holds `undefined`), then the element's `data-*`
      attribute, then the default; `'false'` is then turned into `false`.
      A `null` element is never consulted and a `null` override object is
      the same as `{}`. A field that was not asked for is absent. */
  lemma ResolvePrecedence(def: Entries, current: Option<Entries>, element: Option<Dataset>, fields: Option<seq<string>>, k: string)
    ensures k !in FieldsToFetch(def, fields) ==> Get(Resolve(def, current, element, fields), k) == None
    ensures k in FieldsToFetch(def, fields) ==>
              Get(Resolve(def, current, element, fields), k) == Some(Coerce(
                if current.Some? && Get(current.value, k).Some? then Get(current.value, k).value
                else if element.Some? && k in element.value then Str(element.value[k])
                else Get(def, k).GetOr(Undefined)))
    ensures Resolve(def, None, element, fields) == Resolve(def, Some([]), element, fields)
    ensures Resolve(def, current, None, fields) == Resolve(def, current, Some(map[]), fields)
  {
    ResolveFieldsGet(def, current.GetOr([]), element, FieldsToFetch(def, fields), k);
  }

  /** Exactly the string `'false'` comes out as `false`, whichever source it
      came from; no result value is the string `'false'`, and every other
      picked value, `'true'` included, comes out unchanged. */
  lemma ResolveCoercesFalse(def: Entries, current: Option<Entries>, element: Option<Dataset>, fields: Option<seq<string>>)
    ensures forall i :: 0 <= i < |Resolve(def, current, element, fields)| ==>
              Resolve(def, current, element, fields)[i].1 != Str("false")
    ensures forall i :: 0 <= i < |Resolve(def, current, element, fields)| ==>
              var (k, v) := Resolve(def, current, element, fields)[i];
              var picked := Pick(def, current.GetOr([]), element, k);
              (picked == Str("false") ==> v == Bool(false)) && (picked != Str("false") ==> v == picked)
  {
  }

  /** Feeding the result back in as the override object reproduces it,
      whatever element is given. */
  lemma ResolveIdempotent(def: Entries, current: Option<Entries>, element: Option<Dataset>,
                          other: Option<Dataset>, fields: Option<seq<string>>)
    ensures var r := Resolve(def, current, element, fields);
            Resolve(def, Some(r), other, fields) == r
  {
    var r := Resolve(def, current, element, fields);
    var r' := Resolve(def, Some(r), other, fields);
    ResolveKeys(def, current, element, fields);
    assert |r'| == |r|;
    forall i | 0 <= i < |r|
      ensures r'[i] == r[i]
    {
      GetAt(r, i);
    }
  }

  /** The first field of the example below. */
  lemma ResolveExampleA()
    ensures ResolveFields([("a", Num(1)), ("b", Num(2))], [("a", Num(5))], Some(map["b" := "false"]), ["a"])
            == [("a", Num(5))]
  {
    var def := [("a", Num(1)), ("b", Num(2))];
    var cur := [("a", Num(5))];
    var data := Some(map["b" := "false"]);
    assert Pick(def, cur, data, "a") == Num(5);
    assert [] + ["a"] == ["a"];
    assert Dedup([]) == [];
    ResolveFieldsNew(def, cur, data, [], "a");
  }

  /** The second field of the example below. */
  lemma ResolveExampleB()
    ensures ResolveFields([("a", Num(1)), ("b", Num(2))], [("a", Num(5))], Some(map["b" := "false"]), ["a", "b"])
            == ResolveFields([("a", Num(1)), ("b", Num(2))], [("a", Num(5))], Some(map["b" := "false"]), ["a"])
               + [("b", Bool(false))]
  {
    var def := [("a", Num(1)), ("b", Num(2))];
    var cur := [("a", Num(5))];
    var data := Some(map["b" := "false"]);
    assert Get(cur, "b") == None;
    assert Pick(def, cur, data, "b") == Str("false");
    DedupFacts(["a"]);
    assert ["a"] + ["b"] == ["a", "b"];
    ResolveFieldsNew(def, cur, data, ["a"], "b");
  }

  /** `{a: 1, b: 2}` with override `{a: 5}` on an element with
      `data-b="false"` resolves to `{a: 5, b: false}`. */
  lemma ResolveExample()
    ensures Resolve([("a", Num(1)), ("b", Num(2))], Some([("a", Num(5))]), Some(map["b" := "false"]), None)
            == [("a", Num(5)), ("b", Bool(false))]
  {
    assert Keys([("a", Num(1)), ("b", Num(2))]) == ["a", "b"];
    ResolveExampleA();
    ResolveExampleB();
  }
}
