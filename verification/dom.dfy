/** The part of the DOM the widgets read and write: a tree of elements, each
    with a node name, a class list and an optional `href`, addressed by paths
    of child indices from the document's root element. */
module Dom {
  import opened Values

  /** An element: its `nodeName` (upper case, as the DOM reports it), its
      class list, its `href` attribute if it has one, and its element
      children in document order. */
  datatype Elem = Elem(name: string, classes: set<string>, href: Option<string>, children: seq<Elem>)

  /** A path of child indices; the empty path is the element itself. */
  type Path = seq<nat>

  predicate ValidPath(e: Elem, p: Path)
    decreases |p|
  {
    |p| == 0 || (p[0] < |e.children| && ValidPath(e.children[p[0]], p[1..]))
  }

  /** The element a valid path leads to. */
  function At(e: Elem, p: Path): Elem
    requires ValidPath(e, p)
    decreases |p|
  {
    if |p| == 0 then e else At(e.children[p[0]], p[1..])
  }

  /** The path of the parent element. */
  function Parent(p: Path): Path
    requires |p| >= 1
  {
    p[..|p| - 1]
  }

  /** `p` and `q` lead to children of one parent element (possibly the same child). */
  predicate SameParent(p: Path, q: Path) {
    |p| >= 1 && |q| >= 1 && Parent(p) == Parent(q)
  }

  /** Everything an element holds except its children. */
  function Label(e: Elem): (string, set<string>, Option<string>) {
    (e.name, e.classes, e.href)
  }

  lemma {:induction false} PrefixValid(e: Elem, p: Path, k: nat)
    requires ValidPath(e, p) && k <= |p|
    ensures ValidPath(e, p[..k])
    decreases |p|
  {
    if k > 0 {
      assert p[..k][1..] == p[1..][..k - 1];
      PrefixValid(e.children[p[0]], p[1..], k - 1);
    }
  }

  /** A path extended by one index leads to a child of the element the path
      leads to. */
  lemma {:induction false} AtChild(e: Elem, p: Path, i: nat)
    ensures ValidPath(e, p + [i]) <==> ValidPath(e, p) && i < |At(e, p).children|
    ensures ValidPath(e, p + [i]) ==> At(e, p + [i]) == At(e, p).children[i]
    decreases |p|
  {
    if |p| == 0 {
      assert p + [i] == [i];
      assert [i][1..] == [];
    } else {
      assert (p + [i])[1..] == p[1..] + [i];
      if p[0] < |e.children| {
        AtChild(e.children[p[0]], p[1..], i);
      }
    }
  }

  /** A path starting with index `i` goes through the `i`th child. */
  lemma ThroughChild(e: Elem, i: nat, q: Path)
    requires i < |e.children|
    ensures ValidPath(e, [i] + q) <==> ValidPath(e.children[i], q)
    ensures ValidPath(e, [i] + q) ==> At(e, [i] + q) == At(e.children[i], q)
  {
    assert ([i] + q)[0] == i;
    assert ([i] + q)[1..] == q;
  }

  /** Rewrites the class list of every element: the element at path `p`
      (from the element this is first applied to, which sits at `at`) gets
      the classes `g(at + p, old element)`. Names, `href`s and the shape of
      the tree are kept. */
  function MapClasses(e: Elem, at: Path, g: (Path, Elem) -> set<string>): Elem
    decreases e
  {
    Elem(e.name, g(at, e), e.href,
         seq(|e.children|, i requires 0 <= i < |e.children| => MapClasses(e.children[i], at + [i], g)))
  }

  /** What `MapClasses` does, element by element: the shape and every label
      but the classes are kept, and each element's classes are `g` of it. */
  lemma {:induction false} MapClassesAt(e: Elem, at: Path, g: (Path, Elem) -> set<string>, q: Path)
    ensures ValidPath(MapClasses(e, at, g), q) <==> ValidPath(e, q)
    ensures ValidPath(e, q) ==>
              && At(MapClasses(e, at, g), q).name == At(e, q).name
              && At(MapClasses(e, at, g), q).href == At(e, q).href
              && At(MapClasses(e, at, g), q).classes == g(at + q, At(e, q))
              && |At(MapClasses(e, at, g), q).children| == |At(e, q).children|
    decreases |q|
  {
    var r := MapClasses(e, at, g);
    if |q| == 0 {
      assert at + q == at;
    } else if q[0] < |e.children| {
      var i := q[0];
      assert r.children[i] == MapClasses(e.children[i], at + [i], g);
      MapClassesAt(e.children[i], at + [i], g, q[1..]);
      assert at + [i] + q[1..] == at + q;
    }
  }

  /** `MapClasses` keeps the shape of the tree. */
  lemma MapClassesShape(e: Elem, at: Path, g: (Path, Elem) -> set<string>)
    ensures forall q :: ValidPath(MapClasses(e, at, g), q) <==> ValidPath(e, q)
  {
    forall q ensures ValidPath(MapClasses(e, at, g), q) <==> ValidPath(e, q) {
      MapClassesAt(e, at, g, q);
    }
  }

  /** Two trees that agree on every path are equal. */
  lemma {:induction false} Extensionality(a: Elem, b: Elem)
    requires forall q :: ValidPath(a, q) <==> ValidPath(b, q)
    requires forall q :: ValidPath(a, q) ==> Label(At(a, q)) == Label(At(b, q))
    ensures a == b
    decreases a
  {
    assert ValidPath(a, []);
    assert Label(a) == Label(b);
    if |a.children| != |b.children| {
      var i := if |a.children| < |b.children| then |a.children| else |b.children|;
      assert [i][1..] == [];
      assert ValidPath(a, [i]) != ValidPath(b, [i]);
      assert false;
    }
    forall i | 0 <= i < |a.children|
      ensures a.children[i] == b.children[i]
    {
      forall q
        ensures ValidPath(a.children[i], q) <==> ValidPath(b.children[i], q)
      {
        ThroughChild(a, i, q);
        ThroughChild(b, i, q);
        assert ValidPath(a, [i] + q) <==> ValidPath(b, [i] + q);
      }
      forall q | ValidPath(a.children[i], q)
        ensures Label(At(a.children[i], q)) == Label(At(b.children[i], q))
      {
        ThroughChild(a, i, q);
        ThroughChild(b, i, q);
        assert ValidPath(a, [i] + q);
      }
      Extensionality(a.children[i], b.children[i]);
    }
  }

  /** Following `p` and then `q` is following `p + q`. */
  lemma {:induction false} AtConcat(e: Elem, p: Path, q: Path)
    requires ValidPath(e, p)
    ensures ValidPath(e, p + q) <==> ValidPath(At(e, p), q)
    ensures ValidPath(e, p + q) ==> At(e, p + q) == At(At(e, p), q)
    decreases |p|
  {
    if |p| == 0 {
      assert p + q == q;
    } else {
      assert (p + q)[0] == p[0];
      assert (p + q)[1..] == p[1..] + q;
      AtConcat(e.children[p[0]], p[1..], q);
    }
  }
}
