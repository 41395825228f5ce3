/**
 * Reference extraction from a parsed project document. The document is an
 * element tree (XML text parsing is not modelled); `GetReferences` follows the
 * source's query: every descendant element whose local name is `Reference`,
 * in document order, turned into a `Reference` record.
 */
module Documents {
  import opened Wrappers

  /** One element of a parsed document: its local name (namespace dropped), its attributes, child elements and text value. */
  datatype Element = Element(localName: string, attributes: map<string, string>, children: seq<Element>, value: string)

  /** A declared dependency: the `Include` identity and the optional hint path. */
  datatype Reference = Reference(identity: string, hintPath: Option<string>)

  /** Extraction fails on a `Reference` element that has no `Include` attribute. */
  datatype ExtractError = MissingInclude(element: Element)

  const ReferenceName: string := "Reference"
  const IncludeName: string := "Include"
  const HintPathName: string := "HintPath"

  /** The element and all elements below it, in document order (`Descendants()` of a document whose root is `e`). */
  function Descendants(e: Element): (d: seq<Element>)
    ensures |d| >= 1 && d[0] == e
    decreases e, 1
  {
    [e] + ForestDescendants(e.children)
  }

  /** The descendants of each element of `es` in turn. */
  function ForestDescendants(es: seq<Element>): seq<Element>
    decreases es, 0
  {
    if es == [] then [] else Descendants(es[0]) + ForestDescendants(es[1..])
  }

  /** Lookup along a path of child indices; `Some` when every index is in range. */
  function Follow(e: Element, path: seq<nat>): Option<Element>
    decreases |path|
  {
    if path == [] then Some(e)
    else if path[0] < |e.children| then Follow(e.children[path[0]], path[1..])
    else None
  }

  /** The descendants of a forest include those of every tree in it. */
  lemma {:induction false} ForestContains(es: seq<Element>, k: nat, x: Element)
    requires k < |es| && x in Descendants(es[k])
    ensures x in ForestDescendants(es)
    decreases es
  {
    if k > 0 {
      ForestContains(es[1..], k - 1, x);
    }
  }

  /** Elements at any depth are visited: whatever a path of child indices reaches is a descendant. */
  lemma {:induction false} FollowIsDescendant(e: Element, path: seq<nat>)
    requires Follow(e, path).Some?
    ensures Follow(e, path).value in Descendants(e)
    decreases |path|
  {
    if path != [] {
      var c := e.children[path[0]];
      FollowIsDescendant(c, path[1..]);
      ForestContains(e.children, path[0], Follow(e, path).value);
    }
  }

  /** Only elements of the document are visited: every descendant is reached by some path of child indices. */
  lemma {:induction false} DescendantIsFollow(e: Element, x: Element)
    requires x in Descendants(e)
    ensures exists p :: Follow(e, p) == Some(x)
    decreases e, 1
  {
    if x != e {
      ForestDescendantIsFollow(e.children, x);
      var k: nat, p :| k < |e.children| && Follow(e.children[k], p) == Some(x);
      assert ([k] + p)[0] == k && ([k] + p)[1..] == p;
      assert Follow(e, [k] + p) == Some(x);
    } else {
      assert Follow(e, []) == Some(x);
    }
  }

  lemma {:induction false} ForestDescendantIsFollow(es: seq<Element>, x: Element)
    requires x in ForestDescendants(es)
    ensures exists k: nat, p :: k < |es| && Follow(es[k], p) == Some(x)
    decreases es, 0
  {
    if x in Descendants(es[0]) {
      DescendantIsFollow(es[0], x);
      var p :| Follow(es[0], p) == Some(x);
      assert Follow(es[0 as nat], p) == Some(x);
    } else {
      ForestDescendantIsFollow(es[1..], x);
      var k: nat, p :| k < |es[1..]| && Follow(es[1..][k], p) == Some(x);
      assert es[k + 1] == es[1..][k];
    }
  }

  /** The elements of `es` whose local name is `Reference`, in their order (the query's `Where`). */
  function ReferenceElements(es: seq<Element>): (r: seq<Element>)
    ensures |r| <= |es|
    ensures forall x :: x in r <==> x in es && x.localName == ReferenceName
  {
    if es == [] then []
    else (if es[0].localName == ReferenceName then [es[0]] else []) + ReferenceElements(es[1..])
  }

  lemma {:induction false} ReferenceElementsAppend(a: seq<Element>, b: seq<Element>)
    ensures ReferenceElements(a + b) == ReferenceElements(a) + ReferenceElements(b)
  {
    if a == [] {
      assert a + b == b;
    } else {
      assert (a + b)[0] == a[0];
      assert (a + b)[1..] == a[1..] + b;
      ReferenceElementsAppend(a[1..], b);
    }
  }

  /** Index of the first element of `es` named `name`, or `|es|` when there is none. */
  function FirstNamed(es: seq<Element>, name: string): (i: nat)
    ensures i <= |es|
    ensures forall j :: 0 <= j < i ==> es[j].localName != name
    ensures i < |es| ==> es[i].localName == name
  {
    if es == [] then 0
    else if es[0].localName == name then 0
    else 1 + FirstNamed(es[1..], name)
  }

  /** The value of the first direct child named `HintPath`, or `None` when there is no such child. */
  function HintPath(e: Element): (p: Option<string>)
    ensures p.None? <==> forall k :: 0 <= k < |e.children| ==> e.children[k].localName != HintPathName
    ensures p.Some? ==> exists k :: 0 <= k < |e.children| && e.children[k].localName == HintPathName &&
                                    e.children[k].value == p.value &&
                                    forall j :: 0 <= j < k ==> e.children[j].localName != HintPathName
  {
    var k := FirstNamed(e.children, HintPathName);
    if k < |e.children| then Some(e.children[k].value) else None
  }

  /** The record built for one `Reference` element (the query's `Select`); fails without `Include`. */
  function ToReference(e: Element): (r: Result<Reference, ExtractError>)
    ensures r.Success? <==> IncludeName in e.attributes
    ensures r.Success? ==> r.value.identity == e.attributes[IncludeName] && r.value.hintPath == HintPath(e)
    ensures r.Failure? ==> r.error == MissingInclude(e)
  {
    if IncludeName in e.attributes then Success(Reference(e.attributes[IncludeName], HintPath(e)))
    else Failure(MissingInclude(e))
  }

  /** Concatenation of two partial results; the earlier failure wins. */
  function Then(a: Result<seq<Reference>, ExtractError>, b: Result<seq<Reference>, ExtractError>): Result<seq<Reference>, ExtractError>
  {
    if a.Failure? then a
    else if b.Failure? then b
    else Success(a.value + b.value)
  }

  /** `es[k]` is the first element of `es` that has no `Include` attribute. */
  predicate IsFirstMissing(es: seq<Element>, k: int)
  {
    0 <= k < |es| && IncludeName !in es[k].attributes &&
    forall j :: 0 <= j < k ==> IncludeName in es[j].attributes
  }

  lemma FirstMissingShift(es: seq<Element>, k: nat)
    requires es != [] && IncludeName in es[0].attributes && IsFirstMissing(es[1..], k)
    ensures IsFirstMissing(es, k + 1) && es[k + 1] == es[1..][k]
  {
    forall j | 0 < j < k + 1
      ensures IncludeName in es[j].attributes
    {
      assert es[j] == es[1..][j - 1];
    }
  }

  /**
   * One record per element, in order; the first element without `Include`
   * makes the whole extraction fail.
   */
  function SelectReferences(es: seq<Element>): (r: Result<seq<Reference>, ExtractError>)
    ensures r.Success? <==> forall k :: 0 <= k < |es| ==> IncludeName in es[k].attributes
    ensures r.Success? ==> |r.value| == |es|
  {
    if es == [] then Success([])
    else
      var rest := SelectReferences(es[1..]);
      match ToReference(es[0])
      case Failure(f) => Failure(f)
      case Success(x) =>
        if rest.Failure? then rest
        else
          assert forall k :: 1 <= k < |es| ==> es[k] == es[1..][k - 1];
          Success([x] + rest.value)
  }

  /** The record at position `k` is built from the element at position `k`. */
  lemma {:induction false} SelectReferencesAt(es: seq<Element>, k: nat)
    requires SelectReferences(es).Success? && k < |es|
    ensures IncludeName in es[k].attributes
    ensures SelectReferences(es).value[k] == Reference(es[k].attributes[IncludeName], HintPath(es[k]))
  {
    if k > 0 {
      SelectReferencesAt(es[1..], k - 1);
      assert es[k] == es[1..][k - 1];
    }
  }

  /** A failure names the first element that lacks `Include`. */
  lemma {:induction false} SelectReferencesFailure(es: seq<Element>)
    requires SelectReferences(es).Failure?
    ensures exists k :: IsFirstMissing(es, k) && SelectReferences(es).error == MissingInclude(es[k])
  {
    if IncludeName !in es[0].attributes {
      assert IsFirstMissing(es, 0);
    } else {
      SelectReferencesFailure(es[1..]);
      var k :| IsFirstMissing(es[1..], k) && SelectReferences(es[1..]).error == MissingInclude(es[1..][k]);
      FirstMissingShift(es, k);
    }
  }

  lemma {:induction false} SelectReferencesAppend(a: seq<Element>, b: seq<Element>)
    ensures SelectReferences(a + b) == Then(SelectReferences(a), SelectReferences(b))
  {
    if a == [] {
      assert a + b == b;
      var right := SelectReferences(b);
      if right.Success? { assert [] + right.value == right.value; }
    } else {
      assert (a + b)[0] == a[0];
      assert (a + b)[1..] == a[1..] + b;
      SelectReferencesAppend(a[1..], b);
      var tail, right := SelectReferences(a[1..]), SelectReferences(b);
      match ToReference(a[0])
      case Failure(f) =>
      case Success(x) =>
        if tail.Success? && right.Success? {
          assert [x] + (tail.value + right.value) == ([x] + tail.value) + right.value;
        }
    }
  }

  /** The extraction query: `Descendants().Where(local name is Reference).Select(record)`. */
  function GetReferences(root: Element): (r: Result<seq<Reference>, ExtractError>)
    ensures r.Success? ==> |r.value| == |ReferenceElements(Descendants(root))|
  {
    SelectReferences(ReferenceElements(Descendants(root)))
  }

  /** No `Reference` element anywhere in the document: nothing is extracted, and nothing fails. */
  lemma NoReferenceElements(root: Element)
    requires forall x :: x in Descendants(root) ==> x.localName != ReferenceName
    ensures GetReferences(root) == Success([])
  {
  }

  /** Extraction succeeds exactly when every `Reference` element in the document has an `Include` attribute. */
  lemma GetReferencesSucceeds(root: Element)
    ensures GetReferences(root).Success? <==>
            forall x :: x in Descendants(root) && x.localName == ReferenceName ==> IncludeName in x.attributes
  {
    var es := ReferenceElements(Descendants(root));
    if GetReferences(root).Success? {
      forall x | x in Descendants(root) && x.localName == ReferenceName
        ensures IncludeName in x.attributes
      {
        assert x in es;
        var k :| 0 <= k < |es| && es[k] == x;
      }
    }
  }

  /**
   * A `Reference` element at any depth is found: the record built from it
   * appears in the result.
   */
  lemma ReferenceAtAnyDepth(root: Element, path: seq<nat>)
    requires Follow(root, path).Some? && Follow(root, path).value.localName == ReferenceName
    requires GetReferences(root).Success?
    ensures var x := Follow(root, path).value;
            IncludeName in x.attributes &&
            Reference(x.attributes[IncludeName], HintPath(x)) in GetReferences(root).value
  {
    var x := Follow(root, path).value;
    FollowIsDescendant(root, path);
    var es := ReferenceElements(Descendants(root));
    assert x in es;
    var k :| 0 <= k < |es| && es[k] == x;
    SelectReferencesAt(es, k);
    assert GetReferences(root).value[k] == Reference(x.attributes[IncludeName], HintPath(x));
  }

  /** A project document with one `Reference` element carrying `Include` and a `HintPath` child. */
  function OneReferenceProject(identity: string, hint: string): Element
  {
    Element("Project", map[], [Element(ReferenceName, map[IncludeName := identity], [Element(HintPathName, map[], [], hint)], "")], "")
  }

  /** Its one reference is extracted with that identity and hint path. */
  lemma OneReferenceProjectReferences(identity: string, hint: string)
    ensures GetReferences(OneReferenceProject(identity, hint)) == Success([Reference(identity, Some(hint))])
  {
    var refElement := OneReferenceProject(identity, hint).children[0];
    OneReferenceProjectElements(identity, hint);
    assert HintPath(refElement) == Some(hint);
    assert SelectReferences([refElement]) == Success([Reference(identity, Some(hint))]) by {
      assert [refElement][1..] == [];
      assert ToReference(refElement) == Success(Reference(identity, Some(hint)));
      assert SelectReferences([]) == Success([]);
      assert [Reference(identity, Some(hint))] + [] == [Reference(identity, Some(hint))];
    }
  }

  /** The only `Reference` element of the one-reference project is its single child. */
  lemma OneReferenceProjectElements(identity: string, hint: string)
    ensures var root := OneReferenceProject(identity, hint);
            ReferenceElements(Descendants(root)) == [root.children[0]]
  {
    var root := OneReferenceProject(identity, hint);
    var refElement := root.children[0];
    var hintElement := refElement.children[0];
    assert ReferenceElements(Descendants(hintElement)) == [];
    assert ReferenceElements(Descendants(refElement)) == [refElement] by {
      ReferenceElementsAppend([refElement], ForestDescendants([hintElement]));
      assert ForestDescendants([hintElement]) == Descendants(hintElement) + ForestDescendants([]);
    }
    ReferenceElementsAppend([root], ForestDescendants([refElement]));
    assert ForestDescendants([refElement]) == Descendants(refElement) + ForestDescendants([]);
  }

  /** The record contributed by the element itself, without its children. */
  function OwnReference(e: Element): Result<seq<Reference>, ExtractError>
  {
    if e.localName != ReferenceName then Success([])
    else if IncludeName in e.attributes then Success([Reference(e.attributes[IncludeName], HintPath(e))])
    else Failure(MissingInclude(e))
  }

  /** A structural definition of extraction: the element's own record first, then each child's, in order. */
  function TreeReferences(e: Element): Result<seq<Reference>, ExtractError>
    decreases e, 1
  {
    Then(OwnReference(e), ForestReferences(e.children))
  }

  function ForestReferences(es: seq<Element>): Result<seq<Reference>, ExtractError>
    decreases es, 0
  {
    if es == [] then Success([]) else Then(TreeReferences(es[0]), ForestReferences(es[1..]))
  }

  /** The extraction query and the structural definition agree on every document. */
  lemma {:induction false} GetReferencesIsStructural(e: Element)
    ensures GetReferences(e) == TreeReferences(e)
    decreases e, 1
  {
    ReferenceElementsAppend([e], ForestDescendants(e.children));
    var own := ReferenceElements([e]);
    var rest := ReferenceElements(ForestDescendants(e.children));
    SelectReferencesAppend(own, rest);
    ForestIsStructural(e.children);
    if e.localName == ReferenceName {
      assert own == [e];
      var r := SelectReferences(own);
      if r.Success? {
        assert r.value == [Reference(e.attributes[IncludeName], HintPath(e))];
      }
    } else {
      assert own == [];
      var f := ForestReferences(e.children);
      if f.Success? { assert [] + f.value == f.value; }
    }
  }

  lemma {:induction false} ForestIsStructural(es: seq<Element>)
    ensures SelectReferences(ReferenceElements(ForestDescendants(es))) == ForestReferences(es)
    decreases es, 0
  {
    if es != [] {
      ReferenceElementsAppend(Descendants(es[0]), ForestDescendants(es[1..]));
      SelectReferencesAppend(ReferenceElements(Descendants(es[0])), ReferenceElements(ForestDescendants(es[1..])));
      GetReferencesIsStructural(es[0]);
      ForestIsStructural(es[1..]);
    }
  }
}
