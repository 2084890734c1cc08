/**
 * The part of `xml.etree.ElementTree` the descriptor builder uses: elements
 * that carry a tag, an optional text, attributes and an ordered list of
 * children, built in place by `ET.Element`, `ET.SubElement`, `element.set`
 * and assignments to `element.text`.
 *
 * `Tree` is the value of an element, which is all that serialisation writes
 * out; `Holds(e, t, fp)` says that the objects under `e` currently look
 * like `t`, where `fp` holds every object of that subtree.
 */
module Xml {
  import opened Wrappers

  datatype Tree = Tree(tag: string, text: Option<string>, attrib: map<string, string>, children: seq<Tree>)

  /** An element with a text and nothing under it. */
  function Leaf(tag: string, text: string): Tree {
    Tree(tag, Some(text), map[], [])
  }

  /** An element with children and no text. */
  function Branch(tag: string, children: seq<Tree>): Tree {
    Tree(tag, None, map[], children)
  }

  class Element {
    var tag: string
    var text: Option<string>
    var attrib: map<string, string>
    var children: seq<Element>

    /** `ET.Element(tag)`: a new element with no text, attributes or children. */
    constructor (tag: string)
      ensures this.tag == tag && text == None && attrib == map[] && children == []
    {
      this.tag := tag;
      text := None;
      attrib := map[];
      children := [];
    }

    /** `element.set(key, value)`: sets one attribute. */
    method Set(key: string, value: string)
      modifies this
      ensures attrib == old(attrib)[key := value]
      ensures tag == old(tag) && text == old(text) && children == old(children)
    {
      attrib := attrib[key := value];
    }
  }

  /** `ET.SubElement(parent, tag)`: a new element appended as the last child of `parent`. */
  method SubElement(parent: Element, tag: string) returns (e: Element)
    modifies parent
    ensures fresh(e)
    ensures e.tag == tag && e.text == None && e.attrib == map[] && e.children == []
    ensures parent.children == old(parent.children) + [e]
    ensures parent.tag == old(parent.tag) && parent.text == old(parent.text)
    ensures parent.attrib == old(parent.attrib)
  {
    e := new Element(tag);
    parent.children := parent.children + [e];
  }

  /**
   * `e = ET.SubElement(parent, tag); e.text = text`: a new leaf appended to
   * `parent`; the leaf is its own footprint.
   */
  method AddLeaf(parent: Element, tag: string, text: string) returns (e: Element)
    modifies parent
    ensures fresh(e) && Holds(e, Leaf(tag, text), {e})
    ensures parent.children == old(parent.children) + [e]
    ensures parent.tag == old(parent.tag) && parent.text == old(parent.text)
    ensures parent.attrib == old(parent.attrib)
  {
    e := SubElement(parent, tag);
    e.text := Some(text);
  }

  /** The objects under `e` look like `t`, and all of them are in `fp`. */
  ghost predicate Holds(e: Element, t: Tree, fp: set<Element>)
    reads fp
    decreases t
  {
    && e in fp
    && e.tag == t.tag && e.text == t.text && e.attrib == t.attrib
    && |e.children| == |t.children|
    && forall i :: 0 <= i < |t.children| ==> Holds(e.children[i], t.children[i], fp)
  }

  /** The elements `es` look like the trees `ts`, one by one. */
  ghost predicate HoldsAll(es: seq<Element>, ts: seq<Tree>, fp: set<Element>)
    reads fp
  {
    |es| == |ts| && forall i :: 0 <= i < |ts| ==> Holds(es[i], ts[i], fp)
  }

  /** A larger footprint still covers the subtree. */
  lemma {:induction false} HoldsMono(e: Element, t: Tree, fp: set<Element>, fp': set<Element>)
    requires Holds(e, t, fp) && fp <= fp'
    ensures Holds(e, t, fp')
    decreases t
  {
    forall i | 0 <= i < |t.children|
      ensures Holds(e.children[i], t.children[i], fp')
    {
      HoldsMono(e.children[i], t.children[i], fp, fp');
    }
  }

  /** A larger footprint still covers every element of the list. */
  lemma HoldsAllMono(es: seq<Element>, ts: seq<Tree>, fp: set<Element>, fp': set<Element>)
    requires HoldsAll(es, ts, fp) && fp <= fp'
    ensures HoldsAll(es, ts, fp')
  {
    forall i | 0 <= i < |ts|
      ensures Holds(es[i], ts[i], fp')
    {
      HoldsMono(es[i], ts[i], fp, fp');
    }
  }

  /**
   * A finished subtree joins a list of finished subtrees; the footprint of
   * the list grows by that of the subtree.
   */
  lemma Adopt(es: seq<Element>, ts: seq<Tree>, fp: set<Element>, e: Element, t: Tree, sub: set<Element>)
    requires HoldsAll(es, ts, fp) && Holds(e, t, sub)
    ensures HoldsAll(es + [e], ts + [t], fp + sub)
  {
    HoldsAllMono(es, ts, fp, fp + sub);
    HoldsMono(e, t, sub, fp + sub);
  }

  /** A leaf element, which is its own footprint. */
  lemma HoldsLeaf(e: Element, tag: string, text: string)
    requires e.tag == tag && e.text == Some(text) && e.attrib == map[] && e.children == []
    ensures Holds(e, Leaf(tag, text), {e})
  {
  }

  /**
   * An element without text or attributes whose children match `ts` within
   * `fp` matches the branch within `fp` and itself.
   */
  lemma HoldsBranch(e: Element, tag: string, ts: seq<Tree>, fp: set<Element>)
    requires e.tag == tag && e.text == None && e.attrib == map[]
    requires HoldsAll(e.children, ts, fp)
    ensures Holds(e, Branch(tag, ts), fp + {e})
  {
    HoldsNode(e, Branch(tag, ts), fp);
  }

  /**
   * An element whose own tag, text and attributes are those of `t` and
   * whose children match the children of `t` within `fp` matches `t`
   * within `fp` and itself.
   */
  lemma HoldsNode(e: Element, t: Tree, fp: set<Element>)
    requires e.tag == t.tag && e.text == t.text && e.attrib == t.attrib
    requires HoldsAll(e.children, t.children, fp)
    ensures Holds(e, t, fp + {e})
  {
    HoldsAllMono(e.children, t.children, fp, fp + {e});
  }

  /**
   * An element whose children are finished subtrees followed by one more
   * finished subtree matches the tree with all of them as children.
   */
  lemma HoldsAppended(e: Element, kids: seq<Element>, ts: seq<Tree>, fp: set<Element>,
                      last: Element, t: Tree, sub: set<Element>)
    requires HoldsAll(kids, ts, fp) && Holds(last, t, sub)
    requires e.children == kids + [last]
    ensures Holds(e, Tree(e.tag, e.text, e.attrib, ts + [t]), fp + sub + {e})
  {
    Adopt(kids, ts, fp, last, t, sub);
    HoldsNode(e, Tree(e.tag, e.text, e.attrib, ts + [t]), fp + sub);
  }

  /** A list one longer than its first `n` elements is those and its last element. */
  lemma SplitLast(es: seq<Element>, n: nat)
    requires |es| == n + 1
    ensures es == es[..n] + [es[n]]
  {
  }

  /**
   * `ET.tostring` at the level of trees: the value of a subtree, read off
   * the objects.
   */
  method Snapshot(e: Element, ghost t: Tree, ghost fp: set<Element>) returns (r: Tree)
    requires Holds(e, t, fp)
    ensures r == t
    decreases t
  {
    var kids: seq<Tree> := [];
    for i := 0 to |e.children|
      invariant kids == t.children[..i]
    {
      var k := Snapshot(e.children[i], t.children[i], fp);
      kids := kids + [k];
    }
    r := Tree(e.tag, e.text, e.attrib, kids);
  }
}
