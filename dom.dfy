/** An abstract DOM, as far as the turbo-button controller touches it: nodes are ids, each
    with a class set, a parent, an ordered child sequence and an owner document. A document
    is itself a node (the owner of a document node is that node), so `document.querySelector`
    and `element.querySelector` are one operation: the first node in the listing `order` that
    lies strictly below the given node and matches the selector. `order` stands for document
    order but is only required to list every node once; it is not derived from the tree. */
module Dom {
  import opened Wrappers

  type NodeId = nat

  /** The eight inline-style properties the controller positions the button with. */
  datatype Style = Style(position: string, right: string, bottom: string, margin: string,
                         marginRight: string, marginTop: string, marginBottom: string,
                         float: string)

  datatype Node = Node(classes: set<string>, parent: Option<NodeId>, children: seq<NodeId>,
                       owner: NodeId, text: string, background: string, style: Style)

  /** A class selector: `.a.b` needs every class, `.a, .b` needs one of them. */
  datatype Selector = AllOf(names: set<string>) | AnyOf(names: set<string>)
  {
    predicate Accepts(classes: set<string>) {
      match this
      case AllOf(names) => names <= classes
      case AnyOf(names) => names * classes != {}
    }
  }

  /** Index of the first occurrence of `a` in `s`. */
  function IndexOf(s: seq<NodeId>, a: NodeId): (i: nat)
    requires a in s
    ensures i < |s| && s[i] == a && a !in s[..i]
  {
    if s[0] == a then 0 else 1 + IndexOf(s[1..], a)
  }

  /** Where `SpliceAfter(s, a, x)` puts `x`: right after the first `a`, or at the end. */
  function SpliceIndex(s: seq<NodeId>, a: NodeId): nat {
    if a in s then IndexOf(s, a) + 1 else |s|
  }

  /** `parent.insertBefore(x, a.nextSibling)` on a child list. */
  function SpliceAfter(s: seq<NodeId>, a: NodeId, x: NodeId): (r: seq<NodeId>)
    ensures var k := SpliceIndex(s, a);
      && k < |r| && r[k] == x
      && r[..k] + r[k + 1..] == s
      && (a in s ==> 0 < k && r[k - 1] == a)
  {
    var k := SpliceIndex(s, a);
    var r := s[..k] + [x] + s[k..];
    assert r[..k] == s[..k] && r[k + 1..] == s[k..];
    r
  }

  lemma SpliceAfterCount(s: seq<NodeId>, a: NodeId, x: NodeId)
    ensures multiset(SpliceAfter(s, a, x)) == multiset(s) + multiset{x}
  {
    var k := SpliceIndex(s, a);
    var r := SpliceAfter(s, a, x);
    assert r == r[..k] + [x] + r[k + 1..];
    assert s == r[..k] + r[k + 1..];
  }

  /** `order` lists every node exactly once and stands for document order. */
  datatype Dom = Dom(nodes: map<NodeId, Node>, order: seq<NodeId>, nextId: NodeId)
  {
    function ParentOf(n: NodeId): Option<NodeId> {
      if n in nodes then nodes[n].parent else None
    }

    /** `o?.parentNode` */
    function Up(o: Option<NodeId>): Option<NodeId> {
      match o
      case None => None
      case Some(n) => ParentOf(n)
    }

    /** `n.parentNode` taken k times (`None` once the chain has ended). */
    function AncestorAt(n: NodeId, k: nat): Option<NodeId> {
      if k == 0 then Some(n) else Up(AncestorAt(n, k - 1))
    }

    predicate HasClass(o: Option<NodeId>, c: string) {
      o.Some? && o.value in nodes && c in nodes[o.value].classes
    }

    /** `n` lies strictly below `scope`. */
    predicate Below(n: NodeId, scope: NodeId) {
      exists k :: 1 <= k < nextId && AncestorAt(n, k) == Some(scope)
    }

    predicate Matches(n: NodeId, scope: NodeId, sel: Selector) {
      n in nodes && Below(n, scope) && sel.Accepts(nodes[n].classes)
    }

    function FirstMatch(s: seq<NodeId>, scope: NodeId, sel: Selector): (r: Option<NodeId>)
      ensures r.Some? ==> r.value in s && Matches(r.value, scope, sel)
      ensures r.None? <==> forall i | 0 <= i < |s| :: !Matches(s[i], scope, sel)
    {
      if s == [] then None
      else if Matches(s[0], scope, sel) then Some(s[0])
      else FirstMatch(s[1..], scope, sel)
    }

    /** `scope.querySelector(sel)`: the first match in `order`. */
    function QuerySelector(scope: NodeId, sel: Selector): Option<NodeId> {
      FirstMatch(order, scope, sel)
    }

    /** The tree is well formed: ids lie below `nextId`, `order` lists exactly the nodes,
        parent and child links agree (a child shares its parent's owner document), every
        ancestor chain ends within `nextId` steps, so the parent relation has no cycle, and a
        node without a parent is a document, its own owner. */
    ghost predicate Valid() {
      IdsBelowNext() && OrderComplete() && Closed() && AllLinked() && Acyclic()
      && DocumentsOwnThemselves()
    }

    ghost predicate DocumentsOwnThemselves() {
      forall n {:trigger nodes[n]} | n in nodes :: nodes[n].parent.None? ==> nodes[n].owner == n
    }

    ghost predicate IdsBelowNext() {
      forall n | n in nodes :: n < nextId
    }

    /** Every node occurs exactly once in `order`, and nothing else does. */
    ghost predicate OrderComplete() {
      multiset(order) == multiset(nodes.Keys)
    }

    ghost predicate Closed() {
      forall n {:trigger nodes[n]} | n in nodes :: nodes[n].parent.Some? ==> nodes[n].parent.value in nodes
    }

    ghost predicate AllLinked() {
      forall n {:trigger Linked(n)} | n in nodes :: Linked(n)
    }

    ghost predicate Acyclic() {
      forall n {:trigger AncestorAt(n, nextId)} | n in nodes :: AncestorAt(n, nextId) == None
    }

    ghost predicate Linked(n: NodeId)
      requires n in nodes
    {
      && (forall c | c in nodes[n].children :: c in nodes && nodes[c].parent == Some(n))
      && (nodes[n].parent.Some? ==>
            var p := nodes[n].parent.value;
            p in nodes && n in nodes[p].children && nodes[p].owner == nodes[n].owner)
    }

    /** `document.createElement` followed by `anchor.parentNode.insertBefore(node,
        anchor.nextSibling)`: the new node gets the next free id, becomes the anchor's
        next sibling and comes right after the anchor in `order`. */
    function InsertAfter(anchor: NodeId, elem: Node): Dom
      requires anchor in nodes && nodes[anchor].parent.Some?
      requires nodes[anchor].parent.value in nodes
    {
      var p := nodes[anchor].parent.value;
      var pn := nodes[p];
      var x := nextId;
      Dom(nodes[p := pn.(children := SpliceAfter(pn.children, anchor, x))]
               [x := elem.(parent := Some(p), children := [], owner := pn.owner)],
          SpliceAfter(order, anchor, x), nextId + 1)
    }

    /** Replaces the record of an existing node (class, text or style writes). */
    function Update(n: NodeId, node: Node): Dom
      requires n in nodes
    {
      this.(nodes := nodes[n := node])
    }

    /** Writes the positional inline style of an existing node. */
    function Restyled(n: NodeId, style: Style): Dom
      requires n in nodes
    {
      Update(n, nodes[n].(style := style))
    }
  }

  lemma {:induction false} AncestorInDom(d: Dom, n: NodeId, k: nat)
    requires d.Closed() && n in d.nodes
    ensures d.AncestorAt(n, k).Some? ==> d.AncestorAt(n, k).value in d.nodes
  {
    if k > 0 {
      AncestorInDom(d, n, k - 1);
      var o := d.AncestorAt(n, k - 1);
    }
  }

  /** Writing back a node's own style changes nothing. */
  lemma RestyleSame(d: Dom, n: NodeId)
    requires n in d.nodes
    ensures d.Restyled(n, d.nodes[n].style) == d
  {
    assert d.nodes[n := d.nodes[n]] == d.nodes;
  }

  /** A node shares the owner document of each of its ancestors. */
  lemma {:induction false} OwnerAlongChain(d: Dom, n: NodeId, k: nat)
    requires d.Closed() && d.AllLinked() && n in d.nodes && d.AncestorAt(n, k).Some?
    ensures d.AncestorAt(n, k).value in d.nodes
    ensures d.nodes[d.AncestorAt(n, k).value].owner == d.nodes[n].owner
  {
    if k > 0 {
      OwnerAlongChain(d, n, k - 1);
      assert d.Linked(d.AncestorAt(n, k - 1).value);
    }
  }

  /** `ownerDocument`: a node below a document belongs to that document. */
  lemma BelowDocumentOwned(d: Dom, n: NodeId, doc: NodeId)
    requires d.Valid() && n in d.nodes && d.Below(n, doc) && d.ParentOf(doc).None?
    ensures d.nodes[n].owner == doc
  {
    var k :| 1 <= k < d.nextId && d.AncestorAt(n, k) == Some(doc);
    OwnerAlongChain(d, n, k);
  }

  lemma {:induction false} AncestorEnded(d: Dom, n: NodeId, k: nat, j: nat)
    requires k <= j && d.AncestorAt(n, k) == None
    ensures d.AncestorAt(n, j) == None
  {
    if k < j {
      AncestorEnded(d, n, k, j - 1);
    }
  }

  /** The chain above `n` is the chain above its parent, one step later. */
  lemma {:induction false} AncestorShift(d: Dom, n: NodeId, p: NodeId, k: nat)
    requires d.ParentOf(n) == Some(p)
    ensures d.AncestorAt(n, k + 1) == d.AncestorAt(p, k)
  {
    if k > 0 {
      AncestorShift(d, n, p, k - 1);
    }
  }

  /** Two trees that agree on the parent of every node of a chain agree on the chain. */
  lemma {:induction false} AncestorsAgree(d: Dom, e: Dom, n: NodeId, k: nat)
    requires d.Closed() && n in d.nodes
    requires forall m | m in d.nodes :: e.ParentOf(m) == d.ParentOf(m)
    ensures e.AncestorAt(n, k) == d.AncestorAt(n, k)
  {
    if k > 0 {
      AncestorsAgree(d, e, n, k - 1);
      AncestorInDom(d, n, k - 1);
    }
  }

  lemma {:induction false} FirstMatchAgree(d: Dom, e: Dom, s: seq<NodeId>, scope: NodeId,
                                           sel: Selector)
    requires forall i | 0 <= i < |s| :: e.Matches(s[i], scope, sel) == d.Matches(s[i], scope, sel)
    ensures e.FirstMatch(s, scope, sel) == d.FirstMatch(s, scope, sel)
  {
    if s != [] {
      FirstMatchAgree(d, e, s[1..], scope, sel);
    }
  }

  lemma {:induction false} FirstMatchSkip(d: Dom, s: seq<NodeId>, k: nat, x: NodeId,
                                          scope: NodeId, sel: Selector)
    requires k <= |s| && !d.Matches(x, scope, sel)
    ensures d.FirstMatch(s[..k] + [x] + s[k..], scope, sel) == d.FirstMatch(s, scope, sel)
  {
    var t := s[..k] + [x] + s[k..];
    if k == 0 {
      assert t[1..] == s;
    } else {
      assert t[0] == s[0];
      assert t[1..] == s[1..][..k - 1] + [x] + s[1..][k - 1..];
      FirstMatchSkip(d, s[1..], k - 1, x, scope, sel);
    }
  }

  /** Inserting after `anchor` adds exactly one node, the next free id, as a childless child
      of the anchor's parent that shares the parent's owner document; it changes no other
      node's record except the parent's child list. */
  lemma InsertAfterShape(d: Dom, anchor: NodeId, elem: Node, e: Dom)
    requires (forall n | n in d.nodes :: n < d.nextId) && anchor in d.nodes && d.nodes[anchor].parent.Some?
    requires d.nodes[anchor].parent.value in d.nodes
    requires e == d.InsertAfter(anchor, elem)
    ensures var p := d.nodes[anchor].parent.value;
      var x := d.nextId;
      && x !in d.nodes && p != x
      && e.nodes.Keys == d.nodes.Keys + {x}
      && e.nextId == x + 1
      && e.nodes[x] == elem.(parent := Some(p), children := [], owner := d.nodes[p].owner)
      && e.nodes[p] == d.nodes[p].(children := SpliceAfter(d.nodes[p].children, anchor, x))
      && (forall n | n in d.nodes && n != p :: e.nodes[n] == d.nodes[n])
      && (forall n | n in d.nodes :: e.ParentOf(n) == d.ParentOf(n))
  {
  }

  /** A tree that keeps the parent of every old node and does not lower `nextId` keeps every
      old node's ancestors, hence what lies below what. */
  lemma AncestryKept(d: Dom, e: Dom)
    requires d.Closed() && d.Acyclic() && d.nextId <= e.nextId
    requires forall n | n in d.nodes :: e.ParentOf(n) == d.ParentOf(n)
    ensures forall n, k: nat | n in d.nodes :: e.AncestorAt(n, k) == d.AncestorAt(n, k)
    ensures forall n, scope: NodeId | n in d.nodes :: e.Below(n, scope) == d.Below(n, scope)
  {
    forall n, k: nat | n in d.nodes ensures e.AncestorAt(n, k) == d.AncestorAt(n, k) {
      AncestorsAgree(d, e, n, k);
    }
    forall n, scope: NodeId | n in d.nodes ensures e.Below(n, scope) == d.Below(n, scope) {
      if e.Below(n, scope) {
        var k :| 1 <= k < e.nextId && e.AncestorAt(n, k) == Some(scope);
        if k >= d.nextId {
          AncestorEnded(d, n, d.nextId, k);
          assert false;
        }
        assert d.AncestorAt(n, k) == Some(scope);
      }
    }
  }

  /** The new node occurs exactly once among its parent's children, right after the anchor. */
  lemma InsertAfterChildren(d: Dom, anchor: NodeId, elem: Node, e: Dom)
    requires d.Valid() && anchor in d.nodes && d.nodes[anchor].parent.Some?
    requires d.nodes[anchor].parent.value in d.nodes
    requires e == d.InsertAfter(anchor, elem)
    ensures var p := d.nodes[anchor].parent.value;
      var kids := e.nodes[p].children;
      var k := SpliceIndex(d.nodes[p].children, anchor);
      && multiset(kids) == multiset(d.nodes[p].children) + multiset{d.nextId}
      && multiset(kids)[d.nextId] == 1
      && 0 < k < |kids| && kids[k - 1] == anchor && kids[k] == d.nextId
  {
    var p := d.nodes[anchor].parent.value;
    InsertAfterShape(d, anchor, elem, e);
    assert d.Linked(anchor) && d.Linked(p);
    SpliceAfterCount(d.nodes[p].children, anchor, d.nextId);
    assert d.nextId !in d.nodes[p].children;
  }

  lemma InsertAfterValid(d: Dom, anchor: NodeId, elem: Node, e: Dom)
    requires d.Valid() && anchor in d.nodes && d.nodes[anchor].parent.Some?
    requires d.nodes[anchor].parent.value in d.nodes
    requires e == d.InsertAfter(anchor, elem)
    ensures e.Valid()
  {
    var p := d.nodes[anchor].parent.value;
    var x := d.nextId;
    InsertAfterShape(d, anchor, elem, e);
    InsertAfterChildren(d, anchor, elem, e);
    AddChildValid(d, e, p, x);
    SpliceAfterCount(d.order, anchor, x);
    assert multiset(e.order) == multiset(d.order) + multiset{x};
    OrderKept(d, e, x);
  }

  /** A query whose selector rejects the new node answers as before the insertion. */
  lemma InsertAfterQueryKept(d: Dom, anchor: NodeId, elem: Node, e: Dom, scope: NodeId, sel: Selector)
    requires d.IdsBelowNext() && d.OrderComplete() && d.Closed() && d.Acyclic()
    requires anchor in d.nodes && d.nodes[anchor].parent.Some?
    requires d.nodes[anchor].parent.value in d.nodes
    requires e == d.InsertAfter(anchor, elem) && !sel.Accepts(elem.classes)
    ensures e.QuerySelector(scope, sel) == d.QuerySelector(scope, sel)
  {
    var x := d.nextId;
    InsertAfterShape(d, anchor, elem, e);
    AncestryKept(d, e);
    forall i | 0 <= i < |d.order|
      ensures e.Matches(d.order[i], scope, sel) == d.Matches(d.order[i], scope, sel)
    {
      InOrderIsNode(d, i);
    }
    FirstMatchAgree(d, e, d.order, scope, sel);
    var k := SpliceIndex(d.order, anchor);
    assert e.order == d.order[..k] + [x] + d.order[k..];
    FirstMatchSkip(e, d.order, k, x, scope, sel);
  }

  /** When nothing below the anchor's parent matched, the new node, if the selector accepts
      it, is the one and only match there afterwards. */
  lemma InsertAfterFirstMatch(d: Dom, anchor: NodeId, elem: Node, e: Dom, sel: Selector)
    requires d.IdsBelowNext() && d.OrderComplete() && d.Closed() && d.Acyclic()
    requires anchor in d.nodes && d.nodes[anchor].parent.Some?
    requires d.nodes[anchor].parent.value in d.nodes
    requires e == d.InsertAfter(anchor, elem) && sel.Accepts(elem.classes)
    requires d.QuerySelector(d.nodes[anchor].parent.value, sel) == None
    ensures var p := d.nodes[anchor].parent.value;
      && e.QuerySelector(p, sel) == Some(d.nextId)
      && e.Matches(d.nextId, p, sel)
      && (forall n | n in d.nodes :: !d.Matches(n, p, sel) && !e.Matches(n, p, sel))
  {
    var p := d.nodes[anchor].parent.value;
    var x := d.nextId;
    InsertAfterShape(d, anchor, elem, e);
    AncestryKept(d, e);
    forall n | n in d.nodes ensures !d.Matches(n, p, sel) && !e.Matches(n, p, sel) {
      NodeIsInOrder(d, n);
      var i :| 0 <= i < |d.order| && d.order[i] == n;
    }
    assert e.AncestorAt(x, 1) == Some(p);
    assert e.Matches(x, p, sel);
    var k := SpliceIndex(d.order, anchor);
    assert e.order[k] == x;
    var r := e.QuerySelector(p, sel);
    assert r.Some?;
    assert r.value in e.order;
  }

  lemma NodeIsInOrder(d: Dom, n: NodeId)
    requires d.OrderComplete() && n in d.nodes
    ensures n in d.order
  {
    assert n in multiset(d.nodes.Keys);
    assert n in multiset(d.order);
  }

  lemma InOrderIsNode(d: Dom, i: int)
    requires d.OrderComplete() && 0 <= i < |d.order|
    ensures d.order[i] in d.nodes
  {
    assert d.order[i] in multiset(d.order);
    assert d.order[i] in multiset(d.nodes.Keys);
  }

  lemma OrderKept(d: Dom, e: Dom, x: NodeId)
    requires d.OrderComplete() && x !in d.nodes
    requires e.nodes.Keys == d.nodes.Keys + {x}
    requires multiset(e.order) == multiset(d.order) + multiset{x}
    ensures e.OrderComplete()
  {
    var keys := multiset(e.nodes.Keys);
    forall y ensures keys[y] == (multiset(d.nodes.Keys) + multiset{x})[y] {
      if y == x {
        assert y in e.nodes.Keys && y !in d.nodes.Keys;
      } else if y in d.nodes.Keys {
        assert y in e.nodes.Keys;
      } else {
        assert y !in e.nodes.Keys;
      }
    }
    assert keys == multiset(d.nodes.Keys) + multiset{x};
  }

  /** Adding a childless node `x` under `p`, where `x` is a new id and only `p`'s child list
      gains `x`, keeps the links, closure and acyclicity of the tree. */
  lemma AddChildValid(d: Dom, e: Dom, p: NodeId, x: NodeId)
    requires d.IdsBelowNext() && d.Closed() && d.AllLinked() && d.Acyclic()
    requires x == d.nextId && e.nextId == x + 1 && p in d.nodes
    requires e.nodes.Keys == d.nodes.Keys + {x}
    requires e.nodes[x].parent == Some(p) && e.nodes[x].children == []
    requires e.nodes[x].owner == d.nodes[p].owner
    requires forall n | n in d.nodes && n != p :: e.nodes[n] == d.nodes[n]
    requires e.nodes[p].parent == d.nodes[p].parent && e.nodes[p].owner == d.nodes[p].owner
    requires multiset(e.nodes[p].children) == multiset(d.nodes[p].children) + multiset{x}
    ensures e.IdsBelowNext() && e.Closed() && e.AllLinked() && e.Acyclic()
  {
    AddChildAcyclic(d, e, p, x);
    forall n | n in e.nodes ensures e.Linked(n) {
      if n == x {
        assert x in multiset(e.nodes[p].children);
      } else if n == p {
        AddChildParentLinked(d, e, p, x);
      } else {
        assert d.Linked(n);
        if d.nodes[n].parent.Some? && d.nodes[n].parent.value == p {
          assert n in multiset(d.nodes[p].children);
          assert n in multiset(e.nodes[p].children);
        }
      }
    }
  }

  lemma AddChildAcyclic(d: Dom, e: Dom, p: NodeId, x: NodeId)
    requires d.IdsBelowNext() && d.Closed() && d.Acyclic()
    requires x == d.nextId && e.nextId == x + 1 && p in d.nodes
    requires e.nodes.Keys == d.nodes.Keys + {x}
    requires e.nodes[x].parent == Some(p)
    requires forall n | n in d.nodes :: e.nodes[n].parent == d.nodes[n].parent
    ensures e.IdsBelowNext() && e.Closed() && e.Acyclic()
  {
    assert forall n | n in d.nodes :: e.ParentOf(n) == d.ParentOf(n);
    AncestryKept(d, e);
    AncestorShift(e, x, p, d.nextId);
    forall n | n in d.nodes ensures e.AncestorAt(n, e.nextId) == None {
      AncestorEnded(d, n, d.nextId, e.nextId);
    }
  }

  lemma AddChildParentLinked(d: Dom, e: Dom, p: NodeId, x: NodeId)
    requires d.Closed() && p in d.nodes && d.Linked(p)
    requires d.nodes[p].parent.Some? ==> d.Linked(d.nodes[p].parent.value)
    requires e.nodes.Keys == d.nodes.Keys + {x} && p != x
    requires e.nodes[x].parent == Some(p)
    requires forall n | n in d.nodes && n != p :: e.nodes[n] == d.nodes[n]
    requires e.nodes[p].parent == d.nodes[p].parent && e.nodes[p].owner == d.nodes[p].owner
    requires multiset(e.nodes[p].children) == multiset(d.nodes[p].children) + multiset{x}
    ensures e.Linked(p)
  {
    forall c | c in e.nodes[p].children ensures c in e.nodes && e.nodes[c].parent == Some(p) {
      assert c in multiset(e.nodes[p].children);
      if c != x { assert c in d.nodes[p].children; }
    }
    if d.nodes[p].parent.Some? {
      var q := d.nodes[p].parent.value;
      if q == p {
        assert p in multiset(e.nodes[p].children);
      } else {
        assert e.nodes[q] == d.nodes[q];
      }
    }
  }

  /** Rewriting a node's classes, text, colour or style leaves the tree's shape, and every
      node's ancestry, as it was. */
  lemma UpdateKeepsShape(d: Dom, n: NodeId, node: Node)
    requires d.Valid() && n in d.nodes
    requires node.parent == d.nodes[n].parent && node.children == d.nodes[n].children
    requires node.owner == d.nodes[n].owner
    ensures var e := d.Update(n, node);
      && e.Valid()
      && (forall m | m in d.nodes :: e.ParentOf(m) == d.ParentOf(m))
      && (forall m, k: nat | m in d.nodes :: e.AncestorAt(m, k) == d.AncestorAt(m, k))
      && (forall m, scope: NodeId | m in d.nodes :: e.Below(m, scope) == d.Below(m, scope))
  {
    var e := d.Update(n, node);
    UpdateKeepsValid(d, n, node);
    assert forall m | m in d.nodes :: e.ParentOf(m) == d.ParentOf(m);
    AncestryKept(d, e);
  }

  lemma UpdateKeepsValid(d: Dom, n: NodeId, node: Node)
    requires d.Valid() && n in d.nodes
    requires node.parent == d.nodes[n].parent && node.children == d.nodes[n].children
    requires node.owner == d.nodes[n].owner
    ensures d.Update(n, node).Valid()
  {
    var e := d.Update(n, node);
    UpdateKeepsAcyclic(d, n, node);
    forall m | m in e.nodes ensures e.Linked(m) {
      UpdateKeepsLinked(d, n, node, m);
    }
  }

  lemma UpdateKeepsAcyclic(d: Dom, n: NodeId, node: Node)
    requires d.Closed() && d.Acyclic() && n in d.nodes
    requires node.parent == d.nodes[n].parent
    ensures d.Update(n, node).Acyclic()
  {
    var e := d.Update(n, node);
    assert forall m | m in d.nodes :: e.ParentOf(m) == d.ParentOf(m);
    forall m | m in e.nodes ensures e.AncestorAt(m, e.nextId) == None {
      AncestorsAgree(d, e, m, e.nextId);
    }
  }

  lemma UpdateKeepsLinked(d: Dom, n: NodeId, node: Node, m: NodeId)
    requires n in d.nodes && m in d.nodes && d.Linked(m)
    requires node.parent == d.nodes[n].parent && node.children == d.nodes[n].children
    requires node.owner == d.nodes[n].owner
    ensures d.Update(n, node).Linked(m)
  {
  }

  /** ... and when the classes stay too, every `querySelector` answers as before. */
  lemma UpdateKeepsQueries(d: Dom, n: NodeId, node: Node, scope: NodeId, sel: Selector)
    requires d.Valid() && n in d.nodes
    requires node.parent == d.nodes[n].parent && node.children == d.nodes[n].children
    requires node.owner == d.nodes[n].owner && node.classes == d.nodes[n].classes
    ensures d.Update(n, node).QuerySelector(scope, sel) == d.QuerySelector(scope, sel)
  {
    var e := d.Update(n, node);
    UpdateKeepsShape(d, n, node);
    FirstMatchAgree(d, e, d.order, scope, sel);
  }

  /** Climbing `k` then `j` steps is climbing `k + j` steps. */
  lemma {:induction false} AncestorCompose(d: Dom, n: NodeId, k: nat, j: nat)
    ensures d.AncestorAt(n, k + j) ==
      match d.AncestorAt(n, k)
      case None => None
      case Some(m) => d.AncestorAt(m, j)
  {
    if j > 0 {
      AncestorCompose(d, n, k, j - 1);
    }
  }

  lemma {:induction false} AncestorCycle(d: Dom, n: NodeId, k: nat, j: nat)
    requires d.AncestorAt(n, k) == Some(n)
    ensures d.AncestorAt(n, j * k) == Some(n)
  {
    if j > 0 {
      AncestorCycle(d, n, k, j - 1);
      assert j * k == (j - 1) * k + k;
      AncestorCompose(d, n, (j - 1) * k, k);
    }
  }

  /** In a well-formed tree no node is its own ancestor. */
  lemma NoSelfAncestor(d: Dom, n: NodeId, k: nat)
    requires d.Acyclic() && n in d.nodes && 1 <= k
    ensures d.AncestorAt(n, k) != Some(n)
  {
    if d.AncestorAt(n, k) == Some(n) {
      AncestorCycle(d, n, k, d.nextId);
      assert d.nextId <= d.nextId * k;
      if d.AncestorAt(n, d.nextId) == None {
        AncestorEnded(d, n, d.nextId, d.nextId * k);
      }
    }
  }
}
