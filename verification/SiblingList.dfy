/**
 Child lists: singly linked forwards, and backwards with the first child pointing to the last one; and a document
 tree under inserts, removals and guarded moves.
 */
module SiblingList {

  import opened XmlTree
  import opened XmlNodes

  // ---- one list

  /** What next_sibling and prev_sibling_c of the i-th element hold. */
  function NextOf(ks: seq<XmlNode>, i: nat): XmlNode?
    requires i < |ks|
  {
    if i + 1 < |ks| then ks[i + 1] else null
  }

  function PrevOf(ks: seq<XmlNode>, i: nat): XmlNode
    requires i < |ks|
  {
    ks[if i == 0 then |ks| - 1 else i - 1]
  }

  ghost predicate LinkAt(n: XmlNode, ks: seq<XmlNode>, i: nat)
    requires i < |ks|
    reads ks`parent, ks`nextSibling, ks`prevSiblingC
  {
    ks[i].parent == n && ks[i].nextSibling == NextOf(ks, i) && ks[i].prevSiblingC == PrevOf(ks, i)
  }

  /** ks are the children of n, in order. */
  ghost predicate Children(n: XmlNode, ks: seq<XmlNode>)
    reads n`firstChild, ks`parent, ks`nextSibling, ks`prevSiblingC
  {
    && n.firstChild == (if ks == [] then null else ks[0])
    && (forall i :: 0 <= i < |ks| ==> LinkAt(n, ks, i))
    && (forall i, j :: 0 <= i < j < |ks| ==> ks[i] != ks[j])
  }

  ghost predicate Detached(c: XmlNode)
    reads c
  {
    c.parent == null && c.nextSibling == null && c.prevSiblingC == null
  }

  function Inserted<T>(ks: seq<T>, i: nat, c: T): (r: seq<T>)
    requires i <= |ks|
    ensures |r| == |ks| + 1
    ensures forall j :: 0 <= j < |r| ==> r[j] == if j < i then ks[j] else if j == i then c else ks[j - 1]
  {
    ks[..i] + [c] + ks[i..]
  }

  function Removed<T>(ks: seq<T>, i: nat): (r: seq<T>)
    requires i < |ks|
    ensures |r| == |ks| - 1
    ensures forall j :: 0 <= j < |r| ==> r[j] == ks[if j < i then j else j + 1]
  {
    ks[..i] + ks[i + 1..]
  }

  /** Removing what was inserted gives the list back. */
  lemma RemoveInserted<T>(ks: seq<T>, i: nat, c: T)
    requires i <= |ks|
    ensures Removed(Inserted(ks, i, c), i) == ks
  {
  }

  /** The index of the element that follows the inserted one, cyclically. */
  function After(ks: seq<XmlNode>, k: nat): nat
    requires k <= |ks|
  {
    if k < |ks| then k else 0
  }

  /** Element j once c has been linked in at k. */
  ghost predicate MakesRoom(p: XmlNode, ks: seq<XmlNode>, k: nat, c: XmlNode, j: nat)
    requires k <= |ks| && j < |ks|
    reads ks[j]
  {
    && ks[j].parent == p
    && ks[j].nextSibling == (if j == k - 1 then c else NextOf(ks, j))
    && ks[j].prevSiblingC == (if j == After(ks, k) then c else PrevOf(ks, j))
  }

  /** Element j once the one at k has been taken out. */
  ghost predicate ClosesUp(p: XmlNode, ks: seq<XmlNode>, k: nat, j: nat)
    requires k < |ks| && j < |ks|
    reads ks[j]
  {
    && ks[j].parent == p
    && ks[j].nextSibling == (if j == k - 1 then NextOf(ks, k) else NextOf(ks, j))
    && ks[j].prevSiblingC == (if j == After(ks, k + 1) then PrevOf(ks, k) else PrevOf(ks, j))
  }

  /** Inserting c at k changes one forward and one backward link. */
  lemma InsertLinks(p: XmlNode, ks: seq<XmlNode>, k: nat, c: XmlNode)
    requires k <= |ks| && c !in ks && forall i, j :: 0 <= i < j < |ks| ==> ks[i] != ks[j]
    requires c.parent == p && c.nextSibling == (if k < |ks| then ks[k] else null)
    requires c.prevSiblingC == if ks == [] then c else PrevOf(ks, After(ks, k))
    requires forall j :: 0 <= j < |ks| ==> MakesRoom(p, ks, k, c, j)
    requires p.firstChild == if k == 0 then c else ks[0]
    ensures Children(p, Inserted(ks, k, c))
  {
    var r := Inserted(ks, k, c);
    forall i | 0 <= i < |r| ensures LinkAt(p, r, i) {
      InsertedNext(ks, k, c, i);
      InsertedPrev(ks, k, c, i);
      hide NextOf, PrevOf, After;
      if i != k { assert MakesRoom(p, ks, k, c, if i < k then i else i - 1); }
      assert r[i] == if i < k then ks[i] else if i == k then c else ks[i - 1];
    }
  }

  lemma InsertedNext(ks: seq<XmlNode>, k: nat, c: XmlNode, i: nat)
    requires k <= |ks| && i <= |ks|
    ensures NextOf(Inserted(ks, k, c), i) ==
              if i == k then (if k < |ks| then ks[k] else null)
              else if i == k - 1 then c else NextOf(ks, if i < k then i else i - 1)
  {
  }

  lemma InsertedPrev(ks: seq<XmlNode>, k: nat, c: XmlNode, i: nat)
    requires k <= |ks| && i <= |ks|
    ensures PrevOf(Inserted(ks, k, c), i) ==
              if i == k then (if ks == [] then c else PrevOf(ks, After(ks, k)))
              else
                var j := if i < k then i else i - 1;
                if j == After(ks, k) then c else PrevOf(ks, j)
  {
  }

  lemma RemovedNext(ks: seq<XmlNode>, k: nat, i: nat)
    requires k < |ks| && i < |ks| - 1
    ensures NextOf(Removed(ks, k), i) == if i == k - 1 then NextOf(ks, k) else NextOf(ks, if i < k then i else i + 1)
  {
  }

  lemma RemovedPrev(ks: seq<XmlNode>, k: nat, i: nat)
    requires k < |ks| && i < |ks| - 1
    ensures var j := if i < k then i else i + 1;
            PrevOf(Removed(ks, k), i) == if j == After(ks, k + 1) then PrevOf(ks, k) else PrevOf(ks, j)
  {
  }

  /** Removing the element at k changes one forward and one backward link. */
  lemma RemoveLinks(p: XmlNode, ks: seq<XmlNode>, k: nat)
    requires k < |ks| && forall i, j :: 0 <= i < j < |ks| ==> ks[i] != ks[j]
    requires forall j :: 0 <= j < |ks| && j != k ==> ClosesUp(p, ks, k, j)
    requires p.firstChild == if k == 0 then NextOf(ks, 0) else ks[0]
    ensures Children(p, Removed(ks, k))
  {
    var r := Removed(ks, k);
    forall i | 0 <= i < |r| ensures LinkAt(p, r, i) {
      RemovedNext(ks, k, i);
      RemovedPrev(ks, k, i);
      hide NextOf, PrevOf, After;
      assert ClosesUp(p, ks, k, if i < k then i else i + 1);
      assert r[i] == if i < k then ks[i] else ks[i + 1];
    }
  }

  /** append_node; next_sibling is left alone, so the child must not have one. */
  method AppendNode(child: XmlNode, node: XmlNode, ghost ks: seq<XmlNode>)
    requires Children(node, ks) && child.nextSibling == null && child !in ks
    modifies node`firstChild, child`parent, child`prevSiblingC, ks`nextSibling, ks`prevSiblingC
    ensures Children(node, Inserted(ks, |ks|, child))
  {
    child.parent := node;
    var head := node.firstChild;
    if head != null {
      assert LinkAt(node, ks, 0) && LinkAt(node, ks, |ks| - 1);
      var tail := head.prevSiblingC;
      tail.nextSibling := child;
      child.prevSiblingC := tail;
      head.prevSiblingC := child;
    } else {
      node.firstChild := child;
      child.prevSiblingC := child;
    }
    forall j | 0 <= j < |ks| ensures MakesRoom(node, ks, |ks|, child, j) { assert old(LinkAt(node, ks, j)); }
    InsertLinks(node, ks, |ks|, child);
  }

  /** prepend_node. */
  method PrependNode(child: XmlNode, node: XmlNode, ghost ks: seq<XmlNode>)
    requires Children(node, ks) && child !in ks
    modifies node`firstChild, child`parent, child`nextSibling, child`prevSiblingC, ks`prevSiblingC
    ensures Children(node, Inserted(ks, 0, child))
  {
    child.parent := node;
    var head := node.firstChild;
    if head != null {
      assert LinkAt(node, ks, 0);
      child.prevSiblingC := head.prevSiblingC;
      head.prevSiblingC := child;
    } else {
      child.prevSiblingC := child;
    }
    child.nextSibling := head;
    node.firstChild := child;
    forall j | 0 <= j < |ks| ensures MakesRoom(node, ks, 0, child, j) { assert old(LinkAt(node, ks, j)); }
    InsertLinks(node, ks, 0, child);
  }

  /** insert_node_after, node being child k of its parent p. */
  method InsertNodeAfter(child: XmlNode, node: XmlNode, ghost p: XmlNode, ghost ks: seq<XmlNode>, ghost k: nat)
    requires Children(p, ks) && child !in ks && k < |ks| && node == ks[k]
    modifies child`parent, child`nextSibling, child`prevSiblingC, ks`nextSibling, ks`prevSiblingC
    ensures Children(p, Inserted(ks, k + 1, child))
  {
    assert LinkAt(p, ks, k) && LinkAt(p, ks, 0);
    var parent := node.parent;
    child.parent := parent;
    var next := node.nextSibling;
    if next != null {
      assert LinkAt(p, ks, k + 1);
      next.prevSiblingC := child;
    } else {
      parent.firstChild.prevSiblingC := child;
    }
    child.nextSibling := next;
    child.prevSiblingC := node;
    node.nextSibling := child;
    ghost var at := k + 1;
    forall j | 0 <= j < |ks| ensures MakesRoom(p, ks, at, child, j) { assert old(LinkAt(p, ks, j)); }
    InsertLinks(p, ks, at, child);
  }

  /** insert_node_before, node being child k of its parent p. */
  method InsertNodeBefore(child: XmlNode, node: XmlNode, ghost p: XmlNode, ghost ks: seq<XmlNode>, ghost k: nat)
    requires Children(p, ks) && child !in ks && k < |ks| && node == ks[k]
    modifies p`firstChild, child`parent, child`nextSibling, child`prevSiblingC, ks`nextSibling, ks`prevSiblingC
    ensures Children(p, Inserted(ks, k, child))
  {
    assert LinkAt(p, ks, k) && LinkAt(p, ks, if k == 0 then |ks| - 1 else k - 1);
    var parent := node.parent;
    child.parent := parent;
    var prev := node.prevSiblingC;
    if prev.nextSibling != null {
      prev.nextSibling := child;
    } else {
      parent.firstChild := child;
    }
    child.prevSiblingC := prev;
    child.nextSibling := node;
    node.prevSiblingC := child;
    forall j | 0 <= j < |ks| ensures MakesRoom(p, ks, k, child, j) { assert old(LinkAt(p, ks, j)); }
    InsertLinks(p, ks, k, child);
  }

  /** remove_node, node being child k of its parent p. */
  method RemoveNode(node: XmlNode, ghost p: XmlNode, ghost ks: seq<XmlNode>, ghost k: nat)
    requires Children(p, ks) && k < |ks| && node == ks[k]
    modifies p`firstChild, node`parent, ks`nextSibling, ks`prevSiblingC
    ensures Children(p, Removed(ks, k)) && Detached(node)
  {
    assert LinkAt(p, ks, k) && LinkAt(p, ks, 0) && LinkAt(p, ks, if k == 0 then |ks| - 1 else k - 1);
    var parent := node.parent;
    var next := node.nextSibling;
    var prev := node.prevSiblingC;
    if next != null {
      assert LinkAt(p, ks, k + 1);
      next.prevSiblingC := prev;
    } else {
      parent.firstChild.prevSiblingC := prev;
    }
    if prev.nextSibling != null {
      prev.nextSibling := next;
    } else {
      parent.firstChild := next;
    }
    node.parent := null;
    node.prevSiblingC := null;
    node.nextSibling := null;
    forall j | 0 <= j < |ks| && j != k ensures ClosesUp(p, ks, k, j) { assert old(LinkAt(p, ks, j)); }
    RemoveLinks(p, ks, k);
  }

  // ---- many lists

  /** The lists other than p's, which share no node with ks. */
  ghost predicate OtherLists(all: set<XmlNode>, ms: map<XmlNode, seq<XmlNode>>, p: XmlNode, ks: seq<XmlNode>)
    reads all
  {
    && ms.Keys <= all && (forall m :: m in ms.Keys ==> forall c :: c in ms[m] ==> c in all)
    && (forall m :: m in ms.Keys && m != p ==> Children(m, ms[m]))
    && (forall m :: m in ms.Keys && m != p ==> forall c :: c in ms[m] ==> c !in ks)
  }

  /** remove_node leaves every other list alone. */
  method RemoveNodeOnly(node: XmlNode, ghost p: XmlNode, ghost ks: seq<XmlNode>, ghost k: nat, ghost all: set<XmlNode>, ghost ms: map<XmlNode, seq<XmlNode>>)
    requires Children(p, ks) && k < |ks| && node == ks[k] && OtherLists(all, ms, p, ks)
    modifies p`firstChild, node`parent, ks`nextSibling, ks`prevSiblingC
    ensures Children(p, Removed(ks, k)) && Detached(node) && OtherLists(all, ms, p, ks)
  {
    assert node in ks;
    RemoveNode(node, p, ks, k);
    hide Removed, NextOf, PrevOf;
    forall m | m in ms.Keys && m != p ensures Children(m, ms[m]) {
      var os := ms[m];
      assert old(Children(m, os)) && forall c :: c in os ==> c !in ks;
      forall i | 0 <= i < |os| ensures LinkAt(m, os, i) {
        assert os[i] in os;
        assert old(LinkAt(m, os, i));
      }
    }
  }

  /** Where a child goes: last, first, or next to another child. */
  datatype Where = Last | First | Behind(node: XmlNode) | InFrontOf(node: XmlNode)

  /** k is the index w stands for. */
  predicate PlaceIn(ks: seq<XmlNode>, w: Where, k: nat) {
    match w
    case Last => k == |ks|
    case First => k == 0
    case Behind(n) => 0 < k <= |ks| && ks[k - 1] == n
    case InFrontOf(n) => k < |ks| && ks[k] == n
  }

  /** append_node, prepend_node, insert_node_after or insert_node_before; every other list is left alone. */
  method LinkIn(child: XmlNode, p: XmlNode, w: Where, ghost ks: seq<XmlNode>, ghost k: nat, ghost all: set<XmlNode>, ghost ms: map<XmlNode, seq<XmlNode>>)
    requires Children(p, ks) && child !in ks && Detached(child) && PlaceIn(ks, w, k) && OtherLists(all, ms, p, ks)
    requires forall m :: m in ms.Keys ==> child !in ms[m]
    modifies p`firstChild, child`parent, child`nextSibling, child`prevSiblingC, ks`nextSibling, ks`prevSiblingC
    ensures Children(p, Inserted(ks, k, child)) && OtherLists(all, ms, p, ks)
  {
    match w {
      case Last => AppendNode(child, p, ks);
      case First => PrependNode(child, p, ks);
      case Behind(n) => InsertNodeAfter(child, n, p, ks, k - 1);
      case InFrontOf(n) => InsertNodeBefore(child, n, p, ks, k);
    }
    hide Inserted, NextOf, PrevOf;
    forall m | m in ms.Keys && m != p ensures Children(m, ms[m]) {
      var os := ms[m];
      assert old(Children(m, os)) && forall c :: c in os ==> c !in ks;
      forall i | 0 <= i < |os| ensures LinkAt(m, os, i) {
        assert os[i] in os;
        assert old(LinkAt(m, os, i));
      }
    }
  }

  lemma InsertedMembers(ks: seq<XmlNode>, k: nat, c: XmlNode)
    requires k <= |ks|
    ensures forall x :: x in Inserted(ks, k, c) <==> x in ks || x == c
  {
  }

  // ---- the tree

  /** allow_insert_child. */
  predicate AllowInsertChild(parent: NodeKind, child: NodeKind) {
    && (parent == Document || parent == Element)
    && child != Document && child != NoNode
    && (parent == Document || (child != Declaration && child != Doctype))
  }

  /** What may stand where: nothing below leaves, no document or null node below anything, prologue only below the document. */
  lemma AllowedChildren(parent: NodeKind, child: NodeKind)
    ensures AllowInsertChild(parent, child) <==>
              match parent
              case Document => child in {Element, PcData, CData, Comment, Pi, Declaration, Doctype}
              case Element => child in {Element, PcData, CData, Comment, Pi}
              case _ => false
  {
  }

  /** p is a parent for n that lists it, ranks below it, and may have it. */
  ghost predicate Belongs(n: XmlNode, p: XmlNode?, nodes: set<XmlNode>, kids: map<XmlNode, seq<XmlNode>>, rank: map<XmlNode, nat>)
    requires n in rank && nodes <= rank.Keys && nodes <= kids.Keys
  {
    p != null && p in nodes && rank[p] < rank[n] && n in kids[p] && AllowInsertChild(p.kind, n.kind)
  }

  class Tree {
    const doc: XmlNode
    ghost var nodes: set<XmlNode>
    ghost var kids: map<XmlNode, seq<XmlNode>>
    ghost var rank: map<XmlNode, nat>      // parents rank below their children, so there are no cycles

    /** n's child list. */
    ghost predicate ListAt(n: XmlNode)
      requires n in kids
      reads this`kids, n`firstChild, kids[n]`parent, kids[n]`nextSibling, kids[n]`prevSiblingC
    {
      Children(n, kids[n])
    }

    /** n's own place; `loose` is the one node besides the document that may be without a parent. */
    ghost predicate PlaceAt(n: XmlNode, loose: XmlNode?)
      requires n in rank && nodes <= rank.Keys && nodes <= kids.Keys
      reads this, n
    {
      if n == doc then n.parent == null
      else if n == loose then Detached(n)
      else Belongs(n, n.parent, nodes, kids, rank)
    }

    /** The document has no parent and no siblings, and is its own previous sibling. */
    ghost predicate DocAlone()
      reads doc
    {
      doc.parent == null && doc.nextSibling == null && doc.prevSiblingC == doc
    }

    ghost predicate Lists()
      reads this`kids, this`nodes, nodes, doc
    {
      && DocAlone()
      && kids.Keys == nodes
      && (forall n :: n in nodes ==> (forall c :: c in kids[n] ==> c in nodes))
      && (forall n :: n in nodes ==> ListAt(n))
    }

    ghost predicate ValidBut(loose: XmlNode?)
      reads this, nodes, doc
    {
      && doc in nodes && doc.kind == Document && doc != loose && rank.Keys == nodes && Lists()
      && (forall n :: n in nodes ==> PlaceAt(n, loose)) && Home()
    }

    /** All nodes were made in this document. */
    ghost predicate Home()
      reads this`nodes
    {
      forall n :: n in nodes ==> n.Root() == doc
    }

    ghost predicate Valid()
      reads this, nodes, doc
    {
      ValidBut(null)
    }

    constructor ()
      ensures Valid() && nodes == {doc} && fresh(doc) && kids[doc] == []
    {
      doc := new XmlNode(Document, null);
      new;
      nodes := {doc};
      kids := map[doc := []];
      rank := map[doc := 0];
    }

    lemma ParentOfChild(m: XmlNode, c: XmlNode, loose: XmlNode?)
      requires ValidBut(loose) && m in nodes && c in kids[m]
      ensures c.parent == m && c != loose
    {
      var i :| 0 <= i < |kids[m]| && kids[m][i] == c;
      assert ListAt(m) && LinkAt(m, kids[m], i);
      assert PlaceAt(c, loose);
    }

    lemma SeparateLists(p: XmlNode, loose: XmlNode?)
      requires ValidBut(loose) && p in nodes
      ensures forall m, c :: m in nodes && m != p && c in kids[m] ==> c !in kids[p] && c != loose
    {
      forall m, c | m in nodes && m != p && c in kids[m] ensures c !in kids[p] && c != loose {
        ParentOfChild(m, c, loose);
        if c in kids[p] { ParentOfChild(p, c, loose); }
      }
    }

    lemma NobodysChild(loose: XmlNode)
      requires ValidBut(loose) && loose in nodes
      ensures forall m :: m in nodes ==> loose !in kids[m]
    {
      forall m | m in nodes ensures loose !in kids[m] {
        if loose in kids[m] { ParentOfChild(m, loose, loose); }
      }
    }

    /** n is c or below it. */
    ghost predicate Under(n: XmlNode, c: XmlNode, loose: XmlNode?)
      requires ValidBut(loose) && n in nodes
      reads this, nodes
      decreases rank[n]
    {
      assert PlaceAt(n, loose);
      n == c || (n.parent != null && Under(n.parent, c, loose))
    }

    /** The last part of allow_move: whether parent lies outside child's subtree. */
    method OutsideOf(parent: XmlNode, child: XmlNode) returns (outside: bool)
      requires Valid() && parent in nodes
      ensures outside <==> !Under(parent, child, null)
    {
      var cur: XmlNode? := parent;
      while cur != null
        invariant cur != null ==> cur in nodes
        invariant Under(parent, child, null) <==> cur != null && Under(cur, child, null)
        decreases cur != null, if cur != null then rank[cur] else 0
      {
        assert PlaceAt(cur, null);
        if cur == child { return false; }
        cur := cur.parent;
      }
      outside := true;
    }

    /** allow_move; the child may belong to another document. */
    method AllowMove(parent: XmlNode, child: XmlNode) returns (ok: bool)
      requires Valid() && parent in nodes && (child in nodes || child.Root() != doc)
      ensures ok <==> AllowInsertChild(parent.kind, child.kind) && child in nodes && !Under(parent, child, null)
    {
      if !AllowInsertChild(parent.kind, child.kind) { return false; }
      if parent.Root() != child.Root() { return false; }
      ok := OutsideOf(parent, child);
    }

    /** Where a node stands among its parent's children; no other list shares one of these. */
    lemma ListedAt(node: XmlNode) returns (k: nat)
      requires Valid() && node in nodes && node != doc
      ensures var p := node.parent;
              && p != null && p in nodes && p in kids && k < |kids[p]| && kids[p][k] == node
              && (forall m, c :: m in nodes && m != p && c in kids[m] ==> c !in kids[p])
              && forall c :: c in Removed(kids[p], k) <==> c in kids[p] && c != node
    {
      assert PlaceAt(node, null);
      k :| 0 <= k < |kids[node.parent]| && kids[node.parent][k] == node;
      SeparateLists(node.parent, null);
      assert ListAt(node.parent);
      RemovedMembers(kids[node.parent], k);
    }

    /** Takes a node out of its parent's list; its subtree goes with it. */
    method Detach(node: XmlNode) returns (ghost p: XmlNode, ghost k: nat)
      requires Valid() && node in nodes && node != doc
      modifies this`kids, nodes
      ensures ValidBut(node) && p == old(node.parent) && p in old(kids) && k < |old(kids)[p]| && old(kids)[p][k] == node
      ensures kids == old(kids)[p := Removed(old(kids)[p], k)]
      ensures forall n :: n in nodes && n != node ==> n.parent == old(n.parent)
    {
      p := node.parent;
      k := ListedAt(node);
      hide Lists, ListAt, Removed;
      RemoveFrom(node, p, k);
      forall n | n in nodes ensures PlaceAt(n, node) { assert old(PlaceAt(n, null)); }
    }

    lemma DocIsNoChild(p: XmlNode)
      requires Lists() && p in nodes
      ensures doc !in kids[p]
    {
      assert ListAt(p);
      forall i | 0 <= i < |kids[p]| ensures kids[p][i] != doc { assert LinkAt(p, kids[p], i); }
    }

    lemma ListsMeanChildren()
      ensures Lists() <==> DocAlone() && kids.Keys == nodes && (forall n, c :: n in nodes && c in kids[n] ==> c in nodes)
                           && forall n :: n in nodes ==> Children(n, kids[n])
    {
      hide Children;
    }

    /** remove_node within the tree: no other list is touched. */
    method RemoveFrom(node: XmlNode, ghost p: XmlNode, ghost k: nat)
      requires Lists() && p in nodes && k < |kids[p]| && kids[p][k] == node
      requires forall m, c :: m in nodes && m != p && c in kids[m] ==> c !in kids[p]
      modifies this`kids, nodes
      ensures Lists() && kids == old(kids)[p := Removed(old(kids)[p], k)] && Detached(node)
      ensures forall n :: n in nodes && n != node ==> n.parent == old(n.parent)
    {
      ghost var ks, was := kids[p], kids;
      ListsMeanChildren();
      RemovedSubset(ks, k);
      DocIsNoChild(p);
      hide Removed, Children, Lists, ListAt, NextOf, PrevOf, OtherLists;
      ghost var r := Removed(ks, k);
      RemoveNodeOnly(node, p, ks, k, nodes, was);
      kids := kids[p := r];
      ListsAfter(p, was, ks, r);
    }

    /** Hangs the loose node below a parent outside its own subtree. */
    method Attach(child: XmlNode, parent: XmlNode, w: Where, ghost k: nat)
      requires ValidBut(child) && child in nodes && parent in nodes && AllowInsertChild(parent.kind, child.kind)
      requires !Under(parent, child, child) && PlaceIn(kids[parent], w, k)
      modifies this`kids, this`rank, nodes
      ensures Valid() && kids == old(kids)[parent := Inserted(old(kids)[parent], k, child)]
    {
      assert kids.Keys == nodes && k <= |kids[parent]|;
      hide Lists, ListAt, Inserted, PlaceIn, Under, AllowInsertChild;
      Raise(child, parent);
      InsertedMembers(kids[parent], k, child);
      SeparateLists(parent, child);
      NobodysChild(child);
      ghost var ranks, was := rank, kids;
      forall n | n in nodes && n != child && n != doc ensures Belongs(n, n.parent, nodes, kids, rank) { assert PlaceAt(n, child); }
      LinkInto(child, parent, w, k);
      assert Belongs(child, parent, nodes, kids, rank);
      hide Belongs;
      forall n | n in nodes && n != child ensures PlaceAt(n, null) {
        assert old(PlaceAt(n, child));
        if n != doc { StillListed(n, n.parent, was, ranks, parent, kids[parent]); }
      }
    }

    /** Growing one child list keeps every node's place. */
    lemma StillListed(n: XmlNode, p: XmlNode?, was: map<XmlNode, seq<XmlNode>>, ranks: map<XmlNode, nat>, parent: XmlNode, r: seq<XmlNode>)
      requires n in nodes && nodes == was.Keys == ranks.Keys && parent in nodes && rank == ranks && kids == was[parent := r]
      requires Belongs(n, p, nodes, was, ranks) && forall c :: c in was[parent] ==> c in r
      ensures Belongs(n, p, nodes, kids, rank)
    {
    }

    /** Ranks the subtree of a loose node above its future parent. */
    ghost method Raise(child: XmlNode, parent: XmlNode)
      requires ValidBut(child) && child in nodes && parent in nodes && !Under(parent, child, child)
      modifies this`rank
      ensures ValidBut(child) && rank[parent] < rank[child]
    {
      RaisedRanks(child, parent);
      hide Raised, Lists;
      rank := Raised(child, rank[parent] + 1);
      forall n | n in nodes ensures PlaceAt(n, child) { assert old(PlaceAt(n, child)); }
    }

    /** c and everything below it. */
    ghost function Subtree(c: XmlNode, loose: XmlNode?): (r: set<XmlNode>)
      requires ValidBut(loose)
      reads this, nodes
      ensures r <= nodes && forall n :: n in nodes ==> (n in r <==> Under(n, c, loose))
    {
      set n | n in nodes && Under(n, c, loose)
    }

    /** r is closed downwards from c. */
    ghost predicate Closed(r: set<XmlNode>, c: XmlNode)
      reads nodes, this`nodes
    {
      forall n :: n in nodes ==> (n in r <==> n == c || (n.parent != null && n.parent in r))
    }

    lemma SubtreeClosed(c: XmlNode, loose: XmlNode?)
      requires ValidBut(loose)
      ensures Closed(Subtree(c, loose), c)
    {
      forall n | n in nodes ensures n in Subtree(c, loose) <==> n == c || (n.parent != null && n.parent in Subtree(c, loose)) {
        assert PlaceAt(n, loose);
      }
    }

    /** The subtree of a node that has been taken out is what it was before. */
    lemma {:induction false} UnderIs(n: XmlNode, c: XmlNode, r: set<XmlNode>)
      requires ValidBut(c) && n in nodes && Closed(r, c)
      ensures Under(n, c, c) <==> n in r
      decreases rank[n]
    {
      assert PlaceAt(n, c);
      if n != c && n.parent != null { UnderIs(n.parent, c, r); }
    }

    /**
     append_move, prepend_move, insert_move_after and insert_move_before: allowed exactly if the kinds fit, the new
     parent is not in the moved subtree, both belong to one document, and the place is another child of the parent.
     The tree stays a tree.
     */
    method Move(parent: XmlNode, moved: XmlNode, w: Where) returns (ok: bool, ghost k: nat, ghost p: XmlNode, ghost i: nat)
      requires Valid() && parent in nodes && (moved in nodes || moved.Root() != doc) && Placeable(w)
      modifies this`kids, this`rank, nodes
      ensures Valid() && nodes == old(nodes)
      ensures ok <==> old(AllowInsertChild(parent.kind, moved.kind) && moved in nodes && !Under(parent, moved, null))
                      && (w.Behind? || w.InFrontOf? ==> old(w.node.parent) == parent && w.node != moved)
      ensures !ok ==> kids == old(kids)
      ensures ok ==> p == old(moved.parent) && p in old(kids) && i < |old(kids)[p]| && old(kids)[p][i] == moved
      ensures ok ==> var out := old(kids)[p := Removed(old(kids)[p], i)];
                     PlaceIn(out[parent], w, k) && kids == out[parent := Inserted(out[parent], k, moved)]
    {
      k, p, i := 0, parent, 0;
      ok := AllowMove(parent, moved);
      if !ok { return; }
      if (w.Behind? || w.InFrontOf?) && (w.node.parent != parent || w.node == moved) { return false, k, p, i; }
      hide Lists, PlaceAt, PlaceIn, Inserted, Removed, Under;
      k, p, i := Relocate(parent, moved, w);
    }

    /** remove_node, then one of the four insertions. */
    method Relocate(parent: XmlNode, moved: XmlNode, w: Where) returns (ghost k: nat, ghost p: XmlNode, ghost i: nat)
      requires Valid() && parent in nodes && moved in nodes && moved != doc && AllowInsertChild(parent.kind, moved.kind)
      requires !Under(parent, moved, null)
      requires w.Behind? || w.InFrontOf? ==> w.node in nodes && w.node.parent == parent && w.node != moved
      modifies this`kids, this`rank, nodes
      ensures Valid() && p == old(moved.parent) && p in old(kids) && i < |old(kids)[p]| && old(kids)[p][i] == moved
      ensures var out := old(kids)[p := Removed(old(kids)[p], i)];
              PlaceIn(out[parent], w, k) && kids == out[parent := Inserted(out[parent], k, moved)]
    {
      KidsKeys(null);
      hide Lists, PlaceAt, PlaceIn, Inserted, Removed, Under;
      ghost var r := Subtree(moved, null);
      SubtreeClosed(moved, null);
      p, i := Detach(moved);
      KidsKeys(moved);
      assert Closed(r, moved);
      UnderIs(parent, moved, r);
      k := PlaceFor(parent, w, moved);
      Attach(moved, parent, w, k);
    }

    /** The sibling that tells the place is a node of this document, or of another tree. */
    ghost predicate Placeable(w: Where)
      reads this, if w.Behind? || w.InFrontOf? then {w.node} else {}
    {
      w.Behind? || w.InFrontOf? ==> w.node in nodes || w.node.parent !in nodes
    }

    /** What stands where in a proper tree. */
    lemma Shape(n: XmlNode)
      requires Valid() && n in nodes
      ensures n.kind == Document <==> n == doc
      ensures n.kind != NoNode && (n.kind == Declaration || n.kind == Doctype ==> n.parent == doc)
      ensures kids[n] != [] ==> n.kind == Document || n.kind == Element
    {
      assert PlaceAt(n, null);
      if n != doc && n.parent != doc { assert PlaceAt(n.parent, null); }
      if kids[n] != [] {
        var c := kids[n][0];
        ParentOfChild(n, c, null);
        assert PlaceAt(c, null);
      }
    }

    /** Every node of the tree hangs below the document. */
    lemma {:induction false} AllBelowDocument(n: XmlNode)
      requires Valid() && n in nodes
      ensures Under(n, doc, null)
      decreases rank[n]
    {
      assert PlaceAt(n, null);
      if n != doc { AllBelowDocument(n.parent); }
    }

    /** No node is above itself. */
    lemma {:induction false} UnderRanks(n: XmlNode, c: XmlNode)
      requires Valid() && n in nodes && c in nodes && Under(n, c, null)
      ensures n == c || rank[c] < rank[n]
      decreases rank[n]
    {
      assert PlaceAt(n, null);
      if n != c { UnderRanks(n.parent, c); }
    }

    lemma KidsKeys(loose: XmlNode?)
      requires ValidBut(loose)
      ensures kids.Keys == nodes && rank.Keys == nodes
    {
    }

    /** The index a place stands for. */
    lemma PlaceFor(parent: XmlNode, w: Where, loose: XmlNode?) returns (k: nat)
      requires ValidBut(loose) && parent in nodes
      requires w.Behind? || w.InFrontOf? ==> w.node in nodes && w.node.parent == parent && w.node != loose
      ensures PlaceIn(kids[parent], w, k)
    {
      var ks := kids[parent];
      if w.Behind? || w.InFrontOf? {
        assert PlaceAt(w.node, loose);
        var j :| 0 <= j < |ks| && ks[j] == w.node;
        k := if w.Behind? then j + 1 else j;
      } else {
        k := if w.Last? then |ks| else 0;
      }
    }

    /** append_child, prepend_child, insert_child_after and insert_child_before: a new node of an allowed kind. */
    method InsertChild(parent: XmlNode, kind: NodeKind, w: Where) returns (child: XmlNode?, ghost k: nat)
      requires Valid() && parent in nodes && Placeable(w)
      modifies this`nodes, this`kids, this`rank, nodes
      ensures Valid()
      ensures child != null <==> AllowInsertChild(parent.kind, kind) && (w.Behind? || w.InFrontOf? ==> old(w.node.parent) == parent)
      ensures child == null ==> nodes == old(nodes) && kids == old(kids)
      ensures child != null ==> fresh(child) && child.kind == kind && nodes == old(nodes) + {child}
                                && PlaceIn(old(kids)[parent], w, k)
                                && kids == old(kids)[child := []][parent := Inserted(old(kids)[parent], k, child)]
    {
      child, k := null, 0;
      KidsKeys(null);
      hide Lists, ListAt, PlaceAt, PlaceIn, Inserted, Under, Closed;
      if !AllowInsertChild(parent.kind, kind) { return; }
      if (w.Behind? || w.InFrontOf?) && w.node.parent != parent { return; }
      child := new XmlNode(kind, doc);
      k := HangNew(parent, child, w);
    }

    method HangNew(parent: XmlNode, child: XmlNode, w: Where) returns (ghost k: nat)
      requires Valid() && parent in nodes && child !in nodes && Detached(child) && child.firstChild == null && child.document == doc
      requires AllowInsertChild(parent.kind, child.kind) && (w.Behind? || w.InFrontOf? ==> w.node in nodes && w.node.parent == parent)
      modifies this`nodes, this`kids, this`rank, nodes, child
      ensures Valid() && nodes == old(nodes) + {child} && parent in old(kids) && PlaceIn(old(kids)[parent], w, k)
      ensures kids == old(kids)[child := []][parent := Inserted(old(kids)[parent], k, child)]
    {
      KidsKeys(null);
      hide Lists, ListAt, PlaceAt, PlaceIn, Inserted, Under, Closed;
      AddLoose(child);
      KidsKeys(child);
      UnderIs(parent, child, {child});
      k := PlaceFor(parent, w, child);
      Attach(child, parent, w, k);
    }

    /** A new node joins the tree's nodes without a parent. */
    ghost method AddLoose(child: XmlNode)
      requires Valid() && child !in nodes && Detached(child) && child.firstChild == null && child.document == doc
      modifies this`nodes, this`kids, this`rank
      ensures ValidBut(child) && nodes == old(nodes) + {child} && kids == old(kids)[child := []]
      ensures Closed({child}, child)
    {
      assert PlaceAt(doc, null);
      forall n | n in nodes ensures n.parent != child && (n != doc ==> Belongs(n, n.parent, nodes, kids, rank)) {
        assert PlaceAt(n, null);
      }
      hide Lists, ListAt, Belongs;
      ghost var all, was, ranks := nodes, kids, rank;
      AddList(child);
      rank := rank[child := 0];
      forall n | n in all && n != doc ensures Belongs(n, n.parent, nodes, kids, rank) {
        StillBelongs(n, n.parent, all, was, ranks, child);
      }
      AllPlaced(child);
    }

    /** Lists and places make a valid tree. */
    lemma AllPlaced(loose: XmlNode?)
      requires Lists() && doc in nodes && doc.kind == Document && doc.parent == null && doc != loose && rank.Keys == nodes == kids.Keys && Home()
      requires loose != null && loose in nodes ==> Detached(loose)
      requires forall n :: n in nodes && n != doc && n != loose ==> Belongs(n, n.parent, nodes, kids, rank)
      ensures ValidBut(loose)
    {
      hide Lists, Belongs;
    }

    /** A new node does not change the others' places. */
    lemma StillBelongs(n: XmlNode, p: XmlNode?, all: set<XmlNode>, was: map<XmlNode, seq<XmlNode>>, ranks: map<XmlNode, nat>, child: XmlNode)
      requires n in all && all == was.Keys == ranks.Keys && Belongs(n, p, all, was, ranks) && child !in all
      requires nodes == all + {child} && kids == was[child := []] && rank == ranks[child := 0]
      ensures Belongs(n, p, nodes, kids, rank)
    {
    }

    ghost method AddList(child: XmlNode)
      requires Lists() && child !in nodes && child.firstChild == null
      modifies this`nodes, this`kids
      ensures Lists() && kids.Keys == nodes == old(nodes) + {child} && kids == old(kids)[child := []]
    {
      hide NextOf, PrevOf;
      nodes := nodes + {child};
      kids := kids[child := []];
      forall n | n in nodes ensures ListAt(n) { if n != child { assert old(ListAt(n)); } }
    }

    /** remove_child: the node and everything below it leave the tree; a node from elsewhere is refused. */
    method RemoveChild(parent: XmlNode, node: XmlNode) returns (ok: bool)
      requires Valid() && parent in nodes && (node in nodes || node.parent !in nodes)
      modifies this`nodes, this`kids, this`rank, nodes
      ensures Valid() && (ok <==> old(node.parent) == parent) && (ok ==> node in old(nodes))
      ensures !ok ==> nodes == old(nodes) && kids == old(kids)
      ensures ok ==> nodes == old(nodes - Subtree(node, null))
      ensures ok ==> forall n :: n in nodes ==>
                if n != parent then kids[n] == old(kids)[n]
                else exists k :: 0 <= k < |old(kids)[n]| && old(kids)[n][k] == node && kids[n] == Removed(old(kids)[n], k)
    {
      if node.parent != parent { return false; }
      ghost var r := Subtree(node, null);
      SubtreeClosed(node, null);
      assert PlaceAt(node, null);
      ghost var p, k := Detach(node);
      assert Closed(r, node);
      DropLoose(node, r);
      ok := true;
    }

    /** Forgets a loose node and everything below it. */
    ghost method DropLoose(node: XmlNode, r: set<XmlNode>)
      requires ValidBut(node) && node in nodes && Closed(r, node) && r <= nodes
      modifies this`nodes, this`kids, this`rank
      ensures Valid() && nodes == old(nodes) - r && kids == map n | n in old(nodes) - r :: old(kids)[n]
    {
      Dropped(node, r);
      hide Lists, ListAt, Under, Closed, PlaceAt, Belongs;
      ghost var all, was, ranks := nodes, kids, rank;
      DropLists(r);
      AllStay(all, was, ranks, r);
      AllPlaced(null);
    }

    lemma AllStay(all: set<XmlNode>, was: map<XmlNode, seq<XmlNode>>, ranks: map<XmlNode, nat>, r: set<XmlNode>)
      requires was.Keys == all == ranks.Keys && nodes == all - r && rank == (map n | n in nodes :: ranks[n])
      requires kids == map n | n in all - r :: was[n]
      requires forall n :: n in all && n !in r && n != doc ==> Belongs(n, n.parent, all, was, ranks) && n.parent !in r
      ensures rank.Keys == nodes == kids.Keys
      ensures forall n :: n in nodes && n != doc ==> Belongs(n, n.parent, nodes, kids, rank)
    {
    }

    /** What stays refers to nothing that goes. */
    lemma Dropped(node: XmlNode, r: set<XmlNode>)
      requires ValidBut(node) && node in nodes && Closed(r, node) && r <= nodes
      ensures doc !in r && Lists() && rank.Keys == nodes == kids.Keys && Home() && doc.kind == Document
      ensures forall n, c :: n in nodes && n !in r && c in kids[n] ==> c !in r
      ensures forall n :: n in nodes && n !in r && n != doc ==> Belongs(n, n.parent, nodes, kids, rank) && n.parent !in r
    {
      forall n, c | n in nodes && n !in r && c in kids[n] ensures c !in r {
        ParentOfChild(n, c, node);
      }
      UnderIs(doc, node, r);
      assert PlaceAt(doc, node);
      hide Lists;
      forall n | n in nodes && n !in r && n != doc ensures Belongs(n, n.parent, nodes, kids, rank) && n.parent !in r { assert PlaceAt(n, node); }
    }

    ghost method DropLists(r: set<XmlNode>)
      requires Lists() && rank.Keys == nodes && forall n, c :: n in nodes && n !in r && c in kids[n] ==> c !in r
      modifies this`nodes, this`kids, this`rank
      ensures Lists() && kids.Keys == nodes == old(nodes) - r && kids == map n | n in old(nodes) - r :: old(kids)[n]
      ensures rank == map n | n in nodes :: old(rank)[n]
    {
      hide NextOf, PrevOf;
      nodes := nodes - r;
      kids := map n | n in nodes :: kids[n];
      rank := map n | n in nodes :: rank[n];
      forall n | n in nodes ensures ListAt(n) { assert old(ListAt(n)); }
    }

    /** The ranks after the subtree of c has been moved up by d. */
    ghost function Raised(c: XmlNode, d: nat): (r: map<XmlNode, nat>)
      requires ValidBut(c)
      reads this, nodes
      ensures r.Keys == nodes
    {
      map n | n in nodes :: if Under(n, c, c) then rank[n] + d else rank[n]
    }

    lemma RaisedRanks(c: XmlNode, parent: XmlNode)
      requires ValidBut(c) && c in nodes && parent in nodes && !Under(parent, c, c)
      ensures var r := Raised(c, rank[parent] + 1);
              r[parent] < r[c] && forall n :: n in nodes && n != doc && n != c ==> n.parent != null && n.parent in nodes && r[n.parent] < r[n]
    {
      var r := Raised(c, rank[parent] + 1);
      forall n | n in nodes && n != doc && n != c ensures n.parent != null && n.parent in nodes && r[n.parent] < r[n] {
        assert PlaceAt(n, c);
      }
    }

    method LinkInto(child: XmlNode, p: XmlNode, w: Where, ghost k: nat)
      requires Lists() && p in nodes && child in nodes && Detached(child) && PlaceIn(kids[p], w, k)
      requires forall m, c :: m in nodes && m != p && c in kids[m] ==> c !in kids[p]
      requires forall m :: m in nodes ==> child !in kids[m]
      modifies this`kids, nodes
      ensures Lists() && kids.Keys == nodes && kids == old(kids)[p := Inserted(old(kids)[p], k, child)]
      ensures child.parent == p && forall n :: n in nodes && n != child ==> n.parent == old(n.parent)
    {
      ghost var ks, was := kids[p], kids;
      ListsMeanChildren();
      InsertedMembers(ks, k, child);
      DocIsNoChild(p);
      assert child != doc;
      hide Inserted, Lists, ListAt, Children, PlaceIn, NextOf, PrevOf, OtherLists;
      ghost var r := Inserted(ks, k, child);
      LinkIn(child, p, w, ks, k, nodes, was);
      ParentOfNew(p, r, child);
      kids := kids[p := r];
      ListsAfter(p, was, ks, r);
    }

    lemma ListsAfter(p: XmlNode, was: map<XmlNode, seq<XmlNode>>, ks: seq<XmlNode>, r: seq<XmlNode>)
      requires DocAlone() && p in nodes && was.Keys == nodes && OtherLists(nodes, was, p, ks)
      requires kids == was[p := r] && Children(p, r) && forall c :: c in r ==> c in nodes
      ensures Lists()
    {
      hide Children;
    }
  }

  lemma ParentOfNew(p: XmlNode, ks: seq<XmlNode>, c: XmlNode)
    requires Children(p, ks) && c in ks
    ensures c.parent == p
  {
    var i :| 0 <= i < |ks| && ks[i] == c;
    assert LinkAt(p, ks, i);
  }

  lemma RemovedSubset(ks: seq<XmlNode>, k: nat)
    requires k < |ks|
    ensures forall c :: c in Removed(ks, k) ==> c in ks
  {
  }

  lemma RemovedMembers(ks: seq<XmlNode>, k: nat)
    requires k < |ks| && forall i, j :: 0 <= i < j < |ks| ==> ks[i] != ks[j]
    ensures forall c :: c in Removed(ks, k) <==> c in ks && c != ks[k]
  {
    var r := Removed(ks, k);
    forall c | c in ks && c != ks[k] ensures c in r {
      var i :| 0 <= i < |ks| && ks[i] == c;
      assert r[if i < k then i else i - 1] == c;
    }
  }
}
