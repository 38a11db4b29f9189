/**
 xml_node_struct: the heap objects a document is made of. Attributes, which nothing here relinks, are a list value.
 */
module XmlNodes {
  import opened XmlTree

  /** The chain from first_attribute along next_attribute. */
  datatype AttrChain = EndOfAttrs | AttrCell(rec: AttrRec, next: AttrChain)

  class XmlNode {
    const kind: NodeKind
    const document: XmlNode?        // the document the node was made in; null for a document itself
    var name: string
    var firstAttribute: AttrChain
    var parent: XmlNode?
    var firstChild: XmlNode?
    var nextSibling: XmlNode?
    var prevSiblingC: XmlNode?      // previous sibling; the first child points to the last one

    /** A document points to itself where other nodes point to their siblings. */
    constructor (kind: NodeKind, document: XmlNode?)
      ensures this.kind == kind && this.document == document && name == "" && firstAttribute == EndOfAttrs
      ensures parent == null && firstChild == null && nextSibling == null
      ensures prevSiblingC == if document == null then this else null
    {
      this.kind, this.document, name, firstAttribute := kind, document, "", EndOfAttrs;
      parent, firstChild, nextSibling, prevSiblingC := null, null, null, if document == null then this else null;
    }

    /** xml_node::root. */
    function Root(): XmlNode {
      if document == null then this else document
    }
  }
}
