# Verified model of a FIX client stack and of pugixml 1.13

This project models, in Dafny 4.11, the parts of the repository with the most state, branching and arithmetic,
and proves what they are meant to guarantee. `dafny verify dfyconfig.toml` checks all of it.

## The FIX stack

- **Messages** (`FixText`, `FixWriter`, `FixParser`, `Itoa`). The writer appends fields to a buffer, then inserts BodyLength
  in place with an overlapping move and appends the checksum; the parser jumps by BodyLength to the trailer and
  iterates over the fields. They undo each other for every message whose field values are free of SOH and NUL.
- **One read** (`FixHandler`, `FixLoop`, `FixReturn`). The handler splits a read into messages and pushes one queue entry
  each. `FixLoop` tells from the bytes of the read when it never returns, and `FixReturn` how it ends otherwise.
- **Buffers between two threads** (`BufferProtocol`). Pool, queues, poll thread and consumer thread are a state
  machine over single steps; every statement is about every interleaving, queue capacity and pool size.
  `FixHandler.HandlerFollowsProtocol` and `FixHandler.StuckHandlerFollowsProtocol` tie the handler's code to the
  outcomes this machine allows, and `SessionLaws` follows a message from its text to the consumer's reaction.
- **Clock** (`SeqLock`, `Calibration`). The sequence lock is a state machine over single loads and stores; the
  calibration formula is treated over the reals.

## pugixml

- **Documents** (`NodeOrder`, `XmlTree`, `XmlNodes`, `AxisWalk`, `AxisFill`, `SiblingList`, `TreeLayout`). A document is a
  table of nodes in document order; `AxisWalk` and `AxisFill` walk heap nodes linked as pugixml links them and yield the
  axes of that table. `SiblingList` inserts, removes and moves nodes of a heap tree, and `TreeLayout` shows that every
  such tree is one that the walks are proved for.
- **XPath evaluation** (`XPathAst`, `XPathEval`, `XPathSteps`, `XPathSort`, `XPathMeaning`, `XPathRefine`, `XPathLazy`,
  `NodeHash`, `ThreeWaySort`). `XPathMeaning` gives each query tree its meaning with plain sets, without order flags, lazy modes or
  predicate classes. `XPathEval` is what the code computes, `XPathSteps` and `XPathSort` compute that with
  the pointer walks, the hash table and the sort, and `XPathLazy` proves that it is the meaning.
- **XPath operators** (`XPathCompare`, `XPathLaws`). The comparison loops, and the laws of XPath 1.0 for conversions,
  operators, node tests and predicates, stated on what the evaluator returns.
- **XPath optimisation** (`XPathOptimize`, `XPathNormal`, `XPathTree`, `XPathTranslate`). `XPathOptimize` rewrites trees as values
  and proves that they keep their meaning; `XPathTree` overwrites the heap nodes of a tree and is proved to do the same;
  `XPathNormal` shows that nothing is left to rewrite.
- **XPath parsing** (`OperatorParser`). Operators by precedence climbing, with the depth limit, accept exactly the texts of
  the grammar.
- **Text** (`TextConvert`, `EscapeRoundTrip`, `References`). In-place conversion with a moving gap, the escaping writer, and
  what conversion means in terms of RFC 3629 and XML 1.0.
- **Numbers and memory** (`IntegerText`, `IntegerLaws`, `PageAllocator`).

`Strings`, `Options`, `DecimalText` and `Arithmetic` are shared helpers.

## Where the code falls short of what one would expect

Each of these is a statement about all inputs, with the exact condition under which the expectation holds.

- The checksum adds up signed characters, so with 8-bit text it can differ from the standard's or be negative:
  `FixWriter.CheckSumByCount`, and `FixWriter.CheckSumDiffers` for one such message. Read back into 8 bits it is right all the same: `FixParser.CheckReads`.
- `fix_message_t::init` never resets `valid`, so a cut-off message behind a whole one makes the handler push the same
  entry for ever: `FixLoop.HandlerLoopsExactly`, `FixLoop.TruncatedTailLoops`. The branch that gives the buffer back after
  a later invalid message is therefore never taken: `FixHandler.ReleaseMeansNothingPushed`.
- When the messages lead past the end of the read, no entry is final and the buffer never returns to the pool:
  `FixReturn.KeepsExactly` and `BufferProtocol.OnlyOverrunStrands`, and `FixReturn.CutOffMessages` for such reads.
- Both threads take buffers from one pool with a blocking `get`; they can starve each other for good
  (`BufferProtocol.StarvedForever`), whatever the sizes once buffers have been stranded
  (`BufferProtocol.StarvationIsReachable`), and before that exactly if the pool has at most one buffer more than the
  incoming queue has places (`BufferProtocol.StarvationExactly`).
- The market data request is posted only if the very first message popped is a logon; a logon that comes later is never
  followed by one: `SessionLaws.FirstMessageDecides`.
- The orderings <, <=, > and >= between a node set and a boolean compare the nodes' numbers instead of converting the
  set, against section 3.4 of XPath 1.0: `XPathLaws.OrderingIgnoresBoolean`.
- The clock's reader is safe below 2^31 saves during one read and not above: `SeqLock.NoTornRead`, `SeqLock.TornReadAtBound`.
- Carriage returns do not survive writing and reading of character data where line ends are converted, nor do trailing
  blanks where text is trimmed: `EscapeRoundTrip.PcdataExact`, and `EscapeRoundTrip.PcdataLoses` for two such texts.
- `itoa` writes nothing for zero and garbled digits for the smallest value of a signed type, and refuses a buffer no longer
  than the type even where the text would fit: `Itoa.Itoa`, `Itoa.ReadsBack`.
- `remove_duplicates` drops null nodes from a long unsorted list but keeps one in a short or sorted list:
  `NodeHash.RemoveDuplicates`, and `NodeHash.NullDependsOnLength` for two such lists.

## Model

| member | source | states |
|---|---|---|
| XmlTree.AncestorByParent | test/xml_parse/pugixml.cpp:8239-8244 | one node is above another exactly when it is the other's parent or above that parent: walking parent links decides ancestry |
| XmlTree.AxisNodesOrdered | test/xml_parse/pugixml.cpp:10088-10279 | a forward axis yields strictly increasing document order and a reverse axis strictly decreasing, so no node twice |
| XmlTree.AxisNodesMembers | test/xml_parse/pugixml.cpp:10088-10279 | exactly which nodes a step with a node test selects from a context node, on every axis over tree nodes |
| XmlTree.DisjointSources | test/xml_parse/pugixml.cpp:10413-10416 | on the child, attribute and self axes different context nodes never select a common node, which is why step_do skips duplicate removal there |
| XmlTree.WalksPartition | test/xml_parse/pugixml.cpp:10112-10273 | self, ancestor, descendant, following and preceding together visit every node of every tree exactly once (section 2.2 of XPath 1.0) |
| AxisWalk.StepPush | test/xml_parse/pugixml.cpp:10013-10086 | a node is appended exactly when it passes the node test; with `once` the walk may stop at that point |
| AxisWalk.Children | test/xml_parse/pugixml.cpp:10103-10110 | following first_child and next_sibling yields the child axis, or its first passing node when one is enough |
| AxisWalk.Descendants | test/xml_parse/pugixml.cpp:10112-10142 | the stackless walk over child, sibling and parent links terminates and yields the descendant (or-self) axis in document order |
| AxisWalk.FollowingSiblings | test/xml_parse/pugixml.cpp:10144-10151 | yields the following-sibling axis |
| AxisWalk.PrecedingSiblings | test/xml_parse/pugixml.cpp:10153-10160 | the backward links, whose first one wraps around to the last sibling, yield the preceding-sibling axis in reverse order |
| AxisWalk.Followers | test/xml_parse/pugixml.cpp:10162-10197 | yields exactly the rows after the node's subtree, in document order |
| AxisWalk.Preceders | test/xml_parse/pugixml.cpp:10199-10239 | the backward walk yields everything before the node except its ancestors, in reverse order, each node once and after its descendants |
| AxisWalk.LeaveBackwards | test/xml_parse/pugixml.cpp:10203-10211 | climbing passes only the node's ancestors and stops at the previous sibling of the nearest one that has any |
| AxisWalk.LastLeaf | test/xml_parse/pugixml.cpp:10215-10216 | going down through first_child->prev_sibling_c ends at the last row of the subtree |
| AxisWalk.ClimbBackwards | test/xml_parse/pugixml.cpp:10218-10235 | climbing from a finished row pushes the parents that end there unless they contain the context node |
| AxisWalk.Ancestors | test/xml_parse/pugixml.cpp:10241-10259 | yields the ancestor (or-self) axis, innermost first |
| AxisFill.Attributes | test/xml_parse/pugixml.cpp:10094-10101 | the loop along next_attribute yields the attributes that pass the test, in order, or the first one when one is enough |
| AxisFill.FillFromNode | test/xml_parse/pugixml.cpp:10088-10279 | from a tree node, every axis including the attribute axis yields its nodes in axis order, cut to the first one when one is enough |
| AxisFill.FillFromAttr | test/xml_parse/pugixml.cpp:10281-10358 | from an attribute: the attribute itself where an or-self axis with node() takes it, then the tree nodes of the axis; nothing on the axes that attributes do not have |
| AxisFill.StepFill | test/xml_parse/pugixml.cpp:10361-10371 | from any context node the walk pushes exactly the nodes of the axis; a null node reaches nothing |
| AxisWalk.FollowersOfAttr | test/xml_parse/pugixml.cpp:10316-10341 | from an attribute, following starts with the content of its element |
| AxisWalk.AncestorsOfAttr | test/xml_parse/pugixml.cpp:10294-10302 | from an attribute, the loop over ancestors starts with its element |
| AxisWalk.NodeIsAncestor | test/xml_parse/pugixml.cpp:8239-8244 | true exactly when the second node lies in the first one's subtree |
| AxisWalk.NodeIsBeforeSibling | test/xml_parse/pugixml.cpp:8172-8194 | walking both sides at once tells which of two siblings comes first; roots of different documents are ordered by address |
| AxisWalk.NodeIsBefore | test/xml_parse/pugixml.cpp:8196-8237 | climbing to a common depth, then to siblings, compares any two nodes of a tree in document order |
| NodeHash.ProbesDiffer | test/xml_parse/pugixml.cpp:7715-7737 | two probes of one sequence never look at the same slot of a table of 2^m slots |
| NodeHash.ProbesCover | test/xml_parse/pugixml.cpp:7715-7737 | the triangular probe sequence looks at every slot exactly once, from every start |
| NodeHash.EmptySlotMet | test/xml_parse/pugixml.cpp:7739-7740 | a table with a free slot is never reported full: the last return is unreachable |
| NodeHash.FillKeepsSearchable | test/xml_parse/pugixml.cpp:7723-7727 | storing a key at the end of its probe path keeps every key findable |
| NodeHash.AbsentAtEmpty | test/xml_parse/pugixml.cpp:7723-7731 | a free slot on a key's path shows that the key is not in the table |
| NodeHash.HashInsert | test/xml_parse/pugixml.cpp:7708-7741 | true exactly for a key that was not stored, which is then stored; all keys stay findable |
| NodeHash.KeepOneMore | test/xml_parse/pugixml.cpp:9135-9145 | one more node is kept exactly when it is not null and its key is new |
| NodeHash.RemoveByHash | test/xml_parse/pugixml.cpp:9118-9149 | the list becomes the first occurrences of its non-null nodes, in order |
| NodeHash.SquashKeepsFirst | test/xml_parse/pugixml.cpp:7592-7615 | dropping adjacent repeats keeps exactly the first occurrences when equal nodes stand together |
| NodeHash.SortedIsGrouped | test/xml_parse/pugixml.cpp:9150-9154 | a sorted list has its equal nodes together |
| NodeHash.Unique | test/xml_parse/pugixml.cpp:7592-7615 | squeezes adjacent repeats out of the array in place |
| NodeHash.NullDependsOnLength | test/xml_parse/pugixml.cpp:9143-9154 | a null node stays in an unsorted list of two and goes from one of three |
| NodeHash.RemoveDuplicates | test/xml_parse/pugixml.cpp:9118-9156 | whichever branch is taken, the first occurrence of each node is kept, in order; the small-list branch also keeps null nodes |
| XPathSteps.NodeList.GetOrder | test/xml_parse/pugixml.cpp:8974-8987 | the scan over adjacent pairs returns the order flag of the evaluator's specification |
| XPathSteps.NodeList.First | test/xml_parse/pugixml.cpp:9013-9032 | the element picked by the order flag is the evaluator's first node |
| XPathSteps.NodeList.KeepPassing | test/xml_parse/pugixml.cpp:9869-9919 | the nodes that pass move down over those that do not, keeping what stands before; with `once` only the first is kept |
| XPathSteps.NodeList.KeepConstant | test/xml_parse/pugixml.cpp:9921-9947 | a constant number keeps at most the node at that position |
| XPathSteps.NodeList.ApplyPredicate | test/xml_parse/pugixml.cpp:9949-9961 | the part of the list from `first` on is filtered as its classification says, the rest untouched |
| XPathSteps.NodeList.ApplyPredicates | test/xml_parse/pugixml.cpp:9963-9971 | predicates filter one after the other, and only the last may stop early |
| XPathSteps.StepOne | test/xml_parse/pugixml.cpp:10402-10403 | the pointer walk from one context node and the in-place filtering append its filtered axis nodes and nothing else |
| XPathSteps.StepOver | test/xml_parse/pugixml.cpp:10393-10405 | the loop over context nodes computes the specified list and order flag |
| XPathSteps.NodeList.RemoveDuplicates | test/xml_parse/pugixml.cpp:9118-9156 | on a node list: the hash table for one of unknown order, adjacent repeats for a sorted one, keep the first occurrence of each node |
| XPathSteps.StepDo | test/xml_parse/pugixml.cpp:10373-10418 | walking heap nodes, filtering in place and removing repeats through the hash table together compute the specified list and order flag of a step, for every layout of the document and all addresses |
| XPathSort.SortList | test/xml_parse/pugixml.cpp:8989-9011 | looking up the flag, quicksorting or reversing in place, puts a truthful list in the order of the specification |
| XPathSort.SortedRanks | test/xml_parse/pugixml.cpp:8989-9011 | sorting the ranks of different nodes sorts the nodes |
| XPathRefine.PosInvMeaning | test/xml_parse/pugixml.cpp:11245-11274 | a tree accepted by is_posinv_expr means the same at every position and size; a node set always does |
| XPathRefine.GetOrderTruthful | test/xml_parse/pugixml.cpp:8973-8987 | a list declared sorted, or sorted in reverse, is strictly so |
| XPathRefine.SortDoFacts | test/xml_parse/pugixml.cpp:8989-9011 | sorting by the order flag gives the nodes in document order, whichever branch is taken |
| XPathRefine.FirstNodeIsFirst | test/xml_parse/pugixml.cpp:9013-9032 | the node picked by the order flag is the document-first node of the list |
| XPathRefine.CoverUnion | test/xml_parse/pugixml.cpp:11035-11050 | two lists that are good enough for a lazy mode are good enough together for the union of their sets |
| XPathLazy.ApplyPredAgrees | test/xml_parse/pugixml.cpp:9949-9961 | a classified predicate selects what the unclassified meaning selects, or its first node when one is enough |
| XPathLazy.ApplyPredsAgrees | test/xml_parse/pugixml.cpp:9963-9971 | stopping at the last predicate's first match gives the first node of the full filtering |
| XPathLazy.OneIsFirst | test/xml_parse/pugixml.cpp:10378-10382 | [1] selects the first node in axis order, which is what the early exit of the axis walk returns |
| XPathLazy.StepAgrees | test/xml_parse/pugixml.cpp:10373-10418 | a step evaluated in any mode, over any context list, represents the set it means and keeps its order flag truthful |
| XPathLazy.UnionAgrees | test/xml_parse/pugixml.cpp:11035-11050 | a union, whose operands are evaluated in the same mode, represents the set it means |
| XPathLazy.FilterAgrees | test/xml_parse/pugixml.cpp:11053-11066 | a filter represents the set it means under each of the four classifications, although [1] evaluates its source only for the first node |
| XPathLazy.LazyExact | test/xml_parse/pugixml.cpp:9793-9796 | for every well-classified tree, environment and context the lazily evaluated result equals the set-theoretic meaning in all conversions |
| XPathLazy.LazyModes | test/xml_parse/pugixml.cpp:9793-9796 | `any` is empty exactly when the full result is; `first` followed by first() is the document-first node of the full result; the full result has no repeats |
| XPathCompare.SomePair | test/xml_parse/pugixml.cpp:9724-9737 | the nested loops that stop at the first pair find one exactly if there is one |
| XPathCompare.SomeNode | test/xml_parse/pugixml.cpp:9752-9769 | the loop over one node list finds a node that compares exactly if there is one |
| XPathCompare.CompareEqual | test/xml_parse/pugixml.cpp:9705-9791 | compare_eq on lists of nodes in any order is equality on the operands' node sets |
| XPathCompare.CompareRelational | test/xml_parse/pugixml.cpp:9798-9859 | compare_rel on lists of nodes in any order is the ordering on the operands' node sets |
| XPathLaws.TypesMatch | test/xml_parse/pugixml.cpp:10470-10608 | every scalar tree yields a value of the type the parser gave it |
| XPathLaws.LeavesMean | test/xml_parse/pugixml.cpp:10610-10640 | literals, variables, position(), last() and the root |
| XPathLaws.NodeSetConverts | test/xml_parse/pugixml.cpp:10590-10746 | boolean(), not(), count(), sum(), string() and number() of a node set: whether it is empty, and its document-first node (sections 4.1 to 4.4) |
| XPathLaws.NodeSetNamed | test/xml_parse/pugixml.cpp:10797-10850 | the name functions look at the document-first node |
| XPathLaws.ScalarConverts | test/xml_parse/pugixml.cpp:10580-10746 | boolean(), number() and string() of booleans, numbers and strings (sections 4.2 to 4.4) |
| XPathLaws.Connectives | test/xml_parse/pugixml.cpp:10474-10522 | the truth tables of and, or and not(), and unary minus |
| XPathLaws.ArithmeticLaws | test/xml_parse/pugixml.cpp:10614-10630 | the arithmetic operators apply to the numbers of both operands, in order |
| XPathLaws.ScalarsOrdered | test/xml_parse/pugixml.cpp:9802-9803 | between scalars the four orderings compare the numbers |
| XPathLaws.NodeSetsOrdered | test/xml_parse/pugixml.cpp:9804-9828 | between node sets an ordering holds exactly if the numbers of some pair of nodes compare |
| XPathLaws.MixedOrdered | test/xml_parse/pugixml.cpp:9829-9859 | between a node set and a scalar an ordering holds exactly if some node's number compares, on either side |
| XPathLaws.Mirrored | test/xml_parse/pugixml.cpp:10486-10496 | for all operands > is < with the operands exchanged, and >= is <= exchanged |
| XPathLaws.ConstantsOrdered | test/xml_parse/pugixml.cpp:10480-10496 | all six comparisons of two number literals; NaN equals nothing |
| XPathLaws.ScalarsEqual | test/xml_parse/pugixml.cpp:9709-9722 | scalars are compared as booleans if one is one, else as numbers if one is one, else as strings, and != is the opposite of = (section 3.4) |
| XPathLaws.NodeSetsEqual | test/xml_parse/pugixml.cpp:9724-9739 | for node sets = and != each look for a pair of nodes, so both may hold, or neither |
| XPathLaws.MixedEqual | test/xml_parse/pugixml.cpp:9741-9786 | a node set against a boolean, number or string, on either side |
| XPathLaws.OrderingIgnoresBoolean | test/xml_parse/pugixml.cpp:9829-9859 | a node set ordered against a boolean is not converted to a boolean, against section 3.4; for each of <, <=, > and >= the exact cases in which the result is the same, by the nodes' numbers and whether there are any |
| XPathLaws.LazyStops | test/xml_parse/pugixml.cpp:9793-9796 | where one node is enough, a step from the context node and a filter find at most one |
| XPathLaws.CallsConvert | test/xml_parse/pugixml.cpp:10470-10608 | function arguments are passed in order, as numbers or strings, with the context node |
| XPathLaws.TranslateOne | test/xml_parse/pugixml.cpp:8702-8722 | a character is kept, replaced by its partner at its first occurrence, or removed |
| XPathLaws.TranslateExamples | test/xml_parse/pugixml.cpp:8702-8722 | the two examples of section 4.2 |
| XPathLaws.ChildTests | test/xml_parse/pugixml.cpp:10013-10086 | which children each node test selects (section 2.3) |
| XPathLaws.AttributeTests | test/xml_parse/pugixml.cpp:9973-10011 | which attributes each node test selects: never a namespace declaration, and with a name the first of that name only |
| XPathLaws.DocumentOrder | test/xml_parse/pugixml.cpp:8277-8320 | an element comes before its attributes, these in order, and then its content (section 5) |
| XPathLaws.NumberSelects | test/xml_parse/pugixml.cpp:9898-9919 | a number as a predicate keeps the node at that position, and no other number keeps any |
| XPathLaws.LastSelects | test/xml_parse/pugixml.cpp:9898-9919 | [last()] keeps the last node |
| XPathOptimize.GenerateTable | test/xml_parse/pugixml.cpp:8724-8754 | the table built in one pass maps each of the 128 codes as translate() would, the first occurrence winning; none exactly when a paired character is outside 7 bits |
| XPathOptimize.TableIsTranslate | test/xml_parse/pugixml.cpp:8756-8784 | looking characters up in the table translates every text exactly as the general routine |
| XPathOptimize.TableEntries | test/xml_parse/pugixml.cpp:8724-8754 | every entry is a 7-bit code or the skip mark, as the lookup routine relies on |
| XPathTranslate.TranslateInPlace | test/xml_parse/pugixml.cpp:8702-8722 | the buffer becomes its translation in place: unread characters are never overwritten, and nothing behind the terminator changes |
| XPathTranslate.TranslateTableInPlace | test/xml_parse/pugixml.cpp:8756-8784 | the branch-free lookup loop, which writes a skipped character and stays on it, does the same by table |
| XPathOptimize.AttrShortcut | test/xml_parse/pugixml.cpp:11234-11242 | comparing the attribute found by name with a string equals comparing the node set @name with it |
| XPathOptimize.AxesCompose | test/xml_parse/pugixml.cpp:11204-11218 | descendant-or-self::node() followed by child, self, descendant or descendant-or-self reaches exactly the nodes of the fused axis |
| XPathOptimize.FusionPreserves | test/xml_parse/pugixml.cpp:11204-11218 | a step with positionally invariant predicates means the same after fusing it with the // step before it |
| XPathOptimize.DropPositionPasses | test/xml_parse/pugixml.cpp:11182-11189 | [position()=e] and [e] pass the same nodes when e is a number (section 2.4 of XPath 1.0) |
| XPathOptimize.ClassifyHolds | test/xml_parse/pugixml.cpp:11191-11202 | each classification written into a predicate is true of it |
| XPathOptimize.OptimizeClassified | test/xml_parse/pugixml.cpp:11165-11243 | an optimised tree has its old type and only true classifications, so the lazy evaluator may rely on them |
| XPathOptimize.OptimizePreserves | test/xml_parse/pugixml.cpp:11165-11243 | every parsed tree means the same after optimisation, in every environment and context |
| XPathOptimize.OptimizedQuery | test/xml_parse/pugixml.cpp:12835 | what the evaluator returns for the optimised tree, in value, node set and first node, is what it returns for the parsed one |
| XPathNormal.PosInvIs | test/xml_parse/pugixml.cpp:11245-11274 | an expression is accepted as positionally invariant exactly if it has no position() or last() outside steps and filters |
| XPathNormal.OptimizeFinishes | test/xml_parse/pugixml.cpp:11165-11243 | nothing the optimiser knows how to rewrite is left in an optimised tree, and every predicate has its most specific classification |
| XPathNormal.OptimizeOnce | test/xml_parse/pugixml.cpp:11165-11243 | optimising twice is optimising once, and a tree changes exactly if it has something to rewrite |
| XPathTree.IsPosInvExpr | test/xml_parse/pugixml.cpp:11245-11274 | reading the heap objects decides positional invariance of the expression they hold |
| XPathTree.IsPosInvStep | test/xml_parse/pugixml.cpp:11276-11289 | true exactly when every chained predicate has been classified as positionally invariant |
| XPathTree.DropPositionTest | test/xml_parse/pugixml.cpp:11182-11189 | relinking the predicate past position()= leaves objects that hold the rewritten predicate |
| XPathTree.ClassifyPredicate | test/xml_parse/pugixml.cpp:11191-11202 | writes the classification of the expression the right link holds, and nothing else |
| XPathTree.OptimizeStep | test/xml_parse/pugixml.cpp:11204-11218 | overwriting axis and left link leaves an object that holds the fused step, without touching the predicates |
| XPathTree.OptimizeTranslate | test/xml_parse/pugixml.cpp:11220-11232 | turns the object into a table lookup exactly when both arguments are constants that fit a table; the two constants stay linked |
| XPathTree.OptimizeCompare | test/xml_parse/pugixml.cpp:11234-11242 | turns the object into an attribute comparison, the name staying in the left operand |
| XPathTree.OptimizeSelf | test/xml_parse/pugixml.cpp:11180-11243 | the rules together take an object whose operands are optimised to one that holds the optimised expression, predicate or argument |
| XPathTree.OptimizeTree | test/xml_parse/pugixml.cpp:11165-11178 | optimising left, right and next and then the object itself, in place, refines the optimiser on values; no object is added or shared |
| XPathTree.OptimizeQuery | test/xml_parse/pugixml.cpp:12835 | after the in-place optimisation of a parsed tree the same objects hold a tree with the same answers everywhere |
| TextConvert.ReferenceShrinks | test/xml_parse/pugixml.cpp:2463-2601 | every recognised reference is at least as long as what it expands to, so expanding in place cannot overtake the read cursor |
| TextConvert.Gap.Push | test/xml_parse/pugixml.cpp:2430-2446 | dropping characters closes an earlier hole by a move: the text converted so far is unchanged and so is everything still unread |
| TextConvert.Gap.Flush | test/xml_parse/pugixml.cpp:2448-2460 | closing the last hole leaves the converted text in one piece |
| TextConvert.ReadDigits | test/xml_parse/pugixml.cpp:2481-2513 | the digit loops compute the code point modulo 2^32 and stop at the first other character |
| TextConvert.MatchTail | test/xml_parse/pugixml.cpp:2528-2594 | comparing letter by letter stops at the first mismatch and skips only characters that end no text |
| TextConvert.FindNamed | test/xml_parse/pugixml.cpp:2528-2594 | finds exactly the five named references |
| TextConvert.FindNumeric | test/xml_parse/pugixml.cpp:2469-2526 | finds exactly the numeric references; &#; and &#x; are none |
| TextConvert.Escape | test/xml_parse/pugixml.cpp:2463-2601 | a reference is replaced by its expansion in place; otherwise the text read is kept as it is |
| TextConvert.KeptRun | test/xml_parse/pugixml.cpp:2684 | a run without special characters converts to itself, which justifies the scanning loops |
| TextConvert.ConvertUntilEnd | test/xml_parse/pugixml.cpp:2674-2723 | the loop refines the left-to-right specification of reference expansion, line-end and white-space conversion, up to the stop character or the terminator |
| TextConvert.ConvertPcdata | test/xml_parse/pugixml.cpp:2674-2723 | in-place character data, with or without trimming, line-end conversion and references, is the specified text; what lies outside is unchanged |
| TextConvert.ConvertAttribute | test/xml_parse/pugixml.cpp:2799-2891 | the simple, eol and wconv attribute modes yield the specified text in place, and fail exactly when the closing quote is missing |
| References.Utf8Decodes | test/xml_parse/pugixml.cpp:1489-1530 | a decoder of its own for RFC 3629 gets every code point back from its encoding, whatever follows, exactly up to U+10FFFF |
| References.NumericReference | test/xml_parse/pugixml.cpp:2469-2526 | a decimal reference, and a hexadecimal one in either letter case and with leading zeros, is recognised and yields bytes that decode to its number |
| References.DecimalSpells | test/xml_parse/pugixml.cpp:2498-2516 | the decimal text of every number is such a reference's text |
| References.HexSpells | test/xml_parse/pugixml.cpp:2474-2496 | and so is its hexadecimal text in upper or lower case |
| References.RecognisedIsNumeric | test/xml_parse/pugixml.cpp:2469-2526 | nothing else that begins with &# is recognised; numbers beyond 32 bits wrap around |
| References.EolLaws | test/xml_parse/pugixml.cpp:2698-2703 | line-end normalisation turns each CR LF and each lone CR into one LF, leaves no CR, and treats the parts of a text separately unless a CR LF is cut (section 2.11 of XML 1.0) |
| References.RawText | test/xml_parse/pugixml.cpp:2674-2723 | text without references is kept but for its line ends, and for tabs and line ends that become blanks in attributes where white space is converted (section 3.3.3 of XML 1.0) |
| References.TrimLaws | test/xml_parse/pugixml.cpp:2684-2690 | trimming takes all white space off the end and nothing else |
| References.WrittenAsIs | test/xml_parse/pugixml.cpp:1857-1900 | exactly which characters are written as they are; all others become references |
| EscapeRoundTrip.TextOutputEscaped | test/xml_parse/pugixml.cpp:3923-3973 | the writer's chunked loop writes the character-by-character escaping of the text, which leaves > alone in attribute values |
| EscapeRoundTrip.ReferenceReadsBack | test/xml_parse/pugixml.cpp:3935-3970 | every reference the writer produces is recognised as the character it stands for |
| EscapeRoundTrip.CharReadsBack | test/xml_parse/pugixml.cpp:3923-3973 | conversion at a written character yields that character and goes on behind it |
| EscapeRoundTrip.AttributeRoundTrip | test/xml_parse/pugixml.cpp:2835-2891 | for every text without NUL, escaping it as an attribute value and converting it back gives the text, for either quote, with any white-space or line-end mode |
| EscapeRoundTrip.PcdataRoundTrip | test/xml_parse/pugixml.cpp:2674-2723 | character data comes back up to line-end normalisation |
| EscapeRoundTrip.EolNormalFacts | test/xml_parse/pugixml.cpp:2674-2723 | line-end normalisation changes a text exactly when it holds a carriage return |
| EscapeRoundTrip.PcdataExact | test/xml_parse/pugixml.cpp:2674-2723 | character data comes back unchanged if and only if it has no carriage return where line ends are converted and no trailing blank where text is trimmed |
| EscapeRoundTrip.PcdataLoses | test/xml_parse/pugixml.cpp:2698-2703 | a carriage return comes back as a line feed where line ends are converted, and a trailing blank is lost where text is trimmed |
| EscapeRoundTrip.SkippingWritesVisible | test/xml_parse/pugixml.cpp:3963-3970 | with control characters skipped, what is written is the escaping of the text without them |
| BufferProtocol.PollKeepsPlaces | include/tcp_client.h:110-168 | no step of the poll thread duplicates or drops a buffer: the number of places that hold it is conserved |
| BufferProtocol.ConsumerKeepsPlaces | test/lmax_cli/main.cpp:11-29 | no step of the consumer thread duplicates or drops a buffer either |
| BufferProtocol.PollStepKeeps | include/tcp_client.h:110-168 | the ownership invariant survives every step of the poll thread |
| BufferProtocol.ConsumerStepKeeps | include/fix_client.h:86-145 | the ownership invariant survives every step of the consumer thread |
| BufferProtocol.RunKeeps | include/details.h:79-107 | the invariant holds in every state of every interleaving, for any number of buffers and queue sizes |
| BufferProtocol.OneOwner | include/tcp_client.h:110-168 | in every reachable state a buffer is in at most one of: pool, poll thread, consumer thread, handed over, outgoing, lost |
| BufferProtocol.NeverReleasedTwice | include/tcp_client.h:30-33 | no buffer is released while it is already in the pool |
| BufferProtocol.ChainEnds | include/fix_client.h:44-61 | the buffer of every waiting entry is owned by a later final entry, is still being handled, or was stranded |
| BufferProtocol.NoStaleEntry | include/fix_client.h:44-61 | no waiting entry refers to a buffer that is free, being read into or on its way out |
| BufferProtocol.OnlyOverrunStrands | include/fix_client.h:42-44 | a step strands a buffer if and only if it pushes the last entry of a read whose last message runs past its end, an entry that is not final |
| BufferProtocol.RoomForBuffers | include/details.h:97-100 | a thread that holds a buffer finds room in the pool when it releases it |
| BufferProtocol.EndlessForever | include/fix_client.h:49-62 | a read whose handler never returns keeps the poll thread in the handler, holding the buffer, for the rest of the run |
| BufferProtocol.StarvedForever | include/details.h:97 | once the pool is empty and the consumer waits for a buffer, that stays so for the rest of the run: neither thread gets a buffer again, and the consumer takes no step |
| BufferProtocol.StarvedBound | include/details.h:90-98 | when both threads starve, every buffer waits in the incoming queue, is in the consumer's hand, or was stranded or lost: the pool is no larger than these |
| BufferProtocol.StarvationIsReachable | test/lmax_cli/main.cpp:11-29 | for every number of buffers and all queue sizes there is a run into that state with the session open; overrunning reads strand what the incoming queue cannot take |
| BufferProtocol.StarvationExactly | test/lmax_cli/main.cpp:11-29 | without a stranded buffer both threads can starve if and only if the pool has at most one buffer more than the incoming queue has places |
| SeqLock.StepKeeps | include/tscns.h:74-83 | one step of the writer or of a reader keeps the relation between sequence number, fields and the values read so far |
| SeqLock.RunKeeps | include/tscns.h:133-144 | that relation holds throughout every interleaving |
| SeqLock.NoWrapAround | include/tscns.h:76-81 | with fewer than 2^31 overlapping saves the numbers can only match if nothing was saved in between |
| SeqLock.NoTornRead | include/tscns.h:74-83 | a read that returns has used one triple published whole and current at that instant, if fewer than 2^31 saves overlapped it |
| SeqLock.PublishedWhole | include/tscns.h:133-144 | every published triple but the initial one was given whole to one saveParam call |
| SeqLock.TornReadAtBound | include/tscns.h:136-143 | the bound is tight: with 2^31 overlapping saves there is a run that returns a triple nobody published |
| Calibration.Clock.SaveParam | include/tscns.h:133-144 | stores line, error and the cycle count of the next calibration, over the reals |
| Calibration.Clock.Init | include/tscns.h:39-49 | the first line passes through both synchronised readings, with no error, over the reals |
| Calibration.Clock.Calibrate | include/tscns.h:51-62 | when due, the parameters become those of the error-correcting formula, and the time converted for the calibration instant does not jump, over the reals |
| Calibration.ErrorGrows | include/tscns.h:56 | between calibrations the error grows by drift times elapsed true time |
| Calibration.ExpectedIsDrift | include/tscns.h:57-58 | the formula's expected error is the present error plus drift times one interval |
| Calibration.CalibratedFacts | include/tscns.h:55-61 | recalibration leaves the error as it is and changes only the drift |
| Calibration.ErrorAfterInterval | include/tscns.h:57-60 | one interval later the error is exactly -d * (e + d * I), smaller than predicted if and only if |d| < 1 |
| Calibration.TwoSteps | include/tscns.h:51-62 | two recalibrations take errors of at most m, in units of the interval, to at most 8 m^2 when m <= 1/20 |
| Calibration.BoundHalves | include/tscns.h:51-62 | the error bound at least halves every two recalibrations |
| Calibration.Converges | include/tscns.h:51-62 | after 2n recalibrations, one interval apart, error and drift are within the n-th bound |
| FixText.AtoiRange | include/details.h:25-43 | the loop over a range computes the value of its text |
| FixText.AtoiDecimal | include/details.h:25-43 | the value of a written integer's text is that integer |
| FixText.StdAtoiPadded | include/fix_parse.h:18 | std::atoi reads a zero-padded integer back, whatever follows it |
| FixText.StdAtoiParts | include/fix_parse.h:18 | std::atoi skips white space, takes one sign, and reads up to the first character that is no digit |
| Itoa.Itoa | include/details.h:45-77 | the buffer reversed in place holds the decimal text, nothing for zero, a minus sign and garbled digits for the smallest value of a signed type; -1 exactly when the buffer is no longer than the type or too short for the text |
| Itoa.WriteBackwards | include/details.h:56-64 | the digits come out last one first, or do not fit |
| Itoa.ReverseStart | include/details.h:74 | reverses the first part of the buffer in place |
| Itoa.ReadsBack | include/details.h:25-77 | atoi undoes itoa for every integer, including zero whose text is empty, but for the smallest value of a signed type, which comes back as its opposite |
| FixWriter.CheckSumExact | include/fix_parse.h:182-187 | the written checksum is the standard's mod-256 byte sum if and only if the wrapped signed sum is not negative or a multiple of 256; the two are always congruent |
| FixWriter.CheckSumByCount | include/fix_parse.h:182-187 | below 8 MB the two agree if and only if the byte sum is at least 256 for each byte from 128 on, or a multiple of 256; otherwise the written one is 256 less |
| FixWriter.CheckSumDiffers | include/fix_parse.h:173-190 | a heartbeat with twenty bytes of 0x80 in its Text field ends in 10=-225 where the standard's checksum is 31 |
| FixWriter.CheckSumSevenBit | include/fix_parse.h:182-187 | for 7-bit text the written checksum is the standard's |
| FixWriter.SealedText | include/fix_parse.h:182-187 | 7-bit text below 16 MB ends, after the trailer, in 10=, the three digits of the standard's checksum of all before it, and SOH |
| FixWriter.LengthText | include/fix_parse.h:174-180 | BodyLength is written as 9=, the number of characters of the body in decimal without leading zeros, and SOH |
| FixWriter.Writer.PushField | include/fix_parse.h:155-162 | appends one field, and remembers the place behind BeginString |
| FixWriter.Writer.MoveUp | include/fix_parse.h:178 | the overlapping move keeps the body |
| FixWriter.Writer.InsertLength | include/fix_parse.h:174-180 | BodyLength of the body so far is inserted between header and body |
| FixWriter.Writer.Sum | include/fix_parse.h:182-185 | the loop computes the wrapped sum of signed characters |
| FixWriter.Writer.PushTrailer | include/fix_parse.h:173-190 | the buffer becomes header, exact BodyLength, body and the checksum of all of them |
| FixParser.Iterator.Next | include/fix_parse.h:55-79 | the scan finds the first = and the next SOH behind the start, and the tag keeps its old value if there is no further field |
| FixParser.Message.Init | include/fix_parse.h:101-139 | all early returns included, the message becomes what the specification of init says; `valid` is never reset |
| FixParser.Message.Find | include/fix_parse.h:141-143 | the first field with the tag, or end() |
| FixParser.AdvanceReads | include/fix_parse.h:55-79 | next reads a written field back and stops behind it |
| FixParser.IterationReads | include/fix_parse.h:141-142 | iterating over written fields yields them in order and stops at the trailer |
| FixParser.CheckReads | include/fix_parse.h:126-128 | the checksum read into 8 bits is the standard's, whatever the sign of what was written |
| FixParser.Reads | include/fix_parse.h:101-139 | a written message is accepted, with its type and checksum, and iteration yields exactly the fields after MsgType, without the trailer |
| FixParser.FindsFirst | include/fix_parse.h:143 | find returns the first listed field with the tag, or end() when there is none |
| FixHandler.Handler.Handle | include/fix_client.h:33-66 | the entries pushed and the value returned are those of the specification, for as many loop turns as are followed |
| FixHandler.WholeMessages | include/fix_client.h:33-66 | a read of n >= 1 whole messages pushes exactly n entries, whose spans tile the read and of which only the last is final, and the buffer is kept |
| FixHandler.ReleaseMeansNothingPushed | include/fix_client.h:37-40 | the handler asks for the buffer back only if it pushed nothing, namely when the first message is invalid |
| FixHandler.KeepsFinalLast | include/fix_client.h:42-65 | when the buffer is kept, only the last entry can be final, and it is if its message ends with the read |
| FixHandler.InitTwice | include/fix_parse.h:101-139 | a second init at the same place changes nothing |
| FixHandler.NoProgressNoReturn | include/fix_client.h:49-62 | a turn that does not advance is repeated for ever, pushing an entry each time |
| FixLoop.InitByFrame | include/fix_parse.h:101-139 | what init does at a position follows from the fields found there: it moves to the end of a framed message, faults, or leaves the end where it is |
| FixLoop.EndStaysExactly | include/fix_parse.h:105-124 | the end stays put if and only if a guard fails there: no tag 8, no tag 9 behind it, a zero length, no tag 10 where it leads; or the message ends where it begins |
| FixLoop.LoopsExactly | include/fix_client.h:49-62 | the loop never ends if and only if following the messages leads, inside the read, to a position without a whole message or back to one already passed; negative lengths included |
| FixLoop.FirstIsValid | include/fix_parse.h:101-139 | whatever a new message object holds, init makes it valid if and only if the first position is framed and MsgType follows BodyLength |
| FixLoop.HandlerLoopsExactly | include/fix_client.h:33-66 | a handler call never returns if and only if its first message is whole and the rest is such a trap |
| FixReturn.KeepsExactly | include/fix_client.h:42-65 | a call keeps the buffer without a final entry if and only if the first message is whole and following the others leads behind the end of the read, and with exactly its last entry final if and only if that leads to the very end |
| FixReturn.GivesBackExactly | include/fix_client.h:37-40 | a call gives the buffer back if and only if the first message is not whole and looking for it does not fault |
| FixReturn.FaultsExactly | include/fix_client.h:33-66 | a call uses a null pointer or leaves memory if and only if looking for the first message does, or following the others leads, inside the read, to a position where it happens |
| FixReturn.OverrunExactly | include/fix_client.h:33-66 | which of the buffer protocol's outcomes a returning call is follows from where its messages lead |
| FixReturn.CutOffMessages | include/fix_client.h:42-65 | a read that ends inside the last of n written messages, the rest of which an earlier read left in the buffer, pushes n entries, none of them final, and keeps the buffer |
| FixLoop.NoNegativeLengths | include/fix_parse.h:114-119 | without negative numbers in memory a trap always is a position without a whole message |
| FixLoop.TruncatedTailLoops | include/fix_client.h:49-62 | a whole message followed by a cut-off one is a trap: `valid` still stands from the first, and every turn pushes an entry that is not final |
| FixHandler.HandlerFollowsProtocol | include/fix_client.h:33-66 | every call that returns is one of the outcomes the buffer protocol allows, with the same queue entries |
| FixHandler.StuckHandlerFollowsProtocol | include/fix_client.h:49-62 | a call that never returns is the protocol's endless outcome: after any number of turns the same entries, none of them final |
| SessionLaws.MessageDecides | include/fix_client.h:86-109 | the consumer pops the entry of the i-th message of a read: if its MsgType begins with 0 or 1 only a reply can follow, and otherwise none; it becomes logged in exactly by one that begins with A |
| SessionLaws.QueuesAreFifo | include/details.h:79-107 | in every step each queue loses its oldest element or gains one at its end within its bound; the consumer handles the oldest entry and the poll thread sends the oldest posted message |
| SessionLaws.ClosedIsFinal | test/lmax_cli/main.cpp:14-18 | after a close neither thread opens the session again; the poll thread takes no step, and the consumer none once it is done with its message |
| SessionLaws.FirstMessageDecides | test/lmax_cli/main.cpp:20-24 | in every run call_once posts a market data request for the first message popped and no other, if and only if that is a logon |
| SessionLaws.RequestsForFirst | test/lmax_cli/main.cpp:20-24 | in every run a request is being built or posted only while the first message is handled, and that is a logon |
| SessionLaws.EveryHeartbeatAnswered | include/fix_client.h:97-101 | in every run all messages the client built were posted and have been taken out to be written or still wait, and every heartbeat or test request popped has been answered, but for one in hand |
| ThreeWaySort.InsertionSort | test/xml_parse/pugixml.cpp:7617-7637 | sorts the part and permutes nothing else |
| ThreeWaySort.Median3 | test/xml_parse/pugixml.cpp:7639-7649 | returns the place of a median of the three values, without moving them |
| ThreeWaySort.GroupsStep | test/xml_parse/pugixml.cpp:7653-7662 | each case of the partition loop keeps the four groups |
| ThreeWaySort.Divide | test/xml_parse/pugixml.cpp:7651-7662 | one pass groups equal, smaller and larger elements |
| ThreeWaySort.MovingStep | test/xml_parse/pugixml.cpp:7664-7671 | each swap of the final move keeps the elements not yet moved, even where the ranges overlap |
| ThreeWaySort.Partition3 | test/xml_parse/pugixml.cpp:7651-7676 | smaller, equal and larger elements end up in three segments, a permutation of the part |
| ThreeWaySort.PartitionChunk | test/xml_parse/pugixml.cpp:7680-7691 | with the median of three as pivot the middle segment is never empty |
| ThreeWaySort.Narrow | test/xml_parse/pugixml.cpp:7693-7702 | after sorting one outer segment only the other is left to sort |
| ThreeWaySort.Sort | test/xml_parse/pugixml.cpp:7678-7706 | the part becomes a sorted permutation of itself, and calls nest at most log2(n) deep |
| PageAllocator.NoBytesNoBlocks | test/xml_parse/pugixml.cpp:596-638 | a page has no live bytes exactly when no live block is on it, which is what comparing freed with busy size decides |
| PageAllocator.BytesWithout | test/xml_parse/pugixml.cpp:596-601 | freeing one block takes exactly its size from its page's live bytes |
| PageAllocator.StringSize | test/xml_parse/pugixml.cpp:640-656 | header and characters are rounded up to less than one alignment more |
| PageAllocator.HeaderRoundTrip | test/xml_parse/pugixml.cpp:640-691 | the 16-bit offset and size stored in front of a string give both back, a size too large for the field being its page's busy size |
| PageAllocator.Allocator.constructor | test/xml_parse/pugixml.cpp:7110-7142 | a document starts with one full sentinel page |
| PageAllocator.Allocator.AllocateMemory | test/xml_parse/pugixml.cpp:544-556 | one live block is added, apart from all others: at the end of the root page if it fits, else at the start of a new one; accounting and page list stay right |
| PageAllocator.Allocator.AllocateOob | test/xml_parse/pugixml.cpp:710-746 | a small block starts a new root page, a large one gets a page of its own in front of the root |
| PageAllocator.Allocator.DeallocateMemory | test/xml_parse/pugixml.cpp:596-638 | one block goes, and its page is unlinked (or, if it is the root, reset) exactly when no live block is left on it |
| PageAllocator.Allocator.ReleaseIfEmpty | test/xml_parse/pugixml.cpp:602-637 | the three cases at the end of a deallocation |
| PageAllocator.Allocator.Unlink | test/xml_parse/pugixml.cpp:620-634 | removes one page from the doubly linked list and nothing else |
| PageAllocator.Allocator.AllocateString | test/xml_parse/pugixml.cpp:640-672 | the block of a string and the header that will find it again |
| PageAllocator.Allocator.DeallocateString | test/xml_parse/pugixml.cpp:674-691 | frees exactly the page and size that were allocated, as recovered from the header |
| SiblingList.RemoveInserted | test/xml_parse/pugixml.cpp:1234-1331 | removing what was inserted gives the list back, at every place |
| SiblingList.AppendNode | test/xml_parse/pugixml.cpp:1234-1253 | the half-circular list becomes the old one with the child at the end |
| SiblingList.PrependNode | test/xml_parse/pugixml.cpp:1255-1271 | the half-circular list becomes the old one with the child at the front |
| SiblingList.InsertNodeAfter | test/xml_parse/pugixml.cpp:1273-1290 | the half-circular list becomes the old one with the child right behind the given one |
| SiblingList.InsertNodeBefore | test/xml_parse/pugixml.cpp:1292-1309 | the half-circular list becomes the old one with the child right in front of the given one |
| SiblingList.RemoveNode | test/xml_parse/pugixml.cpp:1311-1331 | the half-circular list becomes the old one without the child, whose links are cleared |
| SiblingList.AllowedChildren | test/xml_parse/pugixml.cpp:4373-4380 | which kinds of node may stand below which |
| SiblingList.Tree.Shape | test/xml_parse/pugixml.cpp:4373-4380 | in a proper tree the document is the only document node, leaves have no children, and declarations and doctypes stand below the document |
| SiblingList.Tree.OutsideOf | test/xml_parse/pugixml.cpp:4392-4401 | climbing from the new parent decides whether it lies outside the subtree, and terminates |
| SiblingList.Tree.AllowMove | test/xml_parse/pugixml.cpp:4382-4404 | true exactly when the kinds fit, both nodes belong to one document and the new parent is not below the node |
| SiblingList.Tree.Move | test/xml_parse/pugixml.cpp:6108-6174 | an allowed move takes the node from its old place to the new one and keeps a proper tree; a refused one changes nothing; refused exactly when kinds, documents, subtree or place do not fit |
| SiblingList.Tree.InsertChild | test/xml_parse/pugixml.cpp:5932-6001 | a new node appears at the wanted place exactly when kinds and sibling fit |
| SiblingList.Tree.RemoveChild | test/xml_parse/pugixml.cpp:6221-6233 | the node and everything below it leave the tree, all other child lists stay; a node that is not a child of the parent, from this document or another, is refused |
| SiblingList.Tree.Attach | test/xml_parse/pugixml.cpp:1234-1309 | a loose subtree hung below a node outside it gives a proper tree again |
| SiblingList.Tree.Detach | test/xml_parse/pugixml.cpp:1311-1331 | taking a node out leaves a proper tree and one loose subtree |
| SiblingList.Tree.AllBelowDocument | test/xml_parse/pugixml.cpp:4392-4402 | in a proper tree every node hangs below the document |
| TreeLayout.ValidTreeHasLayout | test/xml_parse/pugixml.cpp:1234-1331 | every tree that inserts, removals and moves leave has all its nodes, each once, in a document table that its links match, so the axis walks are proved for it |
| SiblingList.Tree.UnderRanks | test/xml_parse/pugixml.cpp:4392-4402 | no node of a proper tree is above itself |
| IntegerText.ReadDigits | test/xml_parse/pugixml.cpp:4532-4570 | the accumulator holds the digits' value modulo the word, whatever their number |
| IntegerText.DecimalOverflow | test/xml_parse/pugixml.cpp:4572-4580 | the test on digit count, leading digit and high bit is true exactly when the value does not fit the word, although the accumulator has wrapped |
| IntegerText.HexOverflow | test/xml_parse/pugixml.cpp:4550-4552 | for hexadecimal digits their number alone tells |
| IntegerText.CriticalLength | test/xml_parse/pugixml.cpp:4576-4580 | among numbers of the longest possible length the leading digit decides, and for the largest one the high bit of the wrapped value |
| IntegerText.StringToInteger | test/xml_parse/pugixml.cpp:4514-4594 | the text's true value, clamped to the range of the type, for 16, 32 and 64 bits and texts of any length |
| IntegerText.WriteDigits | test/xml_parse/pugixml.cpp:4648-4653 | the loop from the end of the buffer writes the decimal digits |
| IntegerText.IntegerToString | test/xml_parse/pugixml.cpp:4645-4663 | the end of the buffer holds the number's decimal text, with its sign |
| IntegerLaws.MeaningOfParts | test/xml_parse/pugixml.cpp:4519-4570 | blanks, a sign, 0x or 0X, and digits in either letter case mean what they spell, up to the first other character |
| IntegerText.MeaningOfDecimal | test/xml_parse/pugixml.cpp:4519-4570 | a written integer means itself |
| IntegerText.IntegerRoundTrip | test/xml_parse/pugixml.cpp:4596-4604 | every representable integer, the minimum included, is read back as written |
| IntegerText.SetterArguments | test/xml_parse/pugixml.cpp:4682-4690 | word and sign that the setters pass denote their value |
| OperatorParser.Prec | test/xml_parse/pugixml.cpp:12089-12153 | each operator has the precedence of the one level of the grammar that lists it, from OrExpr to UnionExpr (sections 3.1 to 3.5 of XPath 1.0) |
| OperatorParser.Parser.Parse | test/xml_parse/pugixml.cpp:12230-12242 | returns a tree if and only if the grammar derives the tokens for that tree and their depth is within the limit, and nothing for all other tokens |
| OperatorParser.Parser.ParseUnary | test/xml_parse/pugixml.cpp:12023-12086 | an operand token, a minus sign with what it applies to, or a bracketed expression |
| OperatorParser.Parser.ParseExpression | test/xml_parse/pugixml.cpp:12209-12224 | terminates on every token sequence, and restores the depth |
| OperatorParser.Parser.ParseRest | test/xml_parse/pugixml.cpp:12155-12189 | the outer loop follows the specification and its depth count |
| OperatorParser.Parser.ParseTighter | test/xml_parse/pugixml.cpp:12169-12177 | the inner loop follows the specification and its depth count |
| OperatorParser.UnaryReads | test/xml_parse/pugixml.cpp:12023-12086 | at a text that the grammar allows the unary parser returns its leftmost operand |
| OperatorParser.RestReads | test/xml_parse/pugixml.cpp:12155-12189 | from there the outer loop takes in the rest of the text, left-associatively |
| OperatorParser.TighterReads | test/xml_parse/pugixml.cpp:12169-12177 | the inner loop takes in a right operand of tighter operators, even though it calls the outer loop piecewise |
| OperatorParser.ExpressionReads | test/xml_parse/pugixml.cpp:12209-12224 | a text that the grammar allows is read whole where no further operator belongs to it |
| OperatorParser.TooDeepFails | test/xml_parse/pugixml.cpp:12211-12214 | beyond the depth limit parsing fails, wherever the limit is passed |
| OperatorParser.DerivedIsSound | test/xml_parse/pugixml.cpp:12089-12153 | what the productions OrExpr to PathExpr of sections 3.1 to 3.5 derive has operators of the right precedences around brackets, minus signs and operands, and unions of node sets only |
| OperatorParser.SoundIsDerived | test/xml_parse/pugixml.cpp:12089-12153 | and every text with such operators is derived by the productions |
| OperatorParser.ExpressionSpells | test/xml_parse/pugixml.cpp:12209-12224 | whatever expression is parsed, a derived text of it stands in the tokens just passed: brackets are balanced and nothing is skipped |
| OperatorParser.ParsesDerived | test/xml_parse/pugixml.cpp:12209-12242 | every text that the grammar derives, with any number of brackets, parses to the tree it stands for exactly when its depth is within the limit |
| OperatorParser.ParsesExactly | test/xml_parse/pugixml.cpp:12209-12242 | for every token sequence and tree: the parser returns the tree if and only if the grammar derives the tokens for it within the depth limit |
| OperatorParser.Unambiguous | test/xml_parse/pugixml.cpp:12155-12189 | no token sequence within the depth limit stands for two trees |
| OperatorParser.ParsesPrinted | test/xml_parse/pugixml.cpp:12209-12242 | every well-typed tree is recovered from its minimally bracketed text, exactly when the depth it needs is within the limit, and is refused otherwise |
| OperatorParser.PrintedApart | test/xml_parse/pugixml.cpp:12209-12242 | two trees never print alike, so no brackets are missing |

## Left out

- Calibration.Converges: over the reals, with a constant tick rate and recalibrations exactly one interval apart; truncation to integers, noisy readings and the 1000 ns head start of the next calibration are not modelled.
- Calibration.Clock.SaveParam: over the reals; truncation of times and cycle counts to 64-bit integers is not modelled.
- Calibration.Clock.Init: over the reals, with both synchronised readings given and the wait between them left out.
- Calibration.Clock.Calibrate: over the reals, with the synchronised reading given.
- SeqLock.NoTornRead: single loads and stores are interleaved sequentially consistently; weak memory orderings are not modelled.
- BufferProtocol.OneOwner: safety only; queues are bounded FIFOs whose blocking operations wait, and nothing is claimed about progress beyond the results on starvation and endless handler calls.
- FixWriter.Writer.PushTrailer: demands room in the buffer, which the code never checks; the standard's BeginString field must have been pushed first.
- FixText.AtoiRange: unbounded integers; overflow of the C++ int, which the language leaves undefined, is not modelled. FixParser.Message.Init reads lengths the same way.
- Itoa.Itoa: negating the smallest value of a signed type, which the language leaves undefined for int and wider types, is taken to wrap around.
- FixHandler.Handler.Handle: follows the handler for a given number of loop turns, because it need not end; memory ends in a zero byte, and leaving it or using a null pointer is one outcome, `Faulted`.
- XPathLazy.LazyExact: numbers, their arithmetic, conversions and string functions are arbitrary functions of the environment; `sum` is a function of the set of nodes, so the order of floating-point additions, which optimisation can change, is not captured.
- With a name test the attribute axis means the first attribute of that name, as in the code; well-formed documents have no second one, but the parser accepts it.
- References.NumericReference: a reference to a surrogate (U+D800 to U+DFFF), which RFC 3629 forbids to encode, is encoded like any other number, and the decoder used here lets it through.
- XPathTree.OptimizeTree: a node's type carries its data, and predicate class and node test are separate fields, where the code overlays them in one byte and a union.
- AxisFill.StepFill: attributes, which the walks only read, are a list value per element, and an attribute is told by its element and place; the namespace axis, which the code does not support, is left out.
- AxisWalk.NodeIsBefore: two different nodes of one document; the shortcut by buffer position and the comparison of attributes are not walked on the heap.
- ThreeWaySort.Sort: elements are integers, the ranks of nodes in document order; XPathSort.SortList sorts nodes through them instead of calling the comparator on nodes.
- NodeHash.RemoveDuplicates: a node's address is a number, and different nodes have different addresses.
- TextConvert.ConvertAttribute: white-space normalisation (parse_wnorm) is left out, as are wide characters; a character is one byte.
- OperatorParser.Parser.Parse: tokens are given; location paths, function calls, predicates and the lexer are not parsed.
- OperatorParser.Parser.ParseUnary: a whole path, filter or primary expression is one operand token.
- SiblingList.Tree.Move: nodes that have been destroyed, which no caller may pass, are excluded; attribute lists have the same shape as child lists and are not repeated.
- PageAllocator.Allocator.AllocateMemory: block sizes are multiples of the alignment and the first allocation of a document is small, as all callers guarantee; running out of memory is not modelled.
- IntegerText.StringToInteger: unsigned words of 16, 32 and 64 bits; floating-point conversion and formatting are left out.
- Sockets, connect and bind, the contents of reads and writes, logging, JSON configuration, time stamps and the cycle counter: parameters or environment steps.
- tcp_server_impl and ipc_handler_t, the generated FIX constants, the order and LMAX message builders, metrics and benchmarks: thin wrappers or data.
- pugixml's compact mode, file and stream loading, encoding detection, DOCTYPE and markup parsing, and the string namespace functions.
