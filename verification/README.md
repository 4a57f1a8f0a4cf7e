# BL Statement kernel in Dafny

This project models the kernel of `Statement2`, the tree-backed implementation of
the `Statement` component of BL, a small block-structured language. A statement
is a tree. Each node carries a label, which is one of BLOCK, IF(condition),
IF_ELSE(condition), WHILE(condition) or CALL(instruction). Each node also has an
ordered list of child statements. The kernel builds and takes apart nodes one
level at a time, under a "consume inputs, empty outputs" rule:

- a statement passed into an assemble or add operation is left as the empty BLOCK;
- a disassembled statement is left as the empty BLOCK;
- output statements are overwritten, and their old content is discarded.

The representation convention (`Statement2.java:12`) is that the representation
is always a valid statement tree:

- a BLOCK's children are never BLOCKs;
- IF and WHILE have exactly one BLOCK child;
- IF_ELSE has exactly two BLOCK children;
- CALL has no children, and its instruction is an identifier.

Files:

- `statement_tree.dfy`, module `StatementTree`: the value level. It holds the
  labels and their three kind-specific constructors, the `Tree` datatype, the
  convention as the recursive predicate `WellFormed`, positional insertion and
  removal of a child, and the lemmas about them. The lemmas cover inverse laws,
  preservation of the convention, node-count conservation, the convention at
  every reachable node, and runs of insertions.
- `statement_kernel.dfy`, module `StatementKernel`: the class `Statement2`. Its one
  field, `rep: Tree`, is reassigned by every kernel method, as in the source.
  Argument statements have their `rep` reset or overwritten. Each method states
  the new value of every object it modifies and keeps `Valid()` (that is,
  `WellFormed(rep)`) on all of them.
- `statement_round_trips.dfy`, module `StatementRoundTrips`: callers that chain
  an operation and its inverse, proved from the kernel contracts alone. Examples
  are add then remove, remove then add back, assemble then disassemble, and the
  reverse. It ends with a WHILE loop around a single call to `foo`, built and
  then taken apart again.

Since a Dafny datatype is a value, no subtree can be reachable from two
statements. That is the ownership guarantee the Java code keeps by resetting
consumed arguments. In the model, "consumed" becomes an exact postcondition:
the argument's `rep` equals `EmptyTree()`.

## Model

| member | source | states |
|---|---|---|
| `StatementTree.NewBlockLabel` | ProgramAndStatement/src/Statement2.java:50-53 | the BLOCK label constructor accepts only kind BLOCK and yields a label of that kind |
| `StatementTree.NewConditionLabel` | ProgramAndStatement/src/Statement2.java:63-68 | accepts only IF, IF_ELSE or WHILE; the label has that kind and stores the given condition |
| `StatementTree.NewCallLabel` | ProgramAndStatement/src/Statement2.java:78-85 | accepts only kind CALL with an identifier; the label has kind CALL and stores the instruction |
| `StatementTree.EmptyTree` | ProgramAndStatement/src/Statement2.java:109-118 | the freshly created representation is a BLOCK with no children, and it satisfies the convention |
| `StatementTree.LabelKind` | ProgramAndStatement/src/Statement2.java:32 | the kind stored in a label: each of the five kinds exactly for the label variant of that kind |
| `StatementTree.ShapeOk` | ProgramAndStatement/src/Statement2.java:12 | the convention at one node: a BLOCK has no BLOCK child; IF and WHILE have exactly one child, a BLOCK; IF_ELSE has exactly two, both BLOCKs; a CALL has no children and an identifier as instruction |
| `StatementTree.WellFormed` | ProgramAndStatement/src/Statement2.java:12 | the convention for a whole tree: the root and every child, recursively, satisfy ShapeOk |
| `StatementTree.InsertAt` | ProgramAndStatement/src/Statement2.java:203 | inserting at pos grows the sequence by one; the new element sits at pos; earlier elements stay put and later ones shift right by one |
| `StatementTree.RemoveAt` | ProgramAndStatement/src/Statement2.java:232 | removing at pos shrinks the sequence by one; earlier elements stay put and later ones shift left by one |
| `StatementTree.RemoveAfterInsert` | ProgramAndStatement/src/Statement2.java:181-235 | removing at the position just inserted at returns the inserted tree and restores the original children |
| `StatementTree.InsertAfterRemove` | ProgramAndStatement/src/Statement2.java:181-235 | inserting a removed child back at its position restores the original children |
| `StatementTree.InsertKeepsBlockWellFormed` | ProgramAndStatement/src/Statement2.java:181-211 | inserting a well-formed non-BLOCK statement into a well-formed BLOCK gives a well-formed BLOCK |
| `StatementTree.RemoveKeepsBlockWellFormed` | ProgramAndStatement/src/Statement2.java:214-235 | removing a child keeps the BLOCK well formed; the removed child is a well-formed non-BLOCK statement |
| `StatementTree.CompoundWellFormed` | ProgramAndStatement/src/Statement2.java:249-409 | IF, WHILE (one body) and IF_ELSE (two bodies) built from well-formed BLOCK bodies are well formed |
| `StatementTree.CompoundBodiesWellFormed` | ProgramAndStatement/src/Statement2.java:279-438 | a well-formed IF or WHILE has exactly one body and an IF_ELSE exactly two; every body is a well-formed BLOCK |
| `StatementTree.ForestSizeConcat` | ProgramAndStatement/src/Statement2.java:197-210 | the node count of two concatenated child sequences is the sum of their counts |
| `StatementTree.ForestSizeInsert` | ProgramAndStatement/src/Statement2.java:197-210 | inserting a child adds exactly that child's nodes, so no node is copied or lost |
| `StatementTree.ForestSizeRemove` | ProgramAndStatement/src/Statement2.java:226-234 | removing a child takes out exactly that child's nodes |
| `StatementTree.WellFormedAt` | ProgramAndStatement/src/Statement2.java:12 | every statement reachable from a well-formed root is itself well formed |
| `StatementTree.EveryNodeShapedIsWellFormed` | ProgramAndStatement/src/Statement2.java:12 | a tree whose every reachable node has a valid shape is well formed |
| `StatementTree.WellFormedIffEveryNodeShaped` | ProgramAndStatement/src/Statement2.java:12 | the recursive convention holds exactly when every reachable node has a valid local shape (both directions) |
| `StatementTree.ApplyInsertions` | ProgramAndStatement/src/Statement2.java:181-211 | after k in-range insertions, the block's length is its old length plus k |
| `StatementTree.ApplyInsertionsWellFormed` | ProgramAndStatement/src/Statement2.java:181-211 | a run of insertions of well-formed non-BLOCK statements keeps a BLOCK well formed |
| `StatementKernel.Statement2.Valid` | ProgramAndStatement/src/Statement2.java:12 | the object invariant: the representation `rep` is a well-formed statement tree |
| `StatementKernel.Statement2.CreateNewRep` | ProgramAndStatement/src/Statement2.java:109-118 | rep becomes the empty BLOCK and satisfies the convention |
| `StatementKernel.Statement2.constructor` | ProgramAndStatement/src/Statement2.java:127-132 | a new statement is the empty BLOCK |
| `StatementKernel.Statement2.Clear` | ProgramAndStatement/src/Statement2.java:149-151 | this becomes the empty BLOCK, discarding its content |
| `StatementKernel.Statement2.TransferFrom` | ProgramAndStatement/src/Statement2.java:154-166 | source must not be this; this takes source's old value and source becomes the empty BLOCK |
| `StatementKernel.Statement2.Kind` | ProgramAndStatement/src/Statement2.java:173-178 | the kind of the root label: each of the five kinds exactly when the root carries the label of that kind |
| `StatementKernel.Statement2.LengthOfBlock` | ProgramAndStatement/src/Statement2.java:238-246 | defined only for a BLOCK; the number of its children |
| `StatementKernel.Statement2.AddToBlock` | ProgramAndStatement/src/Statement2.java:181-211 | needs a BLOCK, 0 <= pos <= length and a non-BLOCK s; children become old[..pos] + [old s] + old[pos..]; the length grows by one; s becomes the empty BLOCK; the node count is conserved; both objects stay valid |
| `StatementKernel.Statement2.RemoveFromBlock` | ProgramAndStatement/src/Statement2.java:214-235 | needs a BLOCK and 0 <= pos < length; returns a fresh statement holding exactly the old child at pos, which is not a BLOCK; that child is deleted from the block and the length drops by one; the node count is conserved |
| `StatementKernel.Statement2.AssembleIf` | ProgramAndStatement/src/Statement2.java:249-276 | needs s to be a BLOCK; this becomes IF(c) with the single child old s, whatever it held before; s becomes the empty BLOCK |
| `StatementKernel.Statement2.DisassembleIf` | ProgramAndStatement/src/Statement2.java:279-304 | needs an IF; returns its condition; s receives its body (a BLOCK), replacing its old content; this becomes the empty BLOCK |
| `StatementKernel.Statement2.AssembleIfElse` | ProgramAndStatement/src/Statement2.java:307-344 | needs s1 and s2 to be BLOCKs; this becomes IF_ELSE(c) with children [old s1, old s2] in that order; both become the empty BLOCK |
| `StatementKernel.Statement2.DisassembleIfElse` | ProgramAndStatement/src/Statement2.java:347-377 | needs an IF_ELSE; returns its condition; s1 receives child 0 and s2 child 1; this becomes the empty BLOCK |
| `StatementKernel.Statement2.AssembleWhile` | ProgramAndStatement/src/Statement2.java:380-409 | needs s to be a BLOCK; this becomes WHILE(c) with the single child old s; s becomes the empty BLOCK |
| `StatementKernel.Statement2.DisassembleWhile` | ProgramAndStatement/src/Statement2.java:412-438 | needs a WHILE; returns its condition; s receives its body; this becomes the empty BLOCK |
| `StatementKernel.Statement2.AssembleCall` | ProgramAndStatement/src/Statement2.java:441-457 | needs an identifier; this becomes CALL(inst) with no children, whatever it held before |
| `StatementKernel.Statement2.DisassembleCall` | ProgramAndStatement/src/Statement2.java:460-478 | needs a CALL; returns its instruction, which is an identifier; this becomes the empty BLOCK |
| `StatementRoundTrips.AddThenRemove` | ProgramAndStatement/src/Statement2.java:181-235 | addToBlock(pos, x) then removeFromBlock(pos) returns x's old value, restores the block exactly and leaves x empty |
| `StatementRoundTrips.RemoveThenAdd` | ProgramAndStatement/src/Statement2.java:181-235 | removeFromBlock(pos), then adding the removed statement back at pos, restores the block exactly |
| `StatementRoundTrips.IfRoundTrip` | ProgramAndStatement/src/Statement2.java:249-304 | assembleIf then disassembleIf gives back the condition and the original body, and leaves the IF statement empty |
| `StatementRoundTrips.IfRebuild` | ProgramAndStatement/src/Statement2.java:249-304 | disassembleIf then assembleIf of its parts rebuilds the original IF |
| `StatementRoundTrips.IfElseRoundTrip` | ProgramAndStatement/src/Statement2.java:307-377 | assembleIfElse then disassembleIfElse gives back the condition and both bodies, in order |
| `StatementRoundTrips.IfElseRebuild` | ProgramAndStatement/src/Statement2.java:307-377 | disassembleIfElse then assembleIfElse of its parts rebuilds the original IF_ELSE |
| `StatementRoundTrips.WhileRoundTrip` | ProgramAndStatement/src/Statement2.java:380-438 | assembleWhile then disassembleWhile gives back the condition and the original body |
| `StatementRoundTrips.WhileRebuild` | ProgramAndStatement/src/Statement2.java:380-438 | disassembleWhile then assembleWhile of its parts rebuilds the original WHILE |
| `StatementRoundTrips.CallRoundTrip` | ProgramAndStatement/src/Statement2.java:441-478 | assembleCall(inst) then disassembleCall() returns inst and leaves the statement empty |
| `StatementRoundTrips.WhileOfOneCall` | ProgramAndStatement/src/Statement2.java:380-438 | adding a call to foo to an empty body gives a body of length one and leaves the call statement the empty BLOCK; wrapping the body in WHILE(cond) and taking it apart gives kind WHILE, condition cond, a body of length one and the instruction foo |

## Left out

- `Tokenizer.isIdentifier` is not part of this model. `StatementTree.IsIdentifier` stands in for it with the BL identifier rule as written here: a letter followed by letters, digits and hyphens. Keywords are not excluded. The rule appears in the preconditions of `AssembleCall` and `NewCallLabel`, in the CALL case of `ShapeOk`, and in the ensures of `DisassembleCall`. The only content of the rule that a proof uses is that `"foo"` is an identifier, in `StatementRoundTrips.WhileOfOneCall`.
- `Condition` is not part of this model. It is the abstract type `Condition` with equality, which is all the kernel needs: it only stores conditions and returns them.
- The `Tree1` and `Sequence` library components are not part of this model. They are replaced by the `Tree` datatype and Dafny sequence operations. Because the model works on values, it does not capture that a Java `Tree` object could be shared by reference. That no-sharing property is what the resets in the source ensure.
- `newInstance` (reflection), `StatementLabel.toString` (debug text), and the `null` and `instanceof Statement2` assertions and casts have no counterpart in Dafny.
- The Java `assert` statements are checked only when assertions are enabled. The model turns each of them into a precondition.
- StatementKernel.Statement2.AssembleIf: this method, `AssembleWhile`, `DisassembleIf` and `DisassembleWhile` require `s != this`, and `AssembleIfElse` and `DisassembleIfElse` require their three objects to be distinct. The Java code does not assert this. The model follows the component family's rule that a receiver and its arguments are distinct objects. As written, `assembleIf(c, this)` would leave `this` empty.
- StatementKernel.Statement2.AddToBlock: needs no such precondition: its kind preconditions already exclude `s == this`.
- The positions and lengths are Java `int`s. The model uses unbounded integers, since a block can never have 2^31 children in practice.
- The methods inherited from `StatementSecondary`, the `Program` component, the BL parser and pretty-printer, and the tests' file reading are not part of this model.
