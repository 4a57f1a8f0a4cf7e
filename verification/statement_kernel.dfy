/**
 * The kernel of the BL Statement component: an object whose only field is the
 * tree that represents the statement. Every kernel method reassigns that field,
 * and the methods that consume or fill in argument statements reassign theirs.
 *
 * The representation convention is Valid(): rep is a well-formed statement
 * tree. Each method requires it of this and of every statement it reads, and
 * re-establishes it of every statement it writes.
 */
module StatementKernel {
  import opened StatementTree

  class Statement2 {
    var rep: Tree

    ghost predicate Valid()
      reads this
    {
      WellFormed(rep)
    }

    /** Resets the representation to the empty statement. */
    method CreateNewRep()
      modifies this
      ensures rep == EmptyTree() && Valid()
    {
      rep := Node(NewBlockLabel(Block), []);
    }

    /** A new statement is the empty BLOCK. */
    constructor ()
      ensures rep == EmptyTree() && Valid()
    {
      rep := Node(NewBlockLabel(Block), []);
    }

    /** Discards the whole statement, leaving the empty BLOCK. */
    method Clear()
      modifies this
      ensures rep == EmptyTree() && Valid()
    {
      CreateNewRep();
    }

    /** Moves the value of source into this; source becomes the empty BLOCK. */
    method TransferFrom(source: Statement2)
      requires source != this && source.Valid()
      modifies this, source
      ensures rep == old(source.rep) && Valid()
      ensures source.rep == EmptyTree() && source.Valid()
    {
      rep := source.rep;
      source.CreateNewRep();
    }

    /** The kind of the root of this statement. */
    function Kind(): (k: Kind)
      reads this
      ensures k == Block <==> rep.root.BlockLabel?
      ensures k == If <==> rep.root.IfLabel?
      ensures k == IfElse <==> rep.root.IfElseLabel?
      ensures k == While <==> rep.root.WhileLabel?
      ensures k == Call <==> rep.root.CallLabel?
    {
      LabelKind(rep.root)
    }

    /** The number of statements in this BLOCK. */
    function LengthOfBlock(): (n: nat)
      reads this
      requires Kind() == Block
      ensures n == |rep.children|
    {
      |rep.children|
    }

    /** Inserts s at position pos of this BLOCK; s becomes the empty BLOCK. */
    method AddToBlock(pos: int, s: Statement2)
      requires Valid() && s.Valid()
      requires Kind() == Block
      requires 0 <= pos <= LengthOfBlock()
      requires s.Kind() != Block
      modifies this, s
      ensures rep == Node(BlockLabel, InsertAt(old(rep.children), pos, old(s.rep)))
      ensures Kind() == Block && LengthOfBlock() == old(LengthOfBlock()) + 1
      ensures s.rep == EmptyTree()
      ensures Size(rep) == old(Size(rep)) + old(Size(s.rep))
      ensures Valid() && s.Valid()
    {
      ForestSizeInsert(rep.children, pos, s.rep);
      // s != this follows from the two kind preconditions
      var children := rep.children;
      var lbl := rep.root;
      InsertKeepsBlockWellFormed(children, pos, s.rep);
      children := InsertAt(children, pos, s.rep);
      s.CreateNewRep();
      rep := Node(lbl, children);
    }

    /** Removes the statement at position pos of this BLOCK and returns it as a new statement. */
    method RemoveFromBlock(pos: int) returns (r: Statement2)
      requires Valid()
      requires Kind() == Block
      requires 0 <= pos < LengthOfBlock()
      modifies this
      ensures fresh(r)
      ensures r.rep == old(rep.children[pos]) && r.Kind() != Block
      ensures rep == Node(BlockLabel, RemoveAt(old(rep.children), pos))
      ensures Kind() == Block && LengthOfBlock() == old(LengthOfBlock()) - 1
      ensures Size(rep) + Size(r.rep) == old(Size(rep))
      ensures Valid() && r.Valid()
    {
      RemoveKeepsBlockWellFormed(rep.children, pos);
      ForestSizeRemove(rep.children, pos);
      r := new Statement2();
      r.rep := rep.children[pos];
      rep := Node(rep.root, RemoveAt(rep.children, pos));
    }

    /** Makes this IF c with body s, discarding what this held; s becomes the empty BLOCK. */
    method AssembleIf(c: Condition, s: Statement2)
      requires s != this && s.Valid()
      requires s.Kind() == Block
      modifies this, s
      ensures rep == Node(IfLabel(c), [old(s.rep)]) && Kind() == If
      ensures s.rep == EmptyTree()
      ensures Valid() && s.Valid()
    {
      var newLabel := NewConditionLabel(If, c);
      var children: seq<Tree> := [];
      children := InsertAt(children, 0, s.rep);
      CompoundWellFormed(newLabel, children);
      rep := Node(newLabel, children);
      s.CreateNewRep();
    }

    /** Takes this IF apart: returns its condition, puts its body in s and leaves this the empty BLOCK. */
    method DisassembleIf(s: Statement2) returns (c: Condition)
      requires s != this && Valid()
      requires Kind() == If
      modifies this, s
      ensures c == old(rep.root.condition)
      ensures s.rep == old(rep.children[0]) && s.Kind() == Block
      ensures rep == EmptyTree()
      ensures Valid() && s.Valid()
    {
      CompoundBodiesWellFormed(rep);
      var lbl := rep.root;
      var children := rep.children;
      // the children are drained as they are handed out: none is left behind
      s.rep := children[0];
      children := RemoveAt(children, 0);
      assert children == [];
      CreateNewRep();
      c := lbl.condition;
    }

    /** Makes this IF_ELSE c with bodies s1 and s2 in that order; both become the empty BLOCK. */
    method AssembleIfElse(c: Condition, s1: Statement2, s2: Statement2)
      requires s1 != this && s2 != this && s1 != s2
      requires s1.Valid() && s2.Valid()
      requires s1.Kind() == Block && s2.Kind() == Block
      modifies this, s1, s2
      ensures rep == Node(IfElseLabel(c), [old(s1.rep), old(s2.rep)]) && Kind() == IfElse
      ensures s1.rep == EmptyTree() && s2.rep == EmptyTree()
      ensures Valid() && s1.Valid() && s2.Valid()
    {
      var newLabel := NewConditionLabel(IfElse, c);
      var children: seq<Tree> := [];
      children := InsertAt(children, 0, s1.rep);
      children := InsertAt(children, 1, s2.rep);
      CompoundWellFormed(newLabel, children);
      rep := Node(newLabel, children);
      s1.CreateNewRep();
      s2.CreateNewRep();
    }

    /** Takes this IF_ELSE apart: returns its condition, puts its first body in s1 and its second in s2. */
    method DisassembleIfElse(s1: Statement2, s2: Statement2) returns (c: Condition)
      requires s1 != this && s2 != this && s1 != s2 && Valid()
      requires Kind() == IfElse
      modifies this, s1, s2
      ensures c == old(rep.root.condition)
      ensures s1.rep == old(rep.children[0]) && s1.Kind() == Block
      ensures s2.rep == old(rep.children[1]) && s2.Kind() == Block
      ensures rep == EmptyTree()
      ensures Valid() && s1.Valid() && s2.Valid()
    {
      CompoundBodiesWellFormed(rep);
      var lbl := rep.root;
      var children := rep.children;
      // the children are drained as they are handed out: none is left behind
      s1.rep := children[0];
      children := RemoveAt(children, 0);
      s2.rep := children[0];
      children := RemoveAt(children, 0);
      assert children == [];
      CreateNewRep();
      c := lbl.condition;
    }

    /** Makes this WHILE c with body s, discarding what this held; s becomes the empty BLOCK. */
    method AssembleWhile(c: Condition, s: Statement2)
      requires s != this && s.Valid()
      requires s.Kind() == Block
      modifies this, s
      ensures rep == Node(WhileLabel(c), [old(s.rep)]) && Kind() == While
      ensures s.rep == EmptyTree()
      ensures Valid() && s.Valid()
    {
      var newLabel := NewConditionLabel(While, c);
      var children: seq<Tree> := [];
      children := InsertAt(children, 0, s.rep);
      CompoundWellFormed(newLabel, children);
      rep := Node(newLabel, children);
      s.CreateNewRep();
    }

    /** Takes this WHILE apart: returns its condition, puts its body in s and leaves this the empty BLOCK. */
    method DisassembleWhile(s: Statement2) returns (c: Condition)
      requires s != this && Valid()
      requires Kind() == While
      modifies this, s
      ensures c == old(rep.root.condition)
      ensures s.rep == old(rep.children[0]) && s.Kind() == Block
      ensures rep == EmptyTree()
      ensures Valid() && s.Valid()
    {
      CompoundBodiesWellFormed(rep);
      var lbl := rep.root;
      var children := rep.children;
      // the children are drained as they are handed out: none is left behind
      s.rep := children[0];
      children := RemoveAt(children, 0);
      assert children == [];
      CreateNewRep();
      c := lbl.condition;
    }

    /** Makes this CALL inst with no children, discarding what this held. */
    method AssembleCall(inst: string)
      requires IsIdentifier(inst)
      modifies this
      ensures rep == Node(CallLabel(inst), []) && Kind() == Call
      ensures Valid()
    {
      var newLabel := NewCallLabel(Call, inst);
      var children: seq<Tree> := [];
      rep := Node(newLabel, children);
    }

    /** Takes this CALL apart: returns its instruction name and leaves this the empty BLOCK. */
    method DisassembleCall() returns (inst: string)
      requires Valid()
      requires Kind() == Call
      modifies this
      ensures inst == old(rep.root.instruction) && IsIdentifier(inst)
      ensures rep == EmptyTree() && Valid()
    {
      var lbl := rep.root;
      CreateNewRep();
      inst := lbl.instruction;
    }
  }
}
