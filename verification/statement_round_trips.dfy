/**
 * Clients of the Statement2 kernel that put operations and their inverses
 * together. Each is proved from the kernel's contracts alone, as a caller
 * such as a parser or a program transformer would see them.
 */
module StatementRoundTrips {
  import opened StatementTree
  import opened StatementKernel

  /** addToBlock(pos, x) then removeFromBlock(pos) returns x's old value and restores the block. */
  method AddThenRemove(b: Statement2, pos: int, x: Statement2) returns (y: Statement2)
    requires b.Valid() && x.Valid()
    requires b.Kind() == Block && 0 <= pos <= b.LengthOfBlock() && x.Kind() != Block
    modifies b, x
    ensures fresh(y) && y.rep == old(x.rep)
    ensures b.rep == old(b.rep) && x.rep == EmptyTree()
  {
    b.AddToBlock(pos, x);
    y := b.RemoveFromBlock(pos);
    RemoveAfterInsert(old(b.rep.children), pos, old(x.rep));
  }

  /** removeFromBlock(pos) then addToBlock(pos, ·) of the removed statement restores the block. */
  method RemoveThenAdd(b: Statement2, pos: int)
    requires b.Valid()
    requires b.Kind() == Block && 0 <= pos < b.LengthOfBlock()
    modifies b
    ensures b.rep == old(b.rep)
  {
    var y := b.RemoveFromBlock(pos);
    b.AddToBlock(pos, y);
    InsertAfterRemove(old(b.rep.children), pos);
  }

  /** assembleIf then disassembleIf gives back the condition and the body. */
  method IfRoundTrip(st: Statement2, c: Condition, body: Statement2) returns (c': Condition)
    requires st != body && body.Valid() && body.Kind() == Block
    modifies st, body
    ensures c' == c && body.rep == old(body.rep) && st.rep == EmptyTree()
  {
    st.AssembleIf(c, body);
    c' := st.DisassembleIf(body);
  }

  /** disassembleIf then assembleIf of the parts rebuilds the IF statement. */
  method IfRebuild(st: Statement2, body: Statement2)
    requires st != body && st.Valid() && st.Kind() == If
    modifies st, body
    ensures st.rep == old(st.rep) && body.rep == EmptyTree()
  {
    var c := st.DisassembleIf(body);
    st.AssembleIf(c, body);
  }

  /** assembleIfElse then disassembleIfElse gives back the condition and both bodies, in order. */
  method IfElseRoundTrip(st: Statement2, c: Condition, thenBody: Statement2, elseBody: Statement2)
    returns (c': Condition)
    requires st != thenBody && st != elseBody && thenBody != elseBody
    requires thenBody.Valid() && elseBody.Valid()
    requires thenBody.Kind() == Block && elseBody.Kind() == Block
    modifies st, thenBody, elseBody
    ensures c' == c && thenBody.rep == old(thenBody.rep) && elseBody.rep == old(elseBody.rep)
    ensures st.rep == EmptyTree()
  {
    st.AssembleIfElse(c, thenBody, elseBody);
    c' := st.DisassembleIfElse(thenBody, elseBody);
  }

  /** disassembleIfElse then assembleIfElse of the parts rebuilds the IF_ELSE statement. */
  method IfElseRebuild(st: Statement2, thenBody: Statement2, elseBody: Statement2)
    requires st != thenBody && st != elseBody && thenBody != elseBody
    requires st.Valid() && st.Kind() == IfElse
    modifies st, thenBody, elseBody
    ensures st.rep == old(st.rep)
    ensures thenBody.rep == EmptyTree() && elseBody.rep == EmptyTree()
  {
    var c := st.DisassembleIfElse(thenBody, elseBody);
    st.AssembleIfElse(c, thenBody, elseBody);
  }

  /** assembleWhile then disassembleWhile gives back the condition and the body. */
  method WhileRoundTrip(st: Statement2, c: Condition, body: Statement2) returns (c': Condition)
    requires st != body && body.Valid() && body.Kind() == Block
    modifies st, body
    ensures c' == c && body.rep == old(body.rep) && st.rep == EmptyTree()
  {
    st.AssembleWhile(c, body);
    c' := st.DisassembleWhile(body);
  }

  /** disassembleWhile then assembleWhile of the parts rebuilds the WHILE statement. */
  method WhileRebuild(st: Statement2, body: Statement2)
    requires st != body && st.Valid() && st.Kind() == While
    modifies st, body
    ensures st.rep == old(st.rep) && body.rep == EmptyTree()
  {
    var c := st.DisassembleWhile(body);
    st.AssembleWhile(c, body);
  }

  /** assembleCall then disassembleCall gives back the instruction name. */
  method CallRoundTrip(st: Statement2, inst: string) returns (inst': string)
    requires IsIdentifier(inst)
    modifies st
    ensures inst' == inst && st.rep == EmptyTree()
  {
    st.AssembleCall(inst);
    inst' := st.DisassembleCall();
  }

  /**
   * A body holding one call to foo, wrapped in a WHILE and taken apart again.
   * Adding the call to the body leaves the call statement the empty BLOCK; the
   * loop gives back its condition and a body of length one whose only
   * statement is the call to foo.
   */
  method WhileOfOneCall(cond: Condition)
    returns (callKind: Kind, callLen: nat, bodyLen: nat, k: Kind, back: Condition, len: nat, name: string)
    ensures callKind == Block && callLen == 0 && bodyLen == 1
    ensures k == While && back == cond && len == 1 && name == "foo"
  {
    var body := new Statement2();
    var call := new Statement2();
    assert IsIdentifier("foo");
    call.AssembleCall("foo");
    body.AddToBlock(0, call);
    callKind := call.Kind();
    callLen := call.LengthOfBlock();
    bodyLen := body.LengthOfBlock();
    var w := new Statement2();
    w.AssembleWhile(cond, body);
    k := w.Kind();
    var out := new Statement2();
    back := w.DisassembleWhile(out);
    len := out.LengthOfBlock();
    var first := out.RemoveFromBlock(0);
    name := first.DisassembleCall();
  }
}
