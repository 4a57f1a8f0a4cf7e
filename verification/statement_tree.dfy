/**
 * The value-level model of a BL statement: its labels, the tree of labels that
 * represents it, the representation convention every statement keeps, and the
 * operations the kernel performs on the ordered children of one node.
 *
 * A statement object's representation is one value of type Tree; since Dafny
 * datatypes are values, no subtree can be reachable from two places, which is
 * the ownership guarantee the kernel keeps by hand.
 */
module StatementTree {

  /** The test of IF, IF_ELSE and WHILE; defined outside the kernel, which only stores and compares it. */
  type Condition(==)

  /** The kind of a statement node. */
  datatype Kind = Block | If | IfElse | While | Call

  /** A node label: a kind with exactly the payload that kind carries. */
  datatype Label =
    | BlockLabel
    | IfLabel(condition: Condition)
    | IfElseLabel(condition: Condition)
    | WhileLabel(condition: Condition)
    | CallLabel(instruction: string)

  function LabelKind(l: Label): Kind
  {
    match l
    case BlockLabel => Block
    case IfLabel(_) => If
    case IfElseLabel(_) => IfElse
    case WhileLabel(_) => While
    case CallLabel(_) => Call
  }

  predicate IsLetter(ch: char)
  {
    'a' <= ch <= 'z' || 'A' <= ch <= 'Z'
  }

  predicate IsDigit(ch: char)
  {
    '0' <= ch <= '9'
  }

  /** The BL identifier rule: a letter followed by letters, digits and hyphens. */
  predicate IsIdentifier(s: string)
  {
    |s| > 0 && IsLetter(s[0]) &&
    forall i :: 1 <= i < |s| ==> IsLetter(s[i]) || IsDigit(s[i]) || s[i] == '-'
  }

  /** The label constructor for BLOCK. */
  function NewBlockLabel(k: Kind): (l: Label)
    requires k == Block
    ensures LabelKind(l) == k
  {
    BlockLabel
  }

  /** The label constructor for IF, IF_ELSE and WHILE: the label stores the condition. */
  function NewConditionLabel(k: Kind, c: Condition): (l: Label)
    requires k == If || k == IfElse || k == While
    ensures LabelKind(l) == k
    ensures (l.IfLabel? || l.IfElseLabel? || l.WhileLabel?) && l.condition == c
  {
    match k
    case If => IfLabel(c)
    case IfElse => IfElseLabel(c)
    case While => WhileLabel(c)
  }

  /** The label constructor for CALL: the label stores the instruction name, which must be an identifier. */
  function NewCallLabel(k: Kind, i: string): (l: Label)
    requires k == Call && IsIdentifier(i)
    ensures LabelKind(l) == k && l.instruction == i
  {
    CallLabel(i)
  }

  /** A statement: a label and the ordered sequence of its child statements. */
  datatype Tree = Node(root: Label, children: seq<Tree>)

  predicate IsBlock(t: Tree)
  {
    LabelKind(t.root) == Block
  }

  /** The empty statement: a BLOCK with no children. */
  function EmptyTree(): (t: Tree)
    ensures IsBlock(t) && |t.children| == 0
    ensures WellFormed(t)
  {
    Node(BlockLabel, [])
  }

  /** The representation convention, restricted to one node and its direct children. */
  predicate ShapeOk(t: Tree)
  {
    match t.root
    case BlockLabel => forall i :: 0 <= i < |t.children| ==> !IsBlock(t.children[i])
    case IfLabel(_) => |t.children| == 1 && IsBlock(t.children[0])
    case IfElseLabel(_) => |t.children| == 2 && IsBlock(t.children[0]) && IsBlock(t.children[1])
    case WhileLabel(_) => |t.children| == 1 && IsBlock(t.children[0])
    case CallLabel(inst) => IsIdentifier(inst) && |t.children| == 0
  }

  /** The representation convention: every node of the tree has a valid shape. */
  predicate WellFormed(t: Tree)
    decreases t
  {
    ShapeOk(t) && forall i :: 0 <= i < |t.children| ==> WellFormed(t.children[i])
  }

  /*
   * Positional insertion and removal of one child, as the kernel does on the
   * children of a BLOCK.
   */

  function InsertAt(s: seq<Tree>, pos: nat, x: Tree): (r: seq<Tree>)
    requires pos <= |s|
    ensures |r| == |s| + 1 && r[pos] == x
    ensures forall i :: 0 <= i < pos ==> r[i] == s[i]
    ensures forall i :: pos < i < |r| ==> r[i] == s[i - 1]
  {
    s[..pos] + [x] + s[pos..]
  }

  function RemoveAt(s: seq<Tree>, pos: nat): (r: seq<Tree>)
    requires pos < |s|
    ensures |r| == |s| - 1
    ensures forall i :: 0 <= i < pos ==> r[i] == s[i]
    ensures forall i :: pos <= i < |r| ==> r[i] == s[i + 1]
  {
    s[..pos] + s[pos + 1..]
  }

  /** Removing at the position just inserted at gives back the inserted tree and the original sequence. */
  lemma RemoveAfterInsert(s: seq<Tree>, pos: nat, x: Tree)
    requires pos <= |s|
    ensures InsertAt(s, pos, x)[pos] == x
    ensures RemoveAt(InsertAt(s, pos, x), pos) == s
  {
  }

  /** Putting a removed tree back at its position restores the original sequence. */
  lemma InsertAfterRemove(s: seq<Tree>, pos: nat)
    requires pos < |s|
    ensures InsertAt(RemoveAt(s, pos), pos, s[pos]) == s
  {
  }

  /** Inserting a well-formed non-BLOCK statement into a well-formed BLOCK keeps it well formed. */
  lemma InsertKeepsBlockWellFormed(cs: seq<Tree>, pos: nat, x: Tree)
    requires WellFormed(Node(BlockLabel, cs))
    requires pos <= |cs| && WellFormed(x) && !IsBlock(x)
    ensures WellFormed(Node(BlockLabel, InsertAt(cs, pos, x)))
  {
  }

  /** Removing a child of a well-formed BLOCK leaves a well-formed BLOCK, and the child is a well-formed non-BLOCK statement. */
  lemma RemoveKeepsBlockWellFormed(cs: seq<Tree>, pos: nat)
    requires WellFormed(Node(BlockLabel, cs))
    requires pos < |cs|
    ensures WellFormed(Node(BlockLabel, RemoveAt(cs, pos)))
    ensures WellFormed(cs[pos]) && !IsBlock(cs[pos])
  {
  }

  /** A compound node built from a valid label and the right number of well-formed BLOCK bodies is well formed. */
  lemma CompoundWellFormed(l: Label, bodies: seq<Tree>)
    requires l.IfLabel? || l.IfElseLabel? || l.WhileLabel?
    requires |bodies| == if l.IfElseLabel? then 2 else 1
    requires forall i :: 0 <= i < |bodies| ==> WellFormed(bodies[i]) && IsBlock(bodies[i])
    ensures WellFormed(Node(l, bodies))
  {
  }

  /** Each body of a well-formed compound node is a well-formed BLOCK. */
  lemma CompoundBodiesWellFormed(t: Tree)
    requires WellFormed(t)
    requires t.root.IfLabel? || t.root.IfElseLabel? || t.root.WhileLabel?
    ensures |t.children| == (if t.root.IfElseLabel? then 2 else 1)
    ensures forall i :: 0 <= i < |t.children| ==> WellFormed(t.children[i]) && IsBlock(t.children[i])
  {
  }

  /*
   * Node counts: the kernel moves subtrees, it never copies or drops a node
   * that is not replaced by the empty statement.
   */

  /** The number of nodes in a sequence of trees, all their descendants included. */
  function ForestSize(ts: seq<Tree>): nat
    decreases ts
  {
    if ts == [] then 0 else 1 + ForestSize(ts[0].children) + ForestSize(ts[1..])
  }

  /** The number of nodes in a tree. */
  function Size(t: Tree): nat
  {
    1 + ForestSize(t.children)
  }

  lemma {:induction false} ForestSizeConcat(a: seq<Tree>, b: seq<Tree>)
    ensures ForestSize(a + b) == ForestSize(a) + ForestSize(b)
    decreases |a|
  {
    if a == [] {
      assert a + b == b;
    } else {
      assert (a + b)[0] == a[0];
      assert (a + b)[1..] == a[1..] + b;
      ForestSizeConcat(a[1..], b);
    }
  }

  lemma ForestSizeSingleton(x: Tree)
    ensures ForestSize([x]) == Size(x)
  {
  }

  /** Inserting a child adds exactly that child's nodes to the sequence. */
  lemma ForestSizeInsert(cs: seq<Tree>, pos: nat, x: Tree)
    requires pos <= |cs|
    ensures ForestSize(InsertAt(cs, pos, x)) == ForestSize(cs) + Size(x)
  {
    var front, back := cs[..pos], cs[pos..];
    assert InsertAt(cs, pos, x) == front + [x] + back;
    assert front + back == cs;
    ForestSizeConcat(front + [x], back);
    ForestSizeConcat(front, [x]);
    ForestSizeConcat(front, back);
    ForestSizeSingleton(x);
  }

  /** Removing a child takes exactly that child's nodes out of the sequence. */
  lemma ForestSizeRemove(cs: seq<Tree>, pos: nat)
    requires pos < |cs|
    ensures ForestSize(RemoveAt(cs, pos)) + Size(cs[pos]) == ForestSize(cs)
  {
    InsertAfterRemove(cs, pos);
    ForestSizeInsert(RemoveAt(cs, pos), pos, cs[pos]);
  }

  /*
   * Paths: the statements reachable from a root, one child index per step.
   */

  datatype Option<T> = None | Some(value: T)

  /** The subtree reached from t by following the child indices of path, if every index is in range. */
  function At(t: Tree, path: seq<nat>): Option<Tree>
    decreases |path|
  {
    if path == [] then Some(t)
    else if path[0] < |t.children| then At(t.children[path[0]], path[1..])
    else None
  }

  /** Every node reachable from the root has a valid shape: the convention stated node by node. */
  ghost predicate EveryNodeShaped(t: Tree)
  {
    forall path: seq<nat> :: At(t, path).Some? ==> ShapeOk(At(t, path).value)
  }

  /** Every statement reachable from a well-formed root is itself well formed. */
  lemma {:induction false} WellFormedAt(t: Tree, path: seq<nat>)
    requires WellFormed(t) && At(t, path).Some?
    ensures WellFormed(At(t, path).value)
    decreases |path|
  {
    if path != [] {
      WellFormedAt(t.children[path[0]], path[1..]);
    }
  }

  lemma {:induction false} EveryNodeShapedIsWellFormed(t: Tree)
    requires EveryNodeShaped(t)
    ensures WellFormed(t)
    decreases t
  {
    assert At(t, []) == Some(t);
    forall i | 0 <= i < |t.children|
      ensures WellFormed(t.children[i])
    {
      var c := t.children[i];
      forall p: seq<nat> | At(c, p).Some?
        ensures ShapeOk(At(c, p).value)
      {
        var q: seq<nat> := [i] + p;
        assert q[1..] == p;
        assert At(t, q) == At(c, p);
      }
      EveryNodeShapedIsWellFormed(c);
    }
  }

  /** The recursive convention and the node-by-node convention agree. */
  lemma WellFormedIffEveryNodeShaped(t: Tree)
    ensures WellFormed(t) <==> EveryNodeShaped(t)
  {
    if WellFormed(t) {
      forall path: seq<nat> | At(t, path).Some?
        ensures ShapeOk(At(t, path).value)
      {
        WellFormedAt(t, path);
      }
    }
    if EveryNodeShaped(t) {
      EveryNodeShapedIsWellFormed(t);
    }
  }

  /*
   * A run of insertions into a BLOCK, as a parser performs while reading a body.
   */

  /** One addToBlock call: a position and the statement inserted there. */
  datatype Insertion = Insertion(pos: nat, statement: Tree)

  /** Each insertion's position is in range for the block as it is at that point. */
  predicate InsertionsFit(n: nat, ins: seq<Insertion>)
  {
    forall k :: 0 <= k < |ins| ==> ins[k].pos <= n + k
  }

  /** The children of a block after the given insertions, applied in order. */
  function ApplyInsertions(cs: seq<Tree>, ins: seq<Insertion>): (r: seq<Tree>)
    requires InsertionsFit(|cs|, ins)
    ensures |r| == |cs| + |ins|
    decreases |ins|
  {
    if ins == [] then cs
    else
      var last := ins[|ins| - 1];
      InsertAt(ApplyInsertions(cs, ins[..|ins| - 1]), last.pos, last.statement)
  }

  /** A run of insertions of well-formed non-BLOCK statements keeps a block well formed. */
  lemma {:induction false} ApplyInsertionsWellFormed(cs: seq<Tree>, ins: seq<Insertion>)
    requires WellFormed(Node(BlockLabel, cs)) && InsertionsFit(|cs|, ins)
    requires forall k :: 0 <= k < |ins| ==> WellFormed(ins[k].statement) && !IsBlock(ins[k].statement)
    ensures WellFormed(Node(BlockLabel, ApplyInsertions(cs, ins)))
    decreases |ins|
  {
    if ins != [] {
      var front := ins[..|ins| - 1];
      var last := ins[|ins| - 1];
      ApplyInsertionsWellFormed(cs, front);
      InsertKeepsBlockWellFormed(ApplyInsertions(cs, front), last.pos, last.statement);
    }
  }
}
