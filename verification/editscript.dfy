/** The edit script the classifier reads, the collaborators it consults, and
    the pattern instances it emits. */
module EditScript {
  import opened Outcomes
  import opened Ast

  /** One edit operation. `node` is the operation's source node: the
      inserted element of an Insert, the removed one of a Delete, the old
      side of an Update or Move. `parent` of an Insert is the operation's
      own parent element; `newNode` of an Update or Move is its new side. */
  datatype Op =
    | Insert(node: Id, parent: Option<Id>)
    | Delete(node: Id)
    | Update(node: Id, newNode: Id)
    | Move(node: Id, newNode: Id)

  /** The tree-differencing collaborators, as total functions.
      - `toOld`: the old-tree counterpart of a new-tree element
        (`getLeftFromRightNodeMapped`, `getElementInOld`), if mapped;
      - `toNew`: the new-tree counterpart of an old-tree element
        (`getRightFromLeftNodeMapped`), if mapped;
      - `elements`: the element and its descendants in scan order
        (`getElements`);
      - `movedLeft`: `getTreeLeftMovedFromRight` of a call;
      - `callInLine`: `getIsInvocationInStatemnt` applied to the line of
        the first moved-left element and a call;
      - `movedInStatement`: `getIsMovedExpressionInStatemnt`. */
  datatype Oracles = Oracles(
    toOld: Id -> Option<Id>,
    toNew: Id -> Option<Id>,
    elements: Id -> seq<Id>,
    movedLeft: Id -> seq<Id>,
    callInLine: (Id, Id) -> bool,
    movedInStatement: (Id, Id) -> bool)

  /** One diff: both trees, the ordered edit script and the collaborators. */
  datatype Diff = Diff(arena: Arena, ops: seq<Op>, oracles: Oracles)

  /** An evidence tag, such as ("Change", "differentMethodName"). */
  datatype Prop = Prop(key: string, value: string)

  /** One registered instance: the pattern name, the index of the
      operation it is reported for, the suspicious elements and the
      evidence tags. */
  datatype Instance = Instance(pattern: string, op: nat, suspects: seq<Id>, evidence: seq<Prop>)

  const WrongVarRef := "wrongVarRef"
  const WrongMethodRef := "wrongMethodRef"
  const UnwrapMethod := "unwrapMethod"
  const WrapsMethod := "wrapsMethod"
  const ConstChange := "constChange"
  const WrapsIfElse := "wrapsIfElse"
  const UnwrapIfElse := "unwrapIfElse"
  const MissNullCheckN := "missNullCheckN"
  const MissNullCheckP := "missNullCheckP"

  const PatternNames := [WrongVarRef, WrongMethodRef, UnwrapMethod, WrapsMethod, ConstChange,
                         WrapsIfElse, UnwrapIfElse, MissNullCheckN, MissNullCheckP]

  /** The instances of one pattern, in emission order. */
  function OfPattern(out: seq<Instance>, pattern: string): (r: seq<Instance>)
    ensures |r| <= |out|
    ensures forall x | x in r :: x in out && x.pattern == pattern
    ensures forall x | x in out && x.pattern == pattern :: x in r
  {
    if |out| == 0 then []
    else (if out[0].pattern == pattern then [out[0]] else []) + OfPattern(out[1..], pattern)
  }

  /** The registry count of `pattern` after registering `out`. */
  function Count(out: seq<Instance>, pattern: string): nat {
    |OfPattern(out, pattern)|
  }

  lemma {:induction false} CountAppend(u: seq<Instance>, v: seq<Instance>, pattern: string)
    ensures Count(u + v, pattern) == Count(u, pattern) + Count(v, pattern)
  {
    if |u| > 0 {
      assert (u + v)[1..] == u[1..] + v;
      CountAppend(u[1..], v, pattern);
    } else {
      assert u + v == v;
    }
  }

  /** The index of the last operation satisfying `p`. */
  function LastOp(ops: seq<Op>, p: Op -> bool): (r: Option<nat>)
    ensures r.Some? ==> r.value < |ops| && p(ops[r.value])
    ensures r.Some? ==> forall j | r.value < j < |ops| :: !p(ops[j])
    ensures r.None? ==> forall j | 0 <= j < |ops| :: !p(ops[j])
  {
    if |ops| == 0 then None
    else if p(ops[|ops| - 1]) then Some(|ops| - 1)
    else LastOp(ops[..|ops| - 1], p)
  }

  /** The index of the first operation from `k` on satisfying `p`. */
  function FirstOp(ops: seq<Op>, p: Op -> bool, k: nat): (r: Option<nat>)
    ensures r.Some? ==> k <= r.value < |ops| && p(ops[r.value])
    ensures r.Some? ==> forall j | k <= j < r.value :: !p(ops[j])
    ensures r.None? ==> forall j | k <= j < |ops| :: !p(ops[j])
    decreases |ops| - k
  {
    if k >= |ops| then None
    else if p(ops[k]) then Some(k)
    else FirstOp(ops, p, k + 1)
  }
}
