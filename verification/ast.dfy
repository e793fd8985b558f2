/** The unified syntax tree of the "before" and "after" program as an arena
    of nodes addressed by `Id`. Both versions live in the same arena; a
    node's parent is a plain id, never an owning reference. Identity of
    elements (`==` in the detector) is id equality; Spoon's structural
    `equals` (also used by `List.contains`) is equality of `shape`. */
module Ast {
  import opened Outcomes

  type Id = nat

  datatype BinOp = Eq | Ne | OtherOp

  /** The Spoon class of an element, with the attributes the detector reads
      from elements of that class and nowhere else. */
  /** The classes of variable read: a plain one, and the two subclasses
      whose simple class names differ from "VariableRead". */
  datatype ReadVariant = PlainRead | SuperAccess | AnnotationFieldAccess

  datatype Kind =
    | VariableRead(variant: ReadVariant)
    | VariableWrite
    | FieldRead
    | FieldWrite
      /** `printsAsThisCall`: the invocation is printed starting with "this(" */
    | Invocation(printsAsThisCall: bool)
      /** `anonymous`: an anonymous-class creation (`CtNewClass`), a
          constructor call whose simple class name is "NewClass" */
    | ConstructorCall(anonymous: bool)
    | Literal
      /** `isThisAccess` and `isConstant` are the verdicts of the
          `isThisAccess` / `isConstantTypeAccess` helpers */
    | TypeAccess(isThisAccess: bool, isConstant: bool)
    | ArrayAccess
    | Conditional(condition: Id, thenExpr: Id, elseExpr: Id)
      /** `isNullCheck`: selected by the null-check filter (a comparison with
          the null literal); `isNewOperator`, `hasNewCondition`: the verdicts
          of `isNewBinaryOperator` / `isNewConditionInBinaryOperator` */
    | BinaryOperator(op: BinOp, isNullCheck: bool, isNewOperator: bool, hasNewCondition: bool)
    | Parameter
    | LocalVariable
    | Field
    | Method
    | Constructor
      /** any other statement class (assignment, return, if, block, ...) */
    | OtherStatement(className: string)
      /** any other element class */
    | OtherElement(className: string)

  /** Diff metadata attached to an element by the tree differencing:
      "new", "isMoved", "movingSrc" and "delete". */
  datatype Flags = Flags(isNew: bool, isMoved: bool, movingSrc: bool, deleted: bool)

  /** One element.
      - `name`: the simple name the detector reads: the variable's for a
        variable access, the accessed type's for a type access, the
        executable's for an invocation, the declared one for a declaration;
      - `signature`: the executable's signature, for a call;
      - `args`: the arguments of a call, the parameters of a method or
        constructor;
      - `typeArgs`: the qualified names of a call's actual type arguments;
      - `typeName`: the qualified name of a parameter's declared type;
      - `target`: the receiver expression of a call, if any;
      - `shape`: a canonical form; two elements are structurally `equals`
        exactly when their shapes are equal. */
  datatype Node = Node(
    kind: Kind,
    parent: Option<Id>,
    name: string,
    signature: string,
    args: seq<Id>,
    typeArgs: seq<string>,
    typeName: string,
    target: Option<Id>,
    shape: string,
    flags: Flags)

  const Absent := Node(OtherElement(""), None, "", "", [], [], "", None, "", Flags(false, false, false, false))

  datatype Arena = Arena(nodes: seq<Node>) {

    /** The element with id `x`; ids outside the arena denote a bare,
        parentless element. */
    function Get(x: Id): Node {
      if x < |nodes| then nodes[x] else Absent
    }

    function KindOf(x: Id): Kind {
      Get(x).kind
    }

    function ParentOf(x: Id): Option<Id> {
      Get(x).parent
    }

    /** The parent relation is acyclic: ids are assigned so that every
        parent precedes its children. */
    predicate Valid() {
      forall x | 0 <= x < |nodes| :: nodes[x].parent.Some? ==> nodes[x].parent.value < x
    }
  }

  /** `x`'s parent is exactly `p` (the detector's `getParent() == p`). */
  predicate ChildOf(a: Arena, x: Id, p: Id) {
    a.ParentOf(x) == Some(p)
  }

  /** Structural equality (Spoon's `equals`). */
  predicate SameShape(a: Arena, x: Id, y: Id) {
    a.Get(x).shape == a.Get(y).shape
  }

  /** Structural membership (`List.contains`). */
  predicate InList(a: Arena, xs: seq<Id>, x: Id) {
    exists k | 0 <= k < |xs| :: SameShape(a, xs[k], x)
  }

  /** `List.contains` applied to a lookup that may be null: never true of null. */
  predicate InListOpt(a: Arena, xs: seq<Id>, x: Option<Id>) {
    x.Some? && InList(a, xs, x.value)
  }

  // ----- classes of elements -----

  /** `instanceof CtVariableAccess` */
  predicate IsVariableAccess(k: Kind) {
    k.VariableRead? || k.VariableWrite? || k.FieldRead? || k.FieldWrite?
  }

  /** `instanceof CtVariableRead` (a field read is a variable read) */
  predicate IsVariableRead(k: Kind) {
    k.VariableRead? || k.FieldRead?
  }

  /** `instanceof CtInvocation || instanceof CtConstructorCall` */
  predicate IsCall(k: Kind) {
    k.Invocation? || k.ConstructorCall?
  }

  /** `instanceof CtStatement`: calls and local variable declarations are
      statements too. */
  predicate IsStatement(k: Kind) {
    IsCall(k) || k.LocalVariable? || k.OtherStatement?
  }

  /** `instanceof CtParameter || CtLocalVariable || CtField` */
  predicate IsDeclaration(k: Kind) {
    k.Parameter? || k.LocalVariable? || k.Field?
  }

  predicate IsMethod(k: Kind) {
    k.Method?
  }

  predicate IsConstructor(k: Kind) {
    k.Constructor?
  }

  /** The element's class name with "Ct" and "Impl" removed, as it appears
      in evidence ("Removed_VariableRead", "Update_FieldRead", ...). */
  function KindName(k: Kind): string {
    match k
    case VariableRead(PlainRead) => "VariableRead"
    case VariableRead(SuperAccess) => "SuperAccess"
    case VariableRead(AnnotationFieldAccess) => "AnnotationFieldAccess"
    case VariableWrite => "VariableWrite"
    case FieldRead => "FieldRead"
    case FieldWrite => "FieldWrite"
    case Invocation(_) => "Invocation"
    case ConstructorCall(anonymous) => if anonymous then "NewClass" else "ConstructorCall"
    case Literal => "Literal"
    case TypeAccess(_, _) => "TypeAccess"
    case ArrayAccess => "ArrayAccess"
    case Conditional(_, _, _) => "Conditional"
    case BinaryOperator(_, _, _, _) => "BinaryOperator"
    case Parameter => "Parameter"
    case LocalVariable => "LocalVariable"
    case Field => "Field"
    case Method => "Method"
    case Constructor => "Constructor"
    case OtherStatement(c) => c
    case OtherElement(c) => c
  }

  // ----- ancestor walks -----

  /** The ancestor chain of `x`, starting at `x` itself. A parent link that
      does not point to a smaller id ends the chain (it never does in a
      `Valid` arena). */
  function Ancestry(a: Arena, x: Id): (c: seq<Id>)
    decreases x
  {
    [x] + match a.ParentOf(x)
          case Some(q) => if q < x then Ancestry(a, q) else []
          case None => []
  }

  /** The first element on the walk up from `x` (inclusive) whose class
      satisfies `p`: `getVarDeclaration`'s loop. */
  function FirstFrom(a: Arena, x: Id, p: Kind -> bool): Option<Id>
    decreases x
  {
    if p(a.KindOf(x)) then Some(x)
    else match a.ParentOf(x)
         case Some(q) => if q < x then FirstFrom(a, q, p) else None
         case None => None
  }

  /** The nearest proper ancestor whose class satisfies `p`: Spoon's
      `getParent(Class)`. */
  function Enclosing(a: Arena, x: Id, p: Kind -> bool): Option<Id> {
    match a.ParentOf(x)
    case Some(q) => if q < x then FirstFrom(a, q, p) else None
    case None => None
  }

  function EnclosingStatement(a: Arena, x: Id): Option<Id> {
    Enclosing(a, x, IsStatement)
  }

  function EnclosingMethod(a: Arena, x: Id): Option<Id> {
    Enclosing(a, x, IsMethod)
  }

  function EnclosingConstructor(a: Arena, x: Id): Option<Id> {
    Enclosing(a, x, IsConstructor)
  }

  /** `getVarDeclaration`: the nearest parameter, local variable or field
      declaration on the walk up from `x`, `x` included. */
  function VarDeclaration(a: Arena, x: Id): Option<Id> {
    FirstFrom(a, x, IsDeclaration)
  }

  /** The index of the first element of `c` whose class satisfies `p`. */
  ghost predicate FirstMatchAt(a: Arena, c: seq<Id>, p: Kind -> bool, k: nat) {
    && k < |c|
    && p(a.KindOf(c[k]))
    && forall j | 0 <= j < k :: !p(a.KindOf(c[j]))
  }

  /** The walk returns the first element of the ancestor chain whose class
      satisfies `p`, and nothing when no element of the chain does. */
  lemma {:induction false} FirstFromIsFirstOnChain(a: Arena, x: Id, p: Kind -> bool)
    ensures FirstFrom(a, x, p).Some? ==>
              exists k: nat :: FirstMatchAt(a, Ancestry(a, x), p, k) && Ancestry(a, x)[k] == FirstFrom(a, x, p).value
    ensures FirstFrom(a, x, p).None? ==>
              forall j | 0 <= j < |Ancestry(a, x)| :: !p(a.KindOf(Ancestry(a, x)[j]))
    decreases x
  {
    var c := Ancestry(a, x);
    if p(a.KindOf(x)) {
      assert FirstMatchAt(a, c, p, 0);
    } else {
      match a.ParentOf(x)
      case Some(q) =>
        if q < x {
          FirstFromIsFirstOnChain(a, q, p);
          var c' := Ancestry(a, q);
          assert c == [x] + c';
          if FirstFrom(a, q, p).Some? {
            var k: nat :| FirstMatchAt(a, c', p, k) && c'[k] == FirstFrom(a, q, p).value;
            assert FirstMatchAt(a, c, p, k + 1);
          }
        }
      case None =>
    }
  }

  /** In a `Valid` arena the chain follows every parent link up to a root:
      each element after the first is the parent of the one before it, and
      the last one has no parent. */
  lemma {:induction false} AncestryFollowsParents(a: Arena, x: Id)
    requires a.Valid()
    ensures forall j | 0 <= j < |Ancestry(a, x)| - 1 :: a.ParentOf(Ancestry(a, x)[j]) == Some(Ancestry(a, x)[j + 1])
    ensures a.ParentOf(Ancestry(a, x)[|Ancestry(a, x)| - 1]).None?
    decreases x
  {
    match a.ParentOf(x)
    case Some(q) =>
      assert x < |a.nodes|;
      assert q < x;
      AncestryFollowsParents(a, q);
      assert Ancestry(a, x) == [x] + Ancestry(a, q);
    case None =>
  }
}
