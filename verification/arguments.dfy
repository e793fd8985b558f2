/** The argument analysis (`detectVarArgumentChange`): once a call `source`
    is found replaced by or updated into a call `destination`, the edit
    script is scanned again for changes confined to the two calls'
    arguments: wrapped and unwrapped arguments, conditional wrappers,
    constant changes, added null checks and changed argument references.

    "In the old arguments" means structurally contained in the old argument
    list AND a direct child of `source` (identity); "in the new arguments"
    likewise for the new list and `destination`. */
module Arguments {
  import opened Outcomes
  import opened Ast
  import opened EditScript
  import opened Names
  import opened Suppression
  import opened Verdicts

  /** The two argument lists and the two calls they belong to. */
  datatype CallSite = CallSite(oldArgs: seq<Id>, newArgs: seq<Id>, source: Id, destination: Id)

  /** The call site of `source` replaced by or updated into `destination`. */
  function Site(a: Arena, source: Id, destination: Id): CallSite {
    CallSite(Args(a, source), Args(a, destination), source, destination)
  }

  predicate InOld(a: Arena, cs: CallSite, x: Id) {
    InList(a, cs.oldArgs, x) && ChildOf(a, x, cs.source)
  }

  predicate InNew(a: Arena, cs: CallSite, x: Id) {
    InList(a, cs.newArgs, x) && ChildOf(a, x, cs.destination)
  }

  /** Every suspect of `x` is one of the old arguments. */
  predicate AnchoredInOld(a: Arena, cs: CallSite, x: Instance) {
    |x.suspects| > 0 && forall k | 0 <= k < |x.suspects| :: InOld(a, cs, x.suspects[k])
  }

  /** The pattern's name for the kind of wrapping call. */
  function CallLabel(k: Kind): string {
    if k.Invocation? then "Invocation" else "Constructor"
  }

  // ----- wrapped and unwrapped arguments (detectWrapsMethod) -----

  /** The operations from `j` on that delete an old variable read which
      is now an argument of the inserted call `c`; one WRAPS_METHOD each,
      reported for the insertion `k`. */
  function WrappedReads(d: Diff, cs: CallSite, k: nat, c: Id, j: nat): (r: seq<Instance>)
    ensures forall x | x in r :: && x.pattern == WrapsMethod && x.op == k && |x.suspects| == 1
                                 && InOld(d.arena, cs, x.suspects[0])
                                 && IsVariableRead(d.arena.KindOf(x.suspects[0]))
                                 && InList(d.arena, d.arena.Get(c).args, x.suspects[0])
    ensures forall m | j <= m < |d.ops| && d.ops[m].Delete? && IsVariableRead(d.arena.KindOf(d.ops[m].node))
                        && InOld(d.arena, cs, d.ops[m].node) && InList(d.arena, d.arena.Get(c).args, d.ops[m].node) ::
              exists x | x in r :: x.suspects == [d.ops[m].node]
    decreases |d.ops| - j
  {
    if j >= |d.ops| then []
    else
      var a := d.arena;
      var e := d.ops[j].node;
      var here := if d.ops[j].Delete? && IsVariableRead(a.KindOf(e)) && InOld(a, cs, e) && InList(a, a.Get(c).args, e)
                  then [Instance(WrapsMethod, k, [e], [Prop("Old", "VarRead"), Prop("New", CallLabel(a.KindOf(c)))])]
                  else [];
      here + WrappedReads(d, cs, k, c, j + 1)
  }

  /** The old counterpart of the moved argument sits under a call other
      than the old counterpart of the destination call. */
  predicate MovedFromOtherCall(d: Diff, cs: CallSite, eo: Id) {
    var p := d.arena.ParentOf(eo);
    p.Some? && IsCall(d.arena.KindOf(p.value)) && p != d.oracles.toOld(cs.destination)
  }

  /** A moved argument `e` of the inserted call `c` that is reported: the
      call's moved-left trees exist and the first lies in the call's line,
      `e` is an old argument, and its old counterpart is not under another
      call. */
  predicate MovedIn(d: Diff, cs: CallSite, c: Id, e: Id) {
    && d.arena.Get(e).flags.isMoved
    && |d.oracles.movedLeft(c)| > 0 && d.oracles.callInLine(d.oracles.movedLeft(c)[0], c)
    && InOld(d.arena, cs, e)
    && d.oracles.toOld(e).Some? && !MovedFromOtherCall(d, cs, d.oracles.toOld(e).value)
  }

  /** The moved arguments of the inserted call `c` from position `j` on.
      Without moved-left trees the scan returns at the first moved
      argument; an old argument whose old counterpart is missing fails. */
  function MovedArguments(d: Diff, cs: CallSite, k: nat, c: Id, j: nat): (r: Result<seq<Instance>>)
    ensures r.Ok? ==> forall x | x in r.value :: && x.pattern == WrapsMethod && x.op == k && |x.suspects| == 1
                                                && InOld(d.arena, cs, x.suspects[0])
                                                && d.arena.Get(x.suspects[0]).flags.isMoved
    ensures |d.oracles.movedLeft(c)| == 0 ==> r == Ok([])
    ensures r.Ok? ==> forall p | j <= p < |d.arena.Get(c).args| && MovedIn(d, cs, c, d.arena.Get(c).args[p]) ::
              Instance(WrapsMethod, k, [d.arena.Get(c).args[p]], [Prop("Old", "MovedExpression"), Prop("New", CallLabel(d.arena.KindOf(c)))])
                in r.value
    decreases |d.arena.Get(c).args| - j
  {
    var a := d.arena;
    var args := a.Get(c).args;
    if j >= |args| then Ok([])
    else
      var e := args[j];
      if !a.Get(e).flags.isMoved then MovedArguments(d, cs, k, c, j + 1)
      else
        var left := d.oracles.movedLeft(c);
        if |left| == 0 then Ok([])
        else if !(d.oracles.callInLine(left[0], c) && InOld(a, cs, e)) then MovedArguments(d, cs, k, c, j + 1)
        else
          var eo :- Deref(d.oracles.toOld(e));
          var here := if MovedFromOtherCall(d, cs, eo) then []
                      else [Instance(WrapsMethod, k, [e], [Prop("Old", "MovedExpression"), Prop("New", CallLabel(a.KindOf(c)))])];
          var rest :- MovedArguments(d, cs, k, c, j + 1);
          Ok(here + rest)
  }

  /** An inserted call among the new arguments reports each of its
      qualifying moved arguments as wrapped, whenever the scan completes. */
  lemma MovedArgumentReported(d: Diff, cs: CallSite, k: nat, p: nat)
    requires k < |d.ops| && d.ops[k].Insert?
    requires IsCall(d.arena.KindOf(d.ops[k].node)) && InNew(d.arena, cs, d.ops[k].node)
    requires var c := d.ops[k].node; p < |d.arena.Get(c).args| && MovedIn(d, cs, c, d.arena.Get(c).args[p])
    ensures var c := d.ops[k].node;
            WrapsMethodAt(d, cs, k).Ok? ==>
              Instance(WrapsMethod, k, [d.arena.Get(c).args[p]], [Prop("Old", "MovedExpression"), Prop("New", CallLabel(d.arena.KindOf(c)))])
                in WrapsMethodAt(d, cs, k).value
  {
  }

  /** An argument `e` of a deleted call, in statement `st`, moved out of the
      call into the new arguments. */
  predicate MovedOut(d: Diff, cs: CallSite, st: Id, e: Id) {
    && d.arena.Get(e).flags.isMoved && d.arena.Get(e).flags.movingSrc
    && d.oracles.movedInStatement(st, e) && InNew(d.arena, cs, e)
  }

  /** The positions from `j` on of the arguments of `c` that moved out. */
  function MovedOutPositions(d: Diff, cs: CallSite, c: Id, st: Id, j: nat): set<nat> {
    set p: nat | j <= p < |d.arena.Get(c).args| && MovedOut(d, cs, st, d.arena.Get(c).args[p])
  }

  /** The arguments of the deleted call `c` from position `j` on that moved
      out of it into the new arguments; one UNWRAP_METHOD each. */
  function UnwrappedArguments(d: Diff, cs: CallSite, k: nat, c: Id, st: Id, j: nat): (r: seq<Instance>)
    ensures forall x | x in r :: x == Instance(UnwrapMethod, k, [c], [])
    ensures |r| == |MovedOutPositions(d, cs, c, st, j)|
    ensures r != [] <==> exists p | j <= p < |d.arena.Get(c).args| :: MovedOut(d, cs, st, d.arena.Get(c).args[p])
    decreases |d.arena.Get(c).args| - j
  {
    var a := d.arena;
    var args := a.Get(c).args;
    if j >= |args| then
      assert MovedOutPositions(d, cs, c, st, j) == {};
      []
    else
      var e := args[j];
      var here := if MovedOut(d, cs, st, e) then {j} else {};
      assert MovedOutPositions(d, cs, c, st, j) == here + MovedOutPositions(d, cs, c, st, j + 1);
      assert here !! MovedOutPositions(d, cs, c, st, j + 1);
      (if MovedOut(d, cs, st, e) then [Instance(UnwrapMethod, k, [c], [])] else []) + UnwrappedArguments(d, cs, k, c, st, j + 1)
  }

  /** `detectWrapsMethod` for operation `k`: an inserted call among the new
      arguments wraps deleted variable reads and moved old arguments; a
      deleted call among the old arguments, in a statement that stays,
      unwraps its moved arguments. */
  function WrapsMethodAt(d: Diff, cs: CallSite, k: nat): (r: Result<seq<Instance>>)
    ensures r.Ok? ==> forall x | x in r.value ::
              x.op == k && (x.pattern == WrapsMethod || x.pattern == UnwrapMethod) && AnchoredInOld(d.arena, cs, x)
  {
    if k >= |d.ops| then Ok([])
    else
      var a := d.arena;
      var c := d.ops[k].node;
      if !IsCall(a.KindOf(c)) then Ok([])
      else match d.ops[k]
        case Insert(_, _) =>
          if !InNew(a, cs, c) then Ok([])
          else
            var moved :- MovedArguments(d, cs, k, c, 0);
            Ok(WrappedReads(d, cs, k, c, 0) + moved)
        case Delete(_) =>
          if !InOld(a, cs, c) then Ok([])
          else
            var st :- Deref(EnclosingStatement(a, c));
            if a.Get(st).flags.deleted then Ok([])
            else Ok(UnwrappedArguments(d, cs, k, c, st, 0))
        case _ => Ok([])
  }

  /** A deleted old call argument, in a statement that stays, with one of
      its arguments moved out into the new arguments, is reported as
      unwrapped. */
  lemma UnwrapReported(d: Diff, cs: CallSite, k: nat, st: Id, p: nat)
    requires k < |d.ops| && d.ops[k].Delete?
    requires IsCall(d.arena.KindOf(d.ops[k].node)) && InOld(d.arena, cs, d.ops[k].node)
    requires EnclosingStatement(d.arena, d.ops[k].node) == Some(st) && !d.arena.Get(st).flags.deleted
    requires var c := d.ops[k].node; p < |d.arena.Get(c).args| && MovedOut(d, cs, st, d.arena.Get(c).args[p])
    ensures WrapsMethodAt(d, cs, k).Ok?
    ensures Instance(UnwrapMethod, k, [d.ops[k].node], []) in WrapsMethodAt(d, cs, k).value
  {
    var r := UnwrappedArguments(d, cs, k, d.ops[k].node, st, 0);
    assert r != [] && r[0] in r;
  }

  // ----- conditional wrappers (detecfWrapIfChange) -----

  /** The verdict on one element `y` under the inserted or deleted node of
      operation `k`: a new conditional among the arguments, not new on both
      branches, inside a statement. An insertion reports WRAPS_IF_ELSE on
      the old counterpart of the branch that is not new; a deletion reports
      UNWRAP_IF_ELSE when the kept branch's new counterpart is a new
      argument. A missing statement or counterpart fails. */
  function ConditionalVerdict(d: Diff, cs: CallSite, k: nat, inserting: bool, y: Id): (r: Result<seq<Instance>>)
    ensures r.Ok? ==> |r.value| <= 1
    ensures r.Ok? ==> forall x | x in r.value ::
              && x.op == k
              && (if inserting then x.pattern == WrapsIfElse && |x.suspects| == 1 && InOld(d.arena, cs, x.suspects[0])
                  else x.pattern == UnwrapIfElse && InOld(d.arena, cs, y))
    ensures r.Ok? ==> forall x | x in r.value ::
              && d.arena.KindOf(y).Conditional?
              && var c := d.arena.KindOf(y);
                 var thenKept := !d.arena.Get(c.thenExpr).flags.isNew;
                 if inserting then d.oracles.toOld(if thenKept then c.thenExpr else c.elseExpr) == Some(x.suspects[0])
                 else x.suspects == (if thenKept then [c.elseExpr, c.condition] else [c.thenExpr, c.condition])
  {
    var a := d.arena;
    match a.KindOf(y)
    case Conditional(cond, th, el) =>
      if !(a.Get(y).flags.isNew && (InList(a, cs.oldArgs, y) || InList(a, cs.newArgs, y))) then Ok([])
      else if a.Get(th).flags.isNew && a.Get(el).flags.isNew then Ok([])
      else
        var st :- Deref(EnclosingStatement(a, y));
        if inserting then
          if a.Get(st).flags.isNew then Ok([])
          else
            var kept := if a.Get(th).flags.isNew then el else th;
            var susp :- Deref(d.oracles.toOld(kept));
            if InNew(a, cs, y) && InOld(a, cs, susp)
            then Ok([Instance(WrapsIfElse, k, [susp], [Prop("case", "elsenotnull")])])
            else Ok([])
        else
          if a.Get(st).flags.deleted then Ok([])
          else
            var kept := if !a.Get(th).flags.isNew then th else el;
            var susps := if !a.Get(th).flags.isNew then [el, cond] else [th, cond];
            var remaining :- Deref(d.oracles.toNew(kept));
            if InNew(a, cs, remaining) && InOld(a, cs, y)
            then Ok([Instance(UnwrapIfElse, k, susps, [])])
            else Ok([])
    case _ => Ok([])
  }

  function ConditionalsFrom(d: Diff, cs: CallSite, k: nat, inserting: bool, ys: seq<Id>, j: nat): (r: Result<seq<Instance>>)
    ensures r.Ok? ==> forall x | x in r.value ::
              && x.op == k
              && (if inserting then x.pattern == WrapsIfElse && AnchoredInOld(d.arena, cs, x) else x.pattern == UnwrapIfElse)
    decreases |ys| - j
  {
    if j >= |ys| then Ok([])
    else
      var here :- ConditionalVerdict(d, cs, k, inserting, ys[j]);
      var rest :- ConditionalsFrom(d, cs, k, inserting, ys, j + 1);
      Ok(here + rest)
  }

  /** `detecfWrapIfChange` for operation `k`: every element under an
      inserted or deleted node is examined. */
  function WrapIfAt(d: Diff, cs: CallSite, k: nat): (r: Result<seq<Instance>>)
    ensures r.Ok? ==> forall x | x in r.value ::
              x.op == k && ((x.pattern == WrapsIfElse && AnchoredInOld(d.arena, cs, x)) || x.pattern == UnwrapIfElse)
  {
    if k >= |d.ops| || !(d.ops[k].Insert? || d.ops[k].Delete?) then Ok([])
    else ConditionalsFrom(d, cs, k, d.ops[k].Insert?, d.oracles.elements(d.ops[k].node), 0)
  }

  /** A new conditional among the new arguments, in a statement that is
      not new, whose kept branch maps back to an old argument, wraps that
      argument. */
  lemma ConditionalWrapReported(d: Diff, cs: CallSite, k: nat, y: Id, o: Id)
    requires d.arena.KindOf(y).Conditional? && d.arena.Get(y).flags.isNew && InNew(d.arena, cs, y)
    requires var th := d.arena.KindOf(y).thenExpr; var el := d.arena.KindOf(y).elseExpr;
             && !(d.arena.Get(th).flags.isNew && d.arena.Get(el).flags.isNew)
             && d.oracles.toOld(if d.arena.Get(th).flags.isNew then el else th) == Some(o)
    requires InOld(d.arena, cs, o)
    requires EnclosingStatement(d.arena, y).Some? && !d.arena.Get(EnclosingStatement(d.arena, y).value).flags.isNew
    ensures ConditionalVerdict(d, cs, k, true, y) == Ok([Instance(WrapsIfElse, k, [o], [Prop("case", "elsenotnull")])])
  {
  }

  /** A new conditional that was an old argument, not new on both
      branches, in a statement that stays, whose kept branch maps to a new
      argument, is unwrapped: the other branch and the condition are
      blamed. */
  lemma ConditionalUnwrapReported(d: Diff, cs: CallSite, k: nat, y: Id, remaining: Id)
    requires d.arena.KindOf(y).Conditional? && d.arena.Get(y).flags.isNew && InOld(d.arena, cs, y)
    requires var c := d.arena.KindOf(y);
             && !(d.arena.Get(c.thenExpr).flags.isNew && d.arena.Get(c.elseExpr).flags.isNew)
             && d.oracles.toNew(if !d.arena.Get(c.thenExpr).flags.isNew then c.thenExpr else c.elseExpr) == Some(remaining)
    requires InNew(d.arena, cs, remaining)
    requires EnclosingStatement(d.arena, y).Some? && !d.arena.Get(EnclosingStatement(d.arena, y).value).flags.deleted
    ensures var c := d.arena.KindOf(y);
            ConditionalVerdict(d, cs, k, false, y)
              == Ok([Instance(UnwrapIfElse, k, if !d.arena.Get(c.thenExpr).flags.isNew then [c.elseExpr, c.condition] else [c.thenExpr, c.condition], [])])
  {
  }

  /** Every element examined from position `j` on contributes its verdict. */
  lemma {:induction false} ConditionalsFromContains(d: Diff, cs: CallSite, k: nat, inserting: bool, ys: seq<Id>, j: nat, m: nat, x: Instance)
    requires j <= m < |ys|
    requires ConditionalVerdict(d, cs, k, inserting, ys[m]).Ok? && x in ConditionalVerdict(d, cs, k, inserting, ys[m]).value
    ensures ConditionalsFrom(d, cs, k, inserting, ys, j).Ok? ==> x in ConditionalsFrom(d, cs, k, inserting, ys, j).value
    decreases m - j
  {
    if j < m && ConditionalsFrom(d, cs, k, inserting, ys, j).Ok? {
      ConditionalsFromContains(d, cs, k, inserting, ys, j + 1, m, x);
    }
  }

  /** An insertion whose elements include such a conditional reports the
      wrapped argument, unless another element makes the scan fail. */
  lemma WrapIfReported(d: Diff, cs: CallSite, k: nat, m: nat, o: Id)
    requires k < |d.ops| && d.ops[k].Insert?
    requires m < |d.oracles.elements(d.ops[k].node)|
    requires var y := d.oracles.elements(d.ops[k].node)[m];
             && d.arena.KindOf(y).Conditional? && d.arena.Get(y).flags.isNew && InNew(d.arena, cs, y)
             && var th := d.arena.KindOf(y).thenExpr; var el := d.arena.KindOf(y).elseExpr;
             && !(d.arena.Get(th).flags.isNew && d.arena.Get(el).flags.isNew)
             && d.oracles.toOld(if d.arena.Get(th).flags.isNew then el else th) == Some(o)
             && EnclosingStatement(d.arena, y).Some? && !d.arena.Get(EnclosingStatement(d.arena, y).value).flags.isNew
    requires InOld(d.arena, cs, o)
    ensures WrapIfAt(d, cs, k).Ok? ==> Instance(WrapsIfElse, k, [o], [Prop("case", "elsenotnull")]) in WrapIfAt(d, cs, k).value
  {
    var ys := d.oracles.elements(d.ops[k].node);
    var x := Instance(WrapsIfElse, k, [o], [Prop("case", "elsenotnull")]);
    ConditionalWrapReported(d, cs, k, ys[m], o);
    ConditionalsFromContains(d, cs, k, true, ys, 0, m, x);
  }

  /** An instance the argument analysis may report: a known pattern, for
      an operation of the script, whose suspects are old arguments (the
      suspects of an unwrapped conditional are its branches instead). */
  predicate ArgumentInstance(d: Diff, cs: CallSite, x: Instance) {
    && x.pattern in PatternNames
    && x.op < |d.ops|
    && (x.pattern == UnwrapIfElse || AnchoredInOld(d.arena, cs, x))
  }

  /** The wrap scans over operations `k ..`: for each operation, wrapped
      calls, then conditional wrappers; the first failure ends the scan. */
  function WrapsFrom(d: Diff, cs: CallSite, k: nat): (r: Result<seq<Instance>>)
    ensures r.Ok? ==> forall x | x in r.value :: k <= x.op && ArgumentInstance(d, cs, x)
    decreases |d.ops| - k
  {
    if k >= |d.ops| then Ok([])
    else
      var w :- WrapsMethodAt(d, cs, k);
      var c :- WrapIfAt(d, cs, k);
      var rest :- WrapsFrom(d, cs, k + 1);
      Ok(w + c + rest)
  }

  /** What the wrap scans find at operation `k` is among what they find
      from any earlier operation on. */
  lemma {:induction false} WrapsFromContains(d: Diff, cs: CallSite, k0: nat, k: nat, x: Instance)
    requires k0 <= k < |d.ops|
    requires WrapsFrom(d, cs, k0).Ok?
    ensures WrapsMethodAt(d, cs, k).Ok? && WrapIfAt(d, cs, k).Ok?
    ensures x in WrapsMethodAt(d, cs, k).value || x in WrapIfAt(d, cs, k).value ==> x in WrapsFrom(d, cs, k0).value
    decreases k - k0
  {
    if k0 < k {
      WrapsFromContains(d, cs, k0 + 1, k, x);
    }
  }

  // ----- constant changes (detectConstantChange) -----

  /** A replacement that makes a literal into a constant: a variable
      access, an array access, or a constant type access other than `this`. */
  predicate ConstantLike(k: Kind) {
    IsVariableAccess(k) || k.ArrayAccess? || (k.TypeAccess? && !k.isThisAccess && k.isConstant)
  }

  /** An insertion of a new argument that can replace a literal and has not
      served an earlier literal. */
  predicate FreshConstant(a: Arena, cs: CallSite, considered: seq<Id>, op: Op) {
    op.Insert? && InNew(a, cs, op.node) && ConstantLike(a.KindOf(op.node)) && !InList(a, considered, op.node)
  }

  /** The first insertion that can replace a literal and is still fresh. */
  function FirstFreshConstant(d: Diff, cs: CallSite, considered: seq<Id>): (r: Option<nat>)
    ensures r.Some? ==> r.value < |d.ops| && FreshConstant(d.arena, cs, considered, d.ops[r.value])
    ensures r.Some? ==> forall j | 0 <= j < r.value :: !FreshConstant(d.arena, cs, considered, d.ops[j])
    ensures r.None? ==> forall j | 0 <= j < |d.ops| :: !FreshConstant(d.arena, cs, considered, d.ops[j])
  {
    FirstOp(d.ops, (o: Op) => FreshConstant(d.arena, cs, considered, o), 0)
  }

  /** The node behind a "literal_by_varaccess" instance: the insertion's. */
  predicate ServedBy(d: Diff, x: Instance) {
    x.evidence == [Prop("type", "literal_by_varaccess")] && x.op < |d.ops|
  }

  /** The constant changes reported from operation `k` on, with
      `considered` the replacements already used. An updated old literal
      argument is a constant change; a deleted old literal argument is
      replaced by the first fresh constant-like insertion, which it uses up. */
  function ConstantsFrom(d: Diff, cs: CallSite, k: nat, considered: seq<Id>): (r: seq<Instance>)
    ensures forall x | x in r :: && x.pattern == ConstChange && |x.suspects| == 1 && x.op < |d.ops|
                                 && InOld(d.arena, cs, x.suspects[0]) && d.arena.KindOf(x.suspects[0]).Literal?
    ensures forall p | 0 <= p < |r| && ServedBy(d, r[p]) ::
              FreshConstant(d.arena, cs, considered, d.ops[r[p].op])
    ensures forall p, q | 0 <= p < q < |r| && ServedBy(d, r[p]) && ServedBy(d, r[q]) ::
              !SameShape(d.arena, d.ops[r[p].op].node, d.ops[r[q].op].node)
    decreases |d.ops| - k
  {
    if k >= |d.ops| then []
    else
      var a := d.arena;
      var op := d.ops[k];
      if op.Update? && InOld(a, cs, op.node) && ChildOf(a, op.newNode, cs.destination) && InList(a, cs.newArgs, op.newNode) then
        (if a.KindOf(op.node).Literal? then [Instance(ConstChange, k, [op.node], [Prop("type", "literal")])] else [])
          + ConstantsFrom(d, cs, k + 1, considered)
      else if op.Delete? && a.KindOf(op.node).Literal? && InOld(a, cs, op.node) then
        match FirstFreshConstant(d, cs, considered)
        case None => ConstantsFrom(d, cs, k + 1, considered)
        case Some(j) =>
          var served := d.ops[j].node;
          ServedHead(d, cs, considered, served, op.node, j, ConstantsFrom(d, cs, k + 1, considered + [served]))
      else ConstantsFrom(d, cs, k + 1, considered)
  }

  /** The instance for literal `lit` replaced by insertion `j`, in front of
      the later ones, which no longer see `served`. */
  function ServedHead(d: Diff, cs: CallSite, considered: seq<Id>, served: Id, lit: Id, j: nat, rest: seq<Instance>): (r: seq<Instance>)
    requires j < |d.ops| && d.ops[j].node == served && FreshConstant(d.arena, cs, considered, d.ops[j])
    requires InOld(d.arena, cs, lit) && d.arena.KindOf(lit).Literal?
    requires forall x | x in rest :: && x.pattern == ConstChange && |x.suspects| == 1 && x.op < |d.ops|
                                    && InOld(d.arena, cs, x.suspects[0]) && d.arena.KindOf(x.suspects[0]).Literal?
    requires forall p | 0 <= p < |rest| && ServedBy(d, rest[p]) ::
               FreshConstant(d.arena, cs, considered + [served], d.ops[rest[p].op])
    requires forall p, q | 0 <= p < q < |rest| && ServedBy(d, rest[p]) && ServedBy(d, rest[q]) ::
               !SameShape(d.arena, d.ops[rest[p].op].node, d.ops[rest[q].op].node)
    ensures |r| == |rest| + 1 && r[0] == Instance(ConstChange, j, [lit], [Prop("type", "literal_by_varaccess")]) && r[1..] == rest
    ensures forall x | x in r :: && x.pattern == ConstChange && |x.suspects| == 1 && x.op < |d.ops|
                                 && InOld(d.arena, cs, x.suspects[0]) && d.arena.KindOf(x.suspects[0]).Literal?
    ensures forall p | 0 <= p < |r| && ServedBy(d, r[p]) ::
              FreshConstant(d.arena, cs, considered, d.ops[r[p].op])
    ensures forall p, q | 0 <= p < q < |r| && ServedBy(d, r[p]) && ServedBy(d, r[q]) ::
              !SameShape(d.arena, d.ops[r[p].op].node, d.ops[r[q].op].node)
  {
    var a := d.arena;
    var r := [Instance(ConstChange, j, [lit], [Prop("type", "literal_by_varaccess")])] + rest;
    forall p | 0 <= p < |r| && ServedBy(d, r[p]) ensures FreshConstant(a, cs, considered, d.ops[r[p].op]) {
      if p > 0 {
        assert r[p] == rest[p - 1];
        FreshWithout(a, cs, considered, served, d.ops[r[p].op]);
      }
    }
    forall p, q | 0 <= p < q < |r| && ServedBy(d, r[p]) && ServedBy(d, r[q])
      ensures !SameShape(a, d.ops[r[p].op].node, d.ops[r[q].op].node)
    {
      assert r[q] == rest[q - 1];
      if p == 0 {
        var e := d.ops[r[q].op].node;
        assert ServedBy(d, rest[q - 1]);
        assert FreshConstant(a, cs, considered + [served], d.ops[rest[q - 1].op]);
        assert !InList(a, considered + [served], e);
        assert (considered + [served])[|considered|] == served;
      } else {
        assert r[p] == rest[p - 1];
      }
    }
    r
  }

  /** An updated old literal argument whose new side is a new argument is
      reported as a constant change for its operation, whatever came before
      it in the script. */
  lemma {:induction false} LiteralUpdateReported(d: Diff, cs: CallSite, k0: nat, considered: seq<Id>, k: nat)
    requires k0 <= k < |d.ops| && d.ops[k].Update?
    requires InOld(d.arena, cs, d.ops[k].node) && d.arena.KindOf(d.ops[k].node).Literal?
    requires InNew(d.arena, cs, d.ops[k].newNode)
    ensures Instance(ConstChange, k, [d.ops[k].node], [Prop("type", "literal")]) in ConstantsFrom(d, cs, k0, considered)
    decreases k - k0
  {
    var a := d.arena;
    var op := d.ops[k0];
    if k0 < k {
      if op.Update? && InOld(a, cs, op.node) && ChildOf(a, op.newNode, cs.destination) && InList(a, cs.newArgs, op.newNode) {
        LiteralUpdateReported(d, cs, k0 + 1, considered, k);
      } else if op.Delete? && a.KindOf(op.node).Literal? && InOld(a, cs, op.node) {
        match FirstFreshConstant(d, cs, considered)
        case None =>
          LiteralUpdateReported(d, cs, k0 + 1, considered, k);
        case Some(j) =>
          LiteralUpdateReported(d, cs, k0 + 1, considered + [d.ops[j].node], k);
      } else {
        LiteralUpdateReported(d, cs, k0 + 1, considered, k);
      }
    }
  }

  /** A deleted old literal argument, with some fresh constant-like
      insertion in the script, is reported first, as replaced by the
      earliest such insertion. */
  lemma DeletedLiteralReplaced(d: Diff, cs: CallSite, k: nat, considered: seq<Id>, j: nat)
    requires k < |d.ops| && d.ops[k].Delete?
    requires d.arena.KindOf(d.ops[k].node).Literal? && InOld(d.arena, cs, d.ops[k].node)
    requires j < |d.ops| && FreshConstant(d.arena, cs, considered, d.ops[j])
    ensures var r := ConstantsFrom(d, cs, k, considered);
            && r != []
            && r[0].pattern == ConstChange && r[0].suspects == [d.ops[k].node]
            && r[0].evidence == [Prop("type", "literal_by_varaccess")]
            && r[0].op <= j && FreshConstant(d.arena, cs, considered, d.ops[r[0].op])
            && forall j' | 0 <= j' < r[0].op :: !FreshConstant(d.arena, cs, considered, d.ops[j'])
  {
    var f := FirstFreshConstant(d, cs, considered);
    assert f.Some?;
  }

  /** Fresh with respect to a longer list is fresh with respect to a shorter one. */
  lemma FreshWithout(a: Arena, cs: CallSite, considered: seq<Id>, served: Id, op: Op)
    requires FreshConstant(a, cs, considered + [served], op)
    ensures FreshConstant(a, cs, considered, op)
  {
    forall m | 0 <= m < |considered| ensures !SameShape(a, considered[m], op.node) {
      assert (considered + [served])[m] == considered[m];
    }
  }

  // ----- null checks (detectNullCheckChange) -----

  /** The old counterpart of a conditional branch when the branch is not
      new and its counterpart is an old argument; nothing otherwise. */
  function BranchEvidence(d: Diff, cs: CallSite, e: Id): (r: seq<Id>)
    ensures |r| <= 1
    ensures forall k | 0 <= k < |r| :: InOld(d.arena, cs, r[k]) && d.oracles.toOld(e) == Some(r[k])
    ensures r != [] <==> !d.arena.Get(e).flags.isNew && d.oracles.toOld(e).Some? && InOld(d.arena, cs, d.oracles.toOld(e).value)
  {
    var eo := d.oracles.toOld(e);
    if !d.arena.Get(e).flags.isNew && eo.Some? && InOld(d.arena, cs, eo.value) then [eo.value] else []
  }

  /** The verdict on one element `b` under an inserted new argument: a new
      null check with a new condition that is the condition of a
      conditional, one of whose branches maps back to an old argument.
      An `==` check is a missing positive null check, any other a missing
      negative one. */
  function NullCheckVerdict(d: Diff, cs: CallSite, k: nat, b: Id): (r: seq<Instance>)
    ensures |r| <= 1
    ensures forall x | x in r ::
              && x.op == k && AnchoredInOld(d.arena, cs, x)
              && d.arena.KindOf(b).BinaryOperator?
              && (x.pattern == MissNullCheckP <==> d.arena.KindOf(b).op == Eq)
              && (x.pattern == MissNullCheckP || x.pattern == MissNullCheckN)
    ensures r != [] ==>
              && d.arena.KindOf(b).BinaryOperator?
              && d.arena.KindOf(b).isNullCheck && d.arena.KindOf(b).isNewOperator && d.arena.KindOf(b).hasNewCondition
              && d.arena.ParentOf(b).Some? && d.arena.KindOf(d.arena.ParentOf(b).value).Conditional?
    ensures r != [] <==>
              && d.arena.KindOf(b).BinaryOperator?
              && d.arena.KindOf(b).isNullCheck && d.arena.KindOf(b).isNewOperator && d.arena.KindOf(b).hasNewCondition
              && d.arena.ParentOf(b).Some? && d.arena.KindOf(d.arena.ParentOf(b).value).Conditional?
              && var c := d.arena.KindOf(d.arena.ParentOf(b).value);
                 BranchEvidence(d, cs, c.thenExpr) + BranchEvidence(d, cs, c.elseExpr) != []
    ensures r != [] ==>
              var c := d.arena.KindOf(d.arena.ParentOf(b).value);
              r[0].suspects == BranchEvidence(d, cs, c.thenExpr) + BranchEvidence(d, cs, c.elseExpr)
  {
    var a := d.arena;
    match a.KindOf(b)
    case BinaryOperator(op, isNullCheck, isNewOperator, hasNewCondition) =>
      if !(isNullCheck && isNewOperator && hasNewCondition) then []
      else
        (match a.ParentOf(b)
         case None => []
         case Some(p) =>
           (match a.KindOf(p)
            case Conditional(_, th, el) =>
              var susp := BranchEvidence(d, cs, th) + BranchEvidence(d, cs, el);
              if |susp| == 0 then []
              else [Instance(if op == Eq then MissNullCheckP else MissNullCheckN, k, susp, [])]
            case _ => []))
    case _ => []
  }

  function NullChecksUnder(d: Diff, cs: CallSite, k: nat, bs: seq<Id>, j: nat): (r: seq<Instance>)
    ensures forall x | x in r :: x.op == k && AnchoredInOld(d.arena, cs, x)
                                 && (x.pattern == MissNullCheckP || x.pattern == MissNullCheckN)
    decreases |bs| - j
  {
    if j >= |bs| then [] else NullCheckVerdict(d, cs, k, bs[j]) + NullChecksUnder(d, cs, k, bs, j + 1)
  }

  /** `detectNullCheckChange` for operation `k`: the elements under an
      inserted new argument that is not a method. */
  function NullChecksAt(d: Diff, cs: CallSite, k: nat): seq<Instance> {
    if k >= |d.ops| || !d.ops[k].Insert? then []
    else
      var x := d.ops[k].node;
      if d.arena.KindOf(x).Method? || !InNew(d.arena, cs, x) then []
      else NullChecksUnder(d, cs, k, d.oracles.elements(x), 0)
  }

  function NullChecksFrom(d: Diff, cs: CallSite, k: nat): (r: seq<Instance>)
    ensures forall x | x in r :: k <= x.op && ArgumentInstance(d, cs, x)
    decreases |d.ops| - k
  {
    if k >= |d.ops| then [] else NullChecksAt(d, cs, k) + NullChecksFrom(d, cs, k + 1)
  }

  /** A new null check conditioning a conditional whose then-branch maps
      back to an old argument reports that argument first. */
  lemma NullCheckReportsMappedThen(d: Diff, cs: CallSite, k: nat, b: Id, p: Id)
    requires d.arena.KindOf(b).BinaryOperator?
    requires d.arena.KindOf(b).isNullCheck && d.arena.KindOf(b).isNewOperator && d.arena.KindOf(b).hasNewCondition
    requires d.arena.ParentOf(b) == Some(p) && d.arena.KindOf(p).Conditional?
    requires var th := d.arena.KindOf(p).thenExpr;
             !d.arena.Get(th).flags.isNew && d.oracles.toOld(th).Some? && InOld(d.arena, cs, d.oracles.toOld(th).value)
    ensures |NullCheckVerdict(d, cs, k, b)| == 1
    ensures NullCheckVerdict(d, cs, k, b)[0].suspects[0] == d.oracles.toOld(d.arena.KindOf(p).thenExpr).value
  {
  }

  /** The same when the mapped branch is the else-branch and the
      then-branch is new: that argument is the only suspect. */
  lemma NullCheckReportsMappedElse(d: Diff, cs: CallSite, k: nat, b: Id, p: Id)
    requires d.arena.KindOf(b).BinaryOperator?
    requires d.arena.KindOf(b).isNullCheck && d.arena.KindOf(b).isNewOperator && d.arena.KindOf(b).hasNewCondition
    requires d.arena.ParentOf(b) == Some(p) && d.arena.KindOf(p).Conditional?
    requires d.arena.Get(d.arena.KindOf(p).thenExpr).flags.isNew
    requires var el := d.arena.KindOf(p).elseExpr;
             !d.arena.Get(el).flags.isNew && d.oracles.toOld(el).Some? && InOld(d.arena, cs, d.oracles.toOld(el).value)
    ensures |NullCheckVerdict(d, cs, k, b)| == 1
    ensures NullCheckVerdict(d, cs, k, b)[0].suspects == [d.oracles.toOld(d.arena.KindOf(p).elseExpr).value]
  {
  }

  // ----- changed argument references -----

  /** The insertion of a new argument not yet used as a replacement. */
  predicate FreshReplacement(a: Arena, cs: CallSite, considered: seq<Id>, op: Op) {
    op.Insert? && InNew(a, cs, op.node) && !InList(a, considered, op.node)
  }

  /** The first insertion of a new argument not yet used as a replacement:
      the scan breaks at it. */
  function FirstFreshReplacement(d: Diff, cs: CallSite, considered: seq<Id>): (r: Option<nat>)
    ensures r.Some? ==> r.value < |d.ops| && FreshReplacement(d.arena, cs, considered, d.ops[r.value])
    ensures r.Some? ==> forall j | 0 <= j < r.value :: !FreshReplacement(d.arena, cs, considered, d.ops[j])
    ensures r.None? ==> forall j | 0 <= j < |d.ops| :: !FreshReplacement(d.arena, cs, considered, d.ops[j])
  {
    FirstOp(d.ops, (o: Op) => FreshReplacement(d.arena, cs, considered, o), 0)
  }

  /** An insertion of a call among the new arguments. */
  predicate InsertsArgumentCall(a: Arena, cs: CallSite, o: Op) {
    o.Insert? && IsCall(a.KindOf(o.node)) && InNew(a, cs, o.node)
  }

  /** The last insertion of a call among the new arguments: the scan keeps
      overwriting the wrapped flag, so the last one decides, whatever the
      earlier ones said. */
  function WrappingArgument(d: Diff, cs: CallSite): (r: Option<nat>)
    ensures r.Some? ==> r.value < |d.ops| && InsertsArgumentCall(d.arena, cs, d.ops[r.value])
    ensures r.Some? ==> forall j | r.value < j < |d.ops| :: !InsertsArgumentCall(d.arena, cs, d.ops[j])
    ensures r.None? ==> forall j | 0 <= j < |d.ops| :: !InsertsArgumentCall(d.arena, cs, d.ops[j])
  {
    LastOp(d.ops, (o: Op) => InsertsArgumentCall(d.arena, cs, o))
  }

  /** Whether the deleted `n` was wrapped: it reappears among the arguments
      of the LAST call inserted among the new arguments. */
  function WrappedByNewArgument(d: Diff, cs: CallSite, n: Id): (r: bool)
    ensures r <==> exists j | 0 <= j < |d.ops| ::
                     && InsertsArgumentCall(d.arena, cs, d.ops[j])
                     && (forall j' | j < j' < |d.ops| :: !InsertsArgumentCall(d.arena, cs, d.ops[j']))
                     && VarWrapped(d.arena, n, d.ops[j].node)
  {
    match WrappingArgument(d, cs)
    case None => false
    case Some(j) => VarWrapped(d.arena, n, d.ops[j].node)
  }

  /** What one deleted or updated old argument at operation `k` amounts to,
      together with the replacements used so far. */
  datatype Step = Step(out: seq<Instance>, considered: seq<Id>)

  function ArgumentRefAt(d: Diff, cs: CallSite, k: nat, considered: seq<Id>): (r: Result<Step>)
    requires k < |d.ops|
    ensures r.Ok? ==> forall x | x in r.value.out :: x.op == k && AnchoredInOld(d.arena, cs, x)
    ensures r.Ok? ==> |r.value.considered| <= |considered| + 1
  {
    var a := d.arena;
    match d.ops[k]
    case Delete(n) =>
      if !(RefLike(a.KindOf(n)) && InOld(a, cs, n)) then Ok(Step([], considered))
      else
        var wrapped := WrappedByNewArgument(d, cs, n);
        var repl := FirstFreshReplacement(d, cs, considered);
        var considered' := if repl.Some? then considered + [d.ops[repl.value].node] else considered;
        if wrapped || repl.None? then Ok(Step([], considered'))
        else
          var r := d.ops[repl.value].node;
          if IsVariableAccess(a.KindOf(r)) && NewlyDeclared(d, r) then Ok(Step([], considered'))
          else if !ConsideredReplacement(a.KindOf(r)) then Ok(Step([], considered'))
          else
            var v :- ReplacementVerdictAsWritten(d, k, n, r);
            Ok(Step(v, considered'))
    case Update(s, t) =>
      if !(InOld(a, cs, s) && InNew(a, cs, t)) then Ok(Step([], considered))
      else if VarOrType(a.KindOf(s)) then Ok(Step(VarUpdateVerdict(d, k, s, t), considered))
      else if IsCall(a.KindOf(s)) && IsCall(a.KindOf(t)) then
        var o :- CallUpdateVerdict(d, k, s, t);
        Ok(Step(if o.Some? then [o.value] else [], considered))
      else Ok(Step([], considered))
    case _ => Ok(Step([], considered))
  }

  function ArgumentRefsFrom(d: Diff, cs: CallSite, k: nat, considered: seq<Id>): (r: Result<seq<Instance>>)
    ensures r.Ok? ==> forall x | x in r.value :: k <= x.op && ArgumentInstance(d, cs, x)
    decreases |d.ops| - k
  {
    if k >= |d.ops| then Ok([])
    else
      var step :- ArgumentRefAt(d, cs, k, considered);
      var rest :- ArgumentRefsFrom(d, cs, k + 1, step.considered);
      Ok(step.out + rest)
  }

  /** A deleted old variable argument, not wrapped by an inserted call,
      whose first fresh replacement is a variable or type access that was
      not freshly declared, is a wrong variable reference, and uses that
      replacement up. */
  lemma DeletedArgumentReplaced(d: Diff, cs: CallSite, k: nat, considered: seq<Id>, j: nat)
    requires k < |d.ops| && d.ops[k].Delete?
    requires IsVariableAccess(d.arena.KindOf(d.ops[k].node)) && InOld(d.arena, cs, d.ops[k].node)
    requires !WrappedByNewArgument(d, cs, d.ops[k].node)
    requires j < |d.ops| && FreshReplacement(d.arena, cs, considered, d.ops[j])
    requires forall j' | 0 <= j' < j :: !FreshReplacement(d.arena, cs, considered, d.ops[j'])
    requires var r := d.ops[j].node; VarOrType(d.arena.KindOf(r)) && ConsideredReplacement(d.arena.KindOf(r))
    requires var r := d.ops[j].node; !(IsVariableAccess(d.arena.KindOf(r)) && NewlyDeclared(d, r))
    ensures var n := d.ops[k].node; var r := d.ops[j].node;
            ArgumentRefAt(d, cs, k, considered)
              == Ok(Step([Instance(WrongVarRef, k, [n], ReplacementEvidence(d.arena, n, r))], considered + [r]))
  {
    assert FirstFreshReplacement(d, cs, considered) == Some(j);
  }

  /** A deleted argument that was wrapped reports nothing. */
  lemma WrappedArgumentNotReported(d: Diff, cs: CallSite, k: nat, considered: seq<Id>)
    requires k < |d.ops| && d.ops[k].Delete? && WrappedByNewArgument(d, cs, d.ops[k].node)
    ensures ArgumentRefAt(d, cs, k, considered).Ok? && ArgumentRefAt(d, cs, k, considered).value.out == []
  {
  }

  /** An updated old variable argument whose new side is a new variable
      access, with neither its declaration renamed nor the new variable
      freshly declared, is reported as a wrong variable reference, whatever
      came before it in the script. */
  lemma {:induction false} ArgumentRedirectReported(d: Diff, cs: CallSite, k0: nat, considered: seq<Id>, k: nat)
    requires k0 <= k < |d.ops| && d.ops[k].Update?
    requires var s := d.ops[k].node; var t := d.ops[k].newNode;
             && InOld(d.arena, cs, s) && InNew(d.arena, cs, t)
             && IsVariableAccess(d.arena.KindOf(s)) && IsVariableAccess(d.arena.KindOf(t))
             && !DeclarationUpdated(d, s, t) && !NewlyDeclared(d, t)
    ensures var s := d.ops[k].node;
            ArgumentRefsFrom(d, cs, k0, considered).Ok? ==>
              Instance(WrongVarRef, k, [s], [Prop("Change", "Update_" + KindName(d.arena.KindOf(s)))])
                in ArgumentRefsFrom(d, cs, k0, considered).value
    decreases k - k0
  {
    if ArgumentRefsFrom(d, cs, k0, considered).Ok? {
      var step := ArgumentRefAt(d, cs, k0, considered).value;
      if k0 < k {
        ArgumentRedirectReported(d, cs, k0 + 1, step.considered, k);
      } else {
        var s := d.ops[k].node;
        assert step.out == [Instance(WrongVarRef, k, [s], [Prop("Change", "Update_" + KindName(d.arena.KindOf(s)))])];
      }
    }
  }

  // ----- the whole analysis -----

  /** `detectVarArgumentChange(source, destination)`: the wrap scans over
      every operation, then constant changes, null checks and changed
      argument references, in that order. */
  function ArgumentChanges(d: Diff, cs: CallSite): (r: Result<seq<Instance>>)
    ensures r.Ok? ==> forall x | x in r.value :: ArgumentInstance(d, cs, x)
  {
    var wraps :- WrapsFrom(d, cs, 0);
    var refs :- ArgumentRefsFrom(d, cs, 0, []);
    var consts := ConstantsFrom(d, cs, 0, []);
    ConstantsAreArgumentInstances(d, cs, consts);
    Ok(wraps + consts + NullChecksFrom(d, cs, 0) + refs)
  }

  /** Whatever the wrap scans find at any operation is part of a
      successful analysis. */
  lemma WrapsReachArgumentChanges(d: Diff, cs: CallSite, k: nat, x: Instance)
    requires k < |d.ops| && ArgumentChanges(d, cs).Ok?
    ensures WrapsMethodAt(d, cs, k).Ok? && WrapIfAt(d, cs, k).Ok?
    ensures x in WrapsMethodAt(d, cs, k).value || x in WrapIfAt(d, cs, k).value ==> x in ArgumentChanges(d, cs).value
  {
    WrapsFromContains(d, cs, 0, k, x);
  }

  lemma ConstantsAreArgumentInstances(d: Diff, cs: CallSite, consts: seq<Instance>)
    requires forall x | x in consts :: && x.pattern == ConstChange && |x.suspects| == 1 && x.op < |d.ops|
                                       && InOld(d.arena, cs, x.suspects[0])
    ensures forall x | x in consts :: ArgumentInstance(d, cs, x)
  {
    assert ConstChange in PatternNames;
  }
}
