/** The verdicts shared by the top-level scan and the argument analysis:
    what a deleted reference and its replacement amount to, what an updated
    variable access amounts to, and what an updated call amounts to. */
module Verdicts {
  import opened Outcomes
  import opened Ast
  import opened EditScript
  import opened Names
  import opened Suppression

  /** The element classes the delete scans look at: variable accesses,
      calls and type accesses. */
  predicate RefLike(k: Kind) {
    IsVariableAccess(k) || IsCall(k) || k.TypeAccess?
  }

  /** `instanceof CtVariableAccess || instanceof CtTypeAccess` */
  predicate VarOrType(k: Kind) {
    IsVariableAccess(k) || k.TypeAccess?
  }

  /** The replacement classes a deleted reference is judged against
      (`whetherConsiderInitial`). The code compares simple class names, so
      the subclasses named otherwise (a super access, an annotation field
      access, an anonymous-class creation) are not among them. */
  predicate ConsideredReplacement(k: Kind) {
    || k.Invocation? || (k.VariableRead? && k.variant.PlainRead?) || k.FieldRead?
    || (k.ConstructorCall? && !k.anonymous)
    || k.Literal? || k.FieldWrite? || k.VariableWrite? || k.TypeAccess?
  }

  /** The simple class names the code accepts as a replacement. */
  const ConsideredClassNames: seq<string> :=
    ["Invocation", "VariableRead", "FieldRead", "ConstructorCall", "Literal", "FieldWrite", "VariableWrite", "TypeAccess"]

  /** Deciding by class is deciding by simple class name, for every class
      the model names itself. */
  lemma ConsideredIffNamed(k: Kind)
    requires !k.OtherElement? && !k.OtherStatement?
    ensures ConsideredReplacement(k) <==> KindName(k) in ConsideredClassNames
  {
  }

  /** An invocation printed as an explicit constructor call "this(...)". */
  predicate PrintsAsThisCall(k: Kind) {
    k.Invocation? && k.printsAsThisCall
  }

  /** The evidence of a reference replaced by another class of element. */
  function ReplacementEvidence(a: Arena, n: Id, r: Id): seq<Prop> {
    [Prop("Old", "Removed_" + KindName(a.KindOf(n))), Prop("New", "Added_" + KindName(a.KindOf(r)))]
  }

  /** "differentMethodName" when the callee names differ, else
      "SameNamedifferentArgument". */
  function ChangeTag(oldName: string, newName: string): Prop {
    Prop("Change", if oldName != newName then "differentMethodName" else "SameNamedifferentArgument")
  }

  /** Both elements are calls of the same class. */
  predicate SameCallClass(kn: Kind, kr: Kind) {
    (kn.Invocation? && kr.Invocation?) || (kn.ConstructorCall? && kr.ConstructorCall?)
  }

  /** The verdict on the deleted reference `n` replaced by `r`, reported for
      operation `i`, as the code is written. A call replaced by a call of
      the same class, callee name and arity is not a wrong reference; a call
      replaced by another call of its class is a wrong method reference
      tagged by whether the names differ; an invocation replaced by anything
      else is a wrong method reference with the old and new classes as
      evidence; any other reference is a wrong variable reference. For a
      constructor call the replacement is cast to a constructor call before
      its class is checked, so any other replacement fails on the cast. */
  function ReplacementVerdictAsWritten(d: Diff, i: nat, n: Id, r: Id): (v: Result<seq<Instance>>)
    ensures v.Ok? ==> |v.value| <= 1
    ensures v.Ok? ==> forall x | x in v.value ::
              && x.op == i && x.suspects == [n]
              && x.pattern == (if IsCall(d.arena.KindOf(n)) then WrongMethodRef else WrongVarRef)
    ensures v.Crash? ==> d.arena.KindOf(n).ConstructorCall? && (v.fault == ClassCast || v.fault == IndexOutOfBounds)
    ensures v == Crash(ClassCast) ==> !d.arena.KindOf(r).ConstructorCall?
  {
    var a := d.arena;
    var kn := a.KindOf(n);
    var kr := a.KindOf(r);
    if kn.Invocation? then
      if !kr.Invocation? then Ok([Instance(WrongMethodRef, i, [n], ReplacementEvidence(a, n, r))])
      else if a.Get(n).name == a.Get(r).name && |a.Get(n).args| == |a.Get(r).args| then Ok([])
      else Ok([Instance(WrongMethodRef, i, [n], [ChangeTag(a.Get(n).name, a.Get(r).name)])])
    else if kn.ConstructorCall? then
      var oldName :- ConstructorName(a.Get(n).signature);
      if !kr.ConstructorCall? then Crash(ClassCast)
      else
        var newName :- ConstructorName(a.Get(r).signature);
        if oldName == newName && |a.Get(n).args| == |a.Get(r).args| then Ok([])
        else Ok([Instance(WrongMethodRef, i, [n], [ChangeTag(oldName, newName)])])
    else Ok([Instance(WrongVarRef, i, [n], ReplacementEvidence(a, n, r))])
  }

  /** As written, a constructor call replaced by anything but a constructor
      call is a failed cast once its own name could be read: the branch
      meant to report it is never reached. */
  lemma ConstructorReplacedByOtherClassFails(d: Diff, i: nat, n: Id, r: Id)
    requires d.arena.KindOf(n).ConstructorCall? && !d.arena.KindOf(r).ConstructorCall?
    requires ConstructorName(d.arena.Get(n).signature).Ok?
    ensures ReplacementVerdictAsWritten(d, i, n, r) == Crash(ClassCast)
  {
  }

  /** The concrete case: `new a.b.C(int)` deleted and a variable read
      inserted in its place. */
  lemma ConstructorReplacedByVariableFails(d: Diff, i: nat, n: Id, r: Id)
    requires d.arena.KindOf(n).ConstructorCall? && d.arena.Get(n).signature == "a.b.C(int)"
    requires d.arena.KindOf(r).VariableRead?
    ensures ReplacementVerdictAsWritten(d, i, n, r) == Crash(ClassCast)
  {
    ConstructorNameExamples();
  }

  /** The verdict on the deleted reference `n` replaced by `r`, reported for
      operation `i`, as evidently intended: like the code as written, except
      that a constructor call replaced by an element of another class is a
      wrong method reference with the two classes as evidence, as for an
      invocation. Only reading a constructor name can fail. */
  function ReplacementVerdict(d: Diff, i: nat, n: Id, r: Id): (v: Result<seq<Instance>>)
    ensures v.Ok? ==> |v.value| <= 1
    ensures v.Ok? ==> forall x | x in v.value ::
              && x.op == i && x.suspects == [n]
              && x.pattern == (if IsCall(d.arena.KindOf(n)) then WrongMethodRef else WrongVarRef)
    ensures v.Crash? ==> d.arena.KindOf(n).ConstructorCall? && v.fault == IndexOutOfBounds
  {
    var a := d.arena;
    var kn := a.KindOf(n);
    var kr := a.KindOf(r);
    if kn.Invocation? then
      if !kr.Invocation? then Ok([Instance(WrongMethodRef, i, [n], ReplacementEvidence(a, n, r))])
      else if a.Get(n).name == a.Get(r).name && |a.Get(n).args| == |a.Get(r).args| then Ok([])
      else Ok([Instance(WrongMethodRef, i, [n], [ChangeTag(a.Get(n).name, a.Get(r).name)])])
    else if kn.ConstructorCall? then
      var oldName :- ConstructorName(a.Get(n).signature);
      if !kr.ConstructorCall? then Ok([Instance(WrongMethodRef, i, [n], ReplacementEvidence(a, n, r))])
      else
        var newName :- ConstructorName(a.Get(r).signature);
        if oldName == newName && |a.Get(n).args| == |a.Get(r).args| then Ok([])
        else Ok([Instance(WrongMethodRef, i, [n], [ChangeTag(oldName, newName)])])
    else Ok([Instance(WrongVarRef, i, [n], ReplacementEvidence(a, n, r))])
  }

  /** The corrected verdict reports a constructor call replaced by another
      class of element, with both classes as evidence; an anonymous-class
      creation is named "NewClass" there. */
  lemma ConstructorReplacedByOtherClassReported(d: Diff, i: nat, n: Id, r: Id)
    requires d.arena.KindOf(n).ConstructorCall? && !d.arena.KindOf(r).ConstructorCall?
    requires ConstructorName(d.arena.Get(n).signature).Ok?
    ensures var removed := if d.arena.KindOf(n).anonymous then "Removed_NewClass" else "Removed_ConstructorCall";
            ReplacementVerdict(d, i, n, r) ==
              Ok([Instance(WrongMethodRef, i, [n], [Prop("Old", removed), Prop("New", "Added_" + KindName(d.arena.KindOf(r)))])])
  {
    var a := d.arena;
    if a.KindOf(n).anonymous {
      assert "Removed_" + "NewClass" == "Removed_NewClass";
    } else {
      assert "Removed_" + "ConstructorCall" == "Removed_ConstructorCall";
    }
  }

  /** The correction changes nothing but that one case. */
  lemma CorrectionOnlyForConstructorReplacedByOtherClass(d: Diff, i: nat, n: Id, r: Id)
    requires !(d.arena.KindOf(n).ConstructorCall? && !d.arena.KindOf(r).ConstructorCall?)
    ensures ReplacementVerdict(d, i, n, r) == ReplacementVerdictAsWritten(d, i, n, r)
  {
  }

  /** A completed replacement verdict, as written, is silent exactly when
      a call was replaced by a call of its own class with the same callee
      name and arity; where it completes, the corrected one agrees. */
  lemma ReplacementSilentIffSameCallee(d: Diff, i: nat, n: Id, r: Id)
    requires ReplacementVerdictAsWritten(d, i, n, r).Ok?
    ensures ReplacementVerdictAsWritten(d, i, n, r).value == [] <==>
              && SameCallClass(d.arena.KindOf(n), d.arena.KindOf(r))
              && CallName(d.arena.Get(n)) == CallName(d.arena.Get(r))
              && |d.arena.Get(n).args| == |d.arena.Get(r).args|
    ensures ReplacementVerdict(d, i, n, r) == ReplacementVerdictAsWritten(d, i, n, r)
  {
  }

  /** An invocation replaced by an element of another class is reported
      with the two classes as evidence. */
  lemma InvocationReplacedByOtherClass(d: Diff, i: nat, n: Id, r: Id)
    requires d.arena.KindOf(n).Invocation? && !d.arena.KindOf(r).Invocation?
    ensures ReplacementVerdictAsWritten(d, i, n, r) ==
              Ok([Instance(WrongMethodRef, i, [n],
                           [Prop("Old", "Removed_Invocation"), Prop("New", "Added_" + KindName(d.arena.KindOf(r)))])])
    ensures ReplacementVerdict(d, i, n, r) == ReplacementVerdictAsWritten(d, i, n, r)
  {
    assert KindName(d.arena.KindOf(n)) == "Invocation";
    assert "Removed_" + "Invocation" == "Removed_Invocation";
  }

  /** An invocation replaced by an invocation of another simple name is
      one wrong method reference tagged "differentMethodName", as written
      and as corrected. */
  lemma InvocationRenamedReported(d: Diff, i: nat, n: Id, r: Id)
    requires d.arena.KindOf(n).Invocation? && d.arena.KindOf(r).Invocation?
    requires d.arena.Get(n).name != d.arena.Get(r).name
    ensures ReplacementVerdictAsWritten(d, i, n, r) ==
              Ok([Instance(WrongMethodRef, i, [n], [Prop("Change", "differentMethodName")])])
    ensures ReplacementVerdict(d, i, n, r) == ReplacementVerdictAsWritten(d, i, n, r)
  {
  }

  /** An invocation replaced by an invocation of the same simple name with
      another number of arguments is one wrong method reference tagged
      "SameNamedifferentArgument", as written and as corrected. */
  lemma InvocationArityChangeReported(d: Diff, i: nat, n: Id, r: Id)
    requires d.arena.KindOf(n).Invocation? && d.arena.KindOf(r).Invocation?
    requires d.arena.Get(n).name == d.arena.Get(r).name
    requires |d.arena.Get(n).args| != |d.arena.Get(r).args|
    ensures ReplacementVerdictAsWritten(d, i, n, r) ==
              Ok([Instance(WrongMethodRef, i, [n], [Prop("Change", "SameNamedifferentArgument")])])
    ensures ReplacementVerdict(d, i, n, r) == ReplacementVerdictAsWritten(d, i, n, r)
  {
  }

  /** "new p.A(..)" replaced by "new q.B(..)" with different class names is
      a wrong method reference tagged "differentMethodName". */
  lemma ConstructorOfOtherClass(d: Diff, i: nat, n: Id, r: Id,
                                p: string, cA: string, ps: string, q: string, cB: string, qs: string)
    requires d.arena.KindOf(n).ConstructorCall? && d.arena.KindOf(r).ConstructorCall?
    requires Qualifier(p) && Simple(cA) && Qualifier(q) && Simple(cB) && cA != cB
    requires d.arena.Get(n).signature == p + "." + cA + "(" + ps
    requires d.arena.Get(r).signature == q + "." + cB + "(" + qs
    ensures ReplacementVerdictAsWritten(d, i, n, r) ==
              Ok([Instance(WrongMethodRef, i, [n], [Prop("Change", "differentMethodName")])])
    ensures ReplacementVerdict(d, i, n, r) == ReplacementVerdictAsWritten(d, i, n, r)
  {
    ConstructorNameOfQualified(p, cA, ps);
    ConstructorNameOfQualified(q, cB, qs);
  }

  /** A variable or type access replaced by anything is a wrong variable
      reference with the two classes as evidence. */
  lemma AccessReplaced(d: Diff, i: nat, n: Id, r: Id)
    requires VarOrType(d.arena.KindOf(n))
    ensures ReplacementVerdictAsWritten(d, i, n, r) == Ok([Instance(WrongVarRef, i, [n], ReplacementEvidence(d.arena, n, r))])
    ensures ReplacementVerdict(d, i, n, r) == ReplacementVerdictAsWritten(d, i, n, r)
  {
  }

  /** The verdict on the update of `s` into `t`, reported for operation
      `i`: between variable and type accesses it is a wrong variable
      reference, unless both are variable accesses and the declaration was
      renamed along or the new variable is freshly declared. */
  function VarUpdateVerdict(d: Diff, i: nat, s: Id, t: Id): (v: seq<Instance>)
    ensures |v| <= 1
    ensures v != [] ==> VarOrType(d.arena.KindOf(s)) && VarOrType(d.arena.KindOf(t))
    ensures forall x | x in v ::
              x == Instance(WrongVarRef, i, [s], [Prop("Change", "Update_" + KindName(d.arena.KindOf(s)))])
    ensures VarOrType(d.arena.KindOf(s)) && VarOrType(d.arena.KindOf(t)) ==>
              (v == [] <==> IsVariableAccess(d.arena.KindOf(s)) && IsVariableAccess(d.arena.KindOf(t))
                            && (DeclarationUpdated(d, s, t) || NewlyDeclared(d, t)))
  {
    var a := d.arena;
    var ks := a.KindOf(s);
    var kt := a.KindOf(t);
    if !(VarOrType(ks) && VarOrType(kt)) then []
    else if IsVariableAccess(ks) && IsVariableAccess(kt) && (DeclarationUpdated(d, s, t) || NewlyDeclared(d, t)) then []
    else [Instance(WrongVarRef, i, [s], [Prop("Change", "Update_" + KindName(ks))])]
  }

  /** Renaming the declaration together with the access is not a wrong
      reference. */
  lemma RenamedDeclarationSuppresses(d: Diff, i: nat, s: Id, t: Id, j: nat)
    requires IsVariableAccess(d.arena.KindOf(s)) && IsVariableAccess(d.arena.KindOf(t))
    requires j < |d.ops| && ConsistentRename(d.arena, d.ops[j], s, t)
    ensures VarUpdateVerdict(d, i, s, t) == []
  {
  }

  /** Pointing an access at a newly inserted field of that name is not a
      wrong reference. */
  lemma FreshFieldSuppresses(d: Diff, i: nat, s: Id, t: Id, j: nat)
    requires IsVariableAccess(d.arena.KindOf(s)) && IsVariableAccess(d.arena.KindOf(t))
    requires j < |d.ops| && d.ops[j].Insert?
    requires d.arena.KindOf(d.ops[j].node).Field? && d.arena.Get(d.ops[j].node).name == d.arena.Get(t).name
    ensures VarUpdateVerdict(d, i, s, t) == []
  {
    assert DeclaresFreshly(d.arena, d.ops[j], t);
  }

  /** Any fresh declaration of the new name vetoes the report: a field,
      or a parameter or local in an equal method or constructor. */
  lemma FreshDeclarationSuppresses(d: Diff, i: nat, s: Id, t: Id, j: nat)
    requires IsVariableAccess(d.arena.KindOf(s)) && IsVariableAccess(d.arena.KindOf(t))
    requires j < |d.ops| && DeclaresFreshly(d.arena, d.ops[j], t)
    ensures VarUpdateVerdict(d, i, s, t) == []
  {
  }

  /** An update involving a type access is always reported: neither
      suppression applies to it. */
  lemma TypeAccessUpdateReported(d: Diff, i: nat, s: Id, t: Id)
    requires VarOrType(d.arena.KindOf(s)) && VarOrType(d.arena.KindOf(t))
    requires d.arena.KindOf(s).TypeAccess? || d.arena.KindOf(t).TypeAccess?
    ensures |VarUpdateVerdict(d, i, s, t)| == 1
  {
  }

  /** Both calls have a receiver and the receivers are not equal. */
  predicate TargetsDiffer(a: Arena, s: Id, t: Id) {
    a.Get(s).target.Some? && a.Get(t).target.Some? && !SameShape(a, a.Get(s).target.value, a.Get(t).target.value)
  }

  /** The verdict on the update of call `s` into call `t`, reported for
      operation `i`: nothing when the callee's signature changed along or
      the receivers differ, otherwise a wrong method reference tagged by
      whether the callee names differ. Reading a name may fail. */
  function CallUpdateVerdict(d: Diff, i: nat, s: Id, t: Id): (v: Result<Option<Instance>>)
    ensures v.Ok? ==> Calls(d.arena, s, t).Ok? && MethodDefUpdated(d, s, t).Ok?
    ensures v.Ok? && v.value.Some? <==>
              v.Ok? && MethodDefUpdated(d, s, t) == Ok(false) && !TargetsDiffer(d.arena, s, t)
    ensures v.Ok? && v.value.Some? ==>
              v.value.value == Instance(WrongMethodRef, i, [s],
                                        [ChangeTag(Calls(d.arena, s, t).value.oldName, Calls(d.arena, s, t).value.newName)])
  {
    var c :- Calls(d.arena, s, t);
    var adapted :- MethodDefUpdated(d, s, t);
    if adapted || TargetsDiffer(d.arena, s, t) then Ok(None)
    else Ok(Some(Instance(WrongMethodRef, i, [s], [ChangeTag(c.oldName, c.newName)])))
  }

  /** A call update without any parameter edit in the script and with
      equal (or missing) receivers is reported, tagged by the names. */
  lemma PlainCallUpdateReported(d: Diff, i: nat, s: Id, t: Id)
    requires Calls(d.arena, s, t).Ok?
    requires forall j | 0 <= j < |d.ops| :: !EditsParameter(d.arena, d.ops[j])
    requires !TargetsDiffer(d.arena, s, t)
    ensures CallUpdateVerdict(d, i, s, t) ==
              Ok(Some(Instance(WrongMethodRef, i, [s],
                               [ChangeTag(Calls(d.arena, s, t).value.oldName, Calls(d.arena, s, t).value.newName)])))
  {
    NoParameterEditNoSignatureChange(d, s, t);
  }

  /** Renaming `a.f()` into `b.g()` with `a` and `b` unequal is not
      reported: the receiver changed, not the reference. */
  lemma ReceiverChangeVetoes(d: Diff, i: nat, s: Id, t: Id)
    requires Calls(d.arena, s, t).Ok? && TargetsDiffer(d.arena, s, t)
    ensures CallUpdateVerdict(d, i, s, t).Ok? ==> CallUpdateVerdict(d, i, s, t).value.None?
  {
  }
}
