/** The top-level scan (`detect`): every deletion and every update of the
    edit script is classified in script order, and the instances it yields
    are registered in that order. A Java exception on any path ends the
    whole scan. */
module Detector {
  import opened Outcomes
  import opened Ast
  import opened EditScript
  import opened Names
  import opened Suppression
  import opened Verdicts
  import opened Arguments

  /** An insertion of a call directly under `n`'s parent (the insertion has
      a parent, and it is `n`'s parent by identity). */
  predicate WrapsInPlace(a: Arena, n: Id, o: Op) {
    o.Insert? && IsCall(a.KindOf(o.node)) && o.parent.Some? && o.parent == a.ParentOf(n)
  }

  /** An insertion directly under `n`'s parent. */
  predicate InsertsBeside(a: Arena, n: Id, o: Op) {
    o.Insert? && o.parent == a.ParentOf(n)
  }

  /** The last insertion of a call under `n`'s parent: the scan keeps
      overwriting the wrapped flag, so the last one decides. */
  function WrappingInsertion(d: Diff, n: Id): (r: Option<nat>)
    ensures r.Some? ==> r.value < |d.ops| && WrapsInPlace(d.arena, n, d.ops[r.value])
    ensures r.Some? ==> forall j | r.value < j < |d.ops| :: !WrapsInPlace(d.arena, n, d.ops[j])
    ensures r.None? ==> forall j | 0 <= j < |d.ops| :: !WrapsInPlace(d.arena, n, d.ops[j])
  {
    LastOp(d.ops, (o: Op) => WrapsInPlace(d.arena, n, o))
  }

  /** The last insertion under `n`'s parent: the replacement. */
  function ReplacingInsertion(d: Diff, n: Id): (r: Option<nat>)
    ensures r.Some? ==> r.value < |d.ops| && InsertsBeside(d.arena, n, d.ops[r.value])
    ensures r.Some? ==> forall j | r.value < j < |d.ops| :: !InsertsBeside(d.arena, n, d.ops[j])
    ensures r.None? ==> forall j | 0 <= j < |d.ops| :: !InsertsBeside(d.arena, n, d.ops[j])
  {
    LastOp(d.ops, (o: Op) => InsertsBeside(d.arena, n, o))
  }

  /** The deleted `n` reappears as an argument of the deciding call. */
  predicate WrappedInPlace(d: Diff, n: Id) {
    match WrappingInsertion(d, n)
    case None => false
    case Some(j) => VarWrapped(d.arena, n, d.ops[j].node)
  }

  /** A deleted argument with no replacement at all: the enclosing call,
      if no operation touches it, now takes different arguments. */
  function Fallback(d: Diff, i: nat, n: Id): (r: seq<Instance>)
    ensures |r| <= 1
    ensures forall x | x in r :: && x.pattern == WrongMethodRef && x.op == i
                                 && x.evidence == [Prop("Change", "SameNamedifferentArgument")]
                                 && |x.suspects| == 1 && ChildOf(d.arena, n, x.suspects[0])
                                 && IsCall(d.arena.KindOf(x.suspects[0])) && !ParentChanged(d, x.suspects[0])
  {
    match d.arena.ParentOf(n)
    case None => []
    case Some(p) =>
      if IsCall(d.arena.KindOf(p)) && !ParentChanged(d, p)
      then [Instance(WrongMethodRef, i, [p], [Prop("Change", "SameNamedifferentArgument")])]
      else []
  }

  /** An instance the scan may report for a script: a known pattern, for an
      operation of the script. */
  predicate Reportable(d: Diff, x: Instance) {
    x.pattern in PatternNames && x.op < |d.ops|
  }

  /** The deletion of `n` at operation `i`. Only flagged deletions of
      variable accesses, calls and type accesses inside a statement that
      stays are examined. A deletion wrapped into a new call is not a
      wrong reference; one without replacement may blame the enclosing
      call; a replacement that is a freshly declared variable or of an
      unconsidered class is ignored; otherwise the replacement verdict is
      reported and, call for call, the arguments are analysed. */
  function DeleteCase(d: Diff, i: nat, n: Id): (r: Result<seq<Instance>>)
    ensures r.Ok? ==> forall x | x in r.value :: x.pattern in PatternNames && (x.op == i || x.op < |d.ops|)
    ensures r.Crash? ==> RefLike(d.arena.KindOf(n)) && d.arena.Get(n).flags.deleted
  {
    var a := d.arena;
    if !(RefLike(a.KindOf(n)) && a.Get(n).flags.deleted) then Ok([])
    else
      var st :- Deref(EnclosingStatement(a, n));
      if a.Get(st).flags.deleted || WrappedInPlace(d, n) then Ok([])
      else match ReplacingInsertion(d, n)
        case None =>
          assert WrongMethodRef in PatternNames;
          Ok(Fallback(d, i, n))
        case Some(j) =>
          var r := d.ops[j].node;
          if IsVariableAccess(a.KindOf(r)) && NewlyDeclared(d, r) then Ok([])
          else if !ConsideredReplacement(a.KindOf(r)) then Ok([])
          else
            var own :- ReplacementVerdictAsWritten(d, i, n, r);
            var nested :- if IsCall(a.KindOf(n)) && IsCall(a.KindOf(r)) then ArgumentChanges(d, Site(a, n, r)) else Ok([]);
            assert WrongMethodRef in PatternNames && WrongVarRef in PatternNames;
            Ok(own + nested)
  }

  /** The update of `s` into `t` at operation `i`. Updates under a new or
      moved parent are ignored (a missing parent fails). Between variable
      and type accesses the variable verdict applies; between calls, an
      explicit "this(...)" call counts only against another one, and a
      reported call update is followed by the argument analysis. */
  function UpdateCase(d: Diff, i: nat, s: Id, t: Id): (r: Result<seq<Instance>>)
    ensures r.Ok? ==> forall x | x in r.value :: x.pattern in PatternNames && (x.op == i || x.op < |d.ops|)
  {
    var a := d.arena;
    var tp :- Deref(a.ParentOf(t));
    if a.Get(tp).flags.isNew || a.Get(tp).flags.isMoved then Ok([])
    else
      var sp :- Deref(a.ParentOf(s));
      if a.Get(sp).flags.isNew || a.Get(sp).flags.isMoved then Ok([])
      else if VarOrType(a.KindOf(s)) then
        assert WrongVarRef in PatternNames;
        Ok(VarUpdateVerdict(d, i, s, t))
      else if !IsCall(a.KindOf(s)) then Ok([])
      else if PrintsAsThisCall(a.KindOf(s)) && !PrintsAsThisCall(a.KindOf(t)) then Ok([])
      else if !IsCall(a.KindOf(t)) then Ok([])
      else
        var o :- CallUpdateVerdict(d, i, s, t);
        match o
        case None => Ok([])
        case Some(x) =>
          var nested :- ArgumentChanges(d, Site(a, s, t));
          assert WrongMethodRef in PatternNames;
          Ok([x] + nested)
  }

  /** What operation `i` yields. */
  function OpCase(d: Diff, i: nat): (r: Result<seq<Instance>>)
    ensures r.Ok? ==> forall x | x in r.value :: Reportable(d, x)
  {
    if i >= |d.ops| then Ok([])
    else match d.ops[i]
      case Delete(n) => DeleteCase(d, i, n)
      case Update(s, t) => UpdateCase(d, i, s, t)
      case _ => Ok([])
  }

  /** The scan over operations `k ..`, in order; the first failure ends it. */
  function DetectFrom(d: Diff, k: nat): (r: Result<seq<Instance>>)
    ensures r.Ok? ==> forall x | x in r.value :: Reportable(d, x)
    decreases |d.ops| - k
  {
    if k >= |d.ops| then Ok([])
    else
      var here :- OpCase(d, k);
      var rest :- DetectFrom(d, k + 1);
      Ok(here + rest)
  }

  /** `detect`: the instances registered for the whole script. */
  function Detect(d: Diff): (r: Result<seq<Instance>>)
    ensures r.Ok? ==> forall x | x in r.value :: Reportable(d, x)
  {
    DetectFrom(d, 0)
  }

  // ----- properties of the scan -----

  /** A scan succeeds only if every operation's step succeeds, and then
      every step's instances are among the scan's. */
  lemma {:induction false} DetectFromContains(d: Diff, k: nat, i: nat)
    requires k <= i < |d.ops| && DetectFrom(d, k).Ok?
    ensures OpCase(d, i).Ok?
    ensures forall x | x in OpCase(d, i).value :: x in DetectFrom(d, k).value
    decreases i - k
  {
    if k < i {
      DetectFromContains(d, k + 1, i);
    }
  }

  /** Every operation's instances are registered by `detect`. */
  lemma DetectContains(d: Diff, i: nat)
    requires i < |d.ops| && Detect(d).Ok?
    ensures OpCase(d, i).Ok?
    ensures forall x | x in OpCase(d, i).value :: x in Detect(d).value
  {
    DetectFromContains(d, 0, i);
  }

  /** A failing operation makes `detect` fail, with the first failure's
      exception. */
  lemma {:induction false} DetectFromFails(d: Diff, k: nat, i: nat)
    requires k <= i < |d.ops| && OpCase(d, i).Crash?
    requires forall j | k <= j < i :: OpCase(d, j).Ok?
    ensures DetectFrom(d, k) == Crash(OpCase(d, i).fault)
    decreases i - k
  {
    if k < i {
      DetectFromFails(d, k + 1, i);
    }
  }

  /** A script of insertions and moves only reports nothing. */
  lemma {:induction false} DetectFromSilent(d: Diff, k: nat)
    requires forall j | k <= j < |d.ops| :: d.ops[j].Insert? || d.ops[j].Move?
    ensures DetectFrom(d, k) == Ok([])
    decreases |d.ops| - k
  {
    if k < |d.ops| {
      DetectFromSilent(d, k + 1);
      assert OpCase(d, k) == Ok([]);
      var none: seq<Instance> := [];
      assert none + none == none;
    }
  }

  /** Without deletions and updates nothing is counted for any pattern. */
  lemma NothingWithoutDeletionsOrUpdates(d: Diff, pattern: string)
    requires forall j | 0 <= j < |d.ops| :: d.ops[j].Insert? || d.ops[j].Move?
    ensures Detect(d) == Ok([]) && Count(Detect(d).value, pattern) == 0
  {
    DetectFromSilent(d, 0);
  }

  // ----- properties of the deletion case -----

  /** A flagged deletion of a reference outside any statement fails on the
      missing statement. */
  lemma DeletionOutsideStatementFails(d: Diff, i: nat, n: Id)
    requires RefLike(d.arena.KindOf(n)) && d.arena.Get(n).flags.deleted
    requires EnclosingStatement(d.arena, n).None?
    ensures DeleteCase(d, i, n) == Crash(NullDereference)
  {
  }

  /** A deleted reference that reappears among the arguments of the last
      call inserted beside it (the same variable name, type name or call
      signature) was wrapped, not replaced: nothing is reported for it. */
  lemma WrappedReferenceNotReported(d: Diff, i: nat, n: Id, j: nat, m: nat)
    requires EnclosingStatement(d.arena, n).Some?
    requires j < |d.ops| && WrapsInPlace(d.arena, n, d.ops[j])
    requires forall j' | j < j' < |d.ops| :: !WrapsInPlace(d.arena, n, d.ops[j'])
    requires m < |Args(d.arena, d.ops[j].node)| && SameReference(d.arena, n, Args(d.arena, d.ops[j].node)[m])
    ensures DeleteCase(d, i, n) == Ok([])
  {
    assert WrappingInsertion(d, n) == Some(j);
    assert WrappedInPlace(d, n);
  }

  /** The same for a deleted type access: a type access of the same type
      name among the arguments of the last call inserted beside it. */
  lemma WrappedTypeAccessNotReported(d: Diff, i: nat, n: Id, j: nat, m: nat)
    requires d.arena.KindOf(n).TypeAccess? && EnclosingStatement(d.arena, n).Some?
    requires j < |d.ops| && WrapsInPlace(d.arena, n, d.ops[j])
    requires forall j' | j < j' < |d.ops| :: !WrapsInPlace(d.arena, n, d.ops[j'])
    requires var c := d.ops[j].node;
             && m < |d.arena.Get(c).args|
             && d.arena.KindOf(d.arena.Get(c).args[m]).TypeAccess?
             && d.arena.Get(d.arena.Get(c).args[m]).name == d.arena.Get(n).name
    ensures DeleteCase(d, i, n) == Ok([])
  {
    WrappedReferenceNotReported(d, i, n, j, m);
  }

  /** A deleted argument with nothing inserted beside it, under a call that
      no operation touches, blames that call for different arguments. */
  lemma UnreplacedArgumentBlamesCall(d: Diff, i: nat, n: Id, p: Id)
    requires RefLike(d.arena.KindOf(n)) && d.arena.Get(n).flags.deleted
    requires EnclosingStatement(d.arena, n).Some? && !d.arena.Get(EnclosingStatement(d.arena, n).value).flags.deleted
    requires forall j | 0 <= j < |d.ops| :: !InsertsBeside(d.arena, n, d.ops[j])
    requires d.arena.ParentOf(n) == Some(p) && IsCall(d.arena.KindOf(p))
    requires forall j | 0 <= j < |d.ops| :: !SameShape(d.arena, d.ops[j].node, p)
    ensures DeleteCase(d, i, n) == Ok([Instance(WrongMethodRef, i, [p], [Prop("Change", "SameNamedifferentArgument")])])
  {
    assert WrappingInsertion(d, n).None? by {
      forall j | 0 <= j < |d.ops| ensures !WrapsInPlace(d.arena, n, d.ops[j]) {
        assert !InsertsBeside(d.arena, n, d.ops[j]);
      }
    }
    assert !ParentChanged(d, p);
  }

  /** A deleted variable replaced beside it by a variable that is not
      freshly declared is a wrong variable reference with both classes as
      evidence, unless the variable was wrapped. */
  lemma ReplacedVariableReported(d: Diff, i: nat, n: Id, j: nat)
    requires IsVariableAccess(d.arena.KindOf(n)) && d.arena.Get(n).flags.deleted
    requires EnclosingStatement(d.arena, n).Some? && !d.arena.Get(EnclosingStatement(d.arena, n).value).flags.deleted
    requires !WrappedInPlace(d, n)
    requires j < |d.ops| && InsertsBeside(d.arena, n, d.ops[j])
    requires forall j' | j < j' < |d.ops| :: !InsertsBeside(d.arena, n, d.ops[j'])
    requires var r := d.ops[j].node; VarOrType(d.arena.KindOf(r)) && ConsideredReplacement(d.arena.KindOf(r))
    requires var r := d.ops[j].node; !(IsVariableAccess(d.arena.KindOf(r)) && NewlyDeclared(d, r))
    ensures DeleteCase(d, i, n) == Ok([Instance(WrongVarRef, i, [n], ReplacementEvidence(d.arena, n, d.ops[j].node))])
  {
    assert ReplacingInsertion(d, n) == Some(j);
    var r := d.ops[j].node;
    var none: seq<Instance> := [];
    assert [Instance(WrongVarRef, i, [n], ReplacementEvidence(d.arena, n, r))] + none
           == [Instance(WrongVarRef, i, [n], ReplacementEvidence(d.arena, n, r))];
  }

  /** A deleted constructor call, not wrapped, replaced beside it by an
      element of another considered class that is not a freshly declared
      variable, ends the scan with a failed cast (see the Findings). */
  lemma ReplacedConstructorFails(d: Diff, i: nat, n: Id, j: nat)
    requires d.arena.KindOf(n).ConstructorCall? && d.arena.Get(n).flags.deleted
    requires ConstructorName(d.arena.Get(n).signature).Ok?
    requires EnclosingStatement(d.arena, n).Some? && !d.arena.Get(EnclosingStatement(d.arena, n).value).flags.deleted
    requires !WrappedInPlace(d, n)
    requires j < |d.ops| && InsertsBeside(d.arena, n, d.ops[j])
    requires forall j' | j < j' < |d.ops| :: !InsertsBeside(d.arena, n, d.ops[j'])
    requires var k := d.arena.KindOf(d.ops[j].node);
             && ConsideredReplacement(k) && !k.ConstructorCall?
             && !(IsVariableAccess(k) && NewlyDeclared(d, d.ops[j].node))
    ensures DeleteCase(d, i, n) == Crash(ClassCast)
  {
    assert ReplacingInsertion(d, n) == Some(j);
  }

  /** A deletion whose replacement is of a class the detector does not
      consider (an array access, a conditional, a statement, ...) reports
      nothing, not even the enclosing call. */
  lemma UnconsideredReplacementSilent(d: Diff, i: nat, n: Id, j: nat)
    requires RefLike(d.arena.KindOf(n)) && d.arena.Get(n).flags.deleted
    requires EnclosingStatement(d.arena, n).Some?
    requires ReplacingInsertion(d, n) == Some(j)
    requires !ConsideredReplacement(d.arena.KindOf(d.ops[j].node))
    ensures DeleteCase(d, i, n) == Ok([])
  {
  }

  // ----- properties of the update case -----

  /** Updates under a new or moved parent report nothing. */
  lemma UpdateUnderNewParentSilent(d: Diff, i: nat, s: Id, t: Id)
    requires d.arena.ParentOf(s).Some? && d.arena.ParentOf(t).Some?
    requires var sp := d.arena.Get(d.arena.ParentOf(s).value).flags;
             var tp := d.arena.Get(d.arena.ParentOf(t).value).flags;
             sp.isNew || sp.isMoved || tp.isNew || tp.isMoved
    ensures UpdateCase(d, i, s, t) == Ok([])
  {
  }

  /** A variable access pointed at another existing variable, with no
      matching declaration change or fresh declaration in the script, is
      one wrong variable reference tagged with the old access's class. */
  lemma VariableRedirectReported(d: Diff, i: nat, s: Id, t: Id)
    requires IsVariableAccess(d.arena.KindOf(s)) && IsVariableAccess(d.arena.KindOf(t))
    requires d.arena.ParentOf(s).Some? && d.arena.ParentOf(t).Some?
    requires var sp := d.arena.Get(d.arena.ParentOf(s).value).flags;
             var tp := d.arena.Get(d.arena.ParentOf(t).value).flags;
             !(sp.isNew || sp.isMoved || tp.isNew || tp.isMoved)
    requires forall j | 0 <= j < |d.ops| :: !ConsistentRename(d.arena, d.ops[j], s, t) && !DeclaresFreshly(d.arena, d.ops[j], t)
    ensures UpdateCase(d, i, s, t) ==
              Ok([Instance(WrongVarRef, i, [s], [Prop("Change", "Update_" + KindName(d.arena.KindOf(s)))])])
  {
    assert !DeclarationUpdated(d, s, t);
    assert !NewlyDeclared(d, t);
  }

  /** An explicit "this(...)" call updated into anything but another one
      reports nothing. */
  lemma ThisCallUpdateSilent(d: Diff, i: nat, s: Id, t: Id)
    requires PrintsAsThisCall(d.arena.KindOf(s)) && !PrintsAsThisCall(d.arena.KindOf(t))
    requires d.arena.ParentOf(s).Some? && d.arena.ParentOf(t).Some?
    ensures UpdateCase(d, i, s, t) == Ok([])
  {
  }

  /** A call updated into a call, under kept parents, with no parameter
      insertion or deletion in the script and receivers that do not differ,
      registers the wrong method reference on the old call, tagged by the
      callee names, followed by what the argument analysis finds; it fails
      exactly when that analysis fails. */
  lemma CallUpdateLeads(d: Diff, i: nat, s: Id, t: Id)
    requires IsCall(d.arena.KindOf(s)) && IsCall(d.arena.KindOf(t))
    requires !(PrintsAsThisCall(d.arena.KindOf(s)) && !PrintsAsThisCall(d.arena.KindOf(t)))
    requires d.arena.ParentOf(s).Some? && d.arena.ParentOf(t).Some?
    requires var sp := d.arena.Get(d.arena.ParentOf(s).value).flags;
             var tp := d.arena.Get(d.arena.ParentOf(t).value).flags;
             !(sp.isNew || sp.isMoved || tp.isNew || tp.isMoved)
    requires Calls(d.arena, s, t).Ok?
    requires forall j | 0 <= j < |d.ops| :: !EditsParameter(d.arena, d.ops[j])
    requires !TargetsDiffer(d.arena, s, t)
    ensures UpdateCase(d, i, s, t).Ok? <==> ArgumentChanges(d, Site(d.arena, s, t)).Ok?
    ensures UpdateCase(d, i, s, t).Ok? ==>
              var c := Calls(d.arena, s, t).value;
              UpdateCase(d, i, s, t).value ==
                [Instance(WrongMethodRef, i, [s], [ChangeTag(c.oldName, c.newName)])]
                + ArgumentChanges(d, Site(d.arena, s, t)).value
  {
    PlainCallUpdateReported(d, i, s, t);
  }

  /** A call updated into a call whose receiver is present on both sides
      and not equal registers nothing for the update, not even the
      argument analysis. */
  lemma CallReceiverChangeSilent(d: Diff, i: nat, s: Id, t: Id)
    requires IsCall(d.arena.KindOf(s)) && IsCall(d.arena.KindOf(t))
    requires d.arena.ParentOf(s).Some? && d.arena.ParentOf(t).Some?
    requires Calls(d.arena, s, t).Ok? && TargetsDiffer(d.arena, s, t)
    ensures UpdateCase(d, i, s, t).Ok? ==> UpdateCase(d, i, s, t).value == []
  {
    ReceiverChangeVetoes(d, i, s, t);
  }
}
