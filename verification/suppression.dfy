/** The predicates that decide that an apparent reference change is not a
    wrong reference: the deleted reference reappears wrapped in a new call,
    the new name is a freshly declared binding, the declaration itself was
    renamed, the callee's signature changed along with the call, or the
    enclosing call is itself edited. */
module Suppression {
  import opened Outcomes
  import opened Ast
  import opened EditScript
  import opened Names

  /** The arguments of a call; any other element has none. */
  function Args(a: Arena, x: Id): seq<Id> {
    if IsCall(a.KindOf(x)) then a.Get(x).args else []
  }

  // ----- whethervarwrapped -----

  /** `x` and `y` are the same reference: two variable accesses to the same
      variable name, two type accesses to the same type name, or two
      invocations (two constructor calls) of the same signature. */
  predicate SameReference(a: Arena, x: Id, y: Id) {
    var kx := a.KindOf(x);
    var ky := a.KindOf(y);
    || (IsVariableAccess(kx) && IsVariableAccess(ky) && a.Get(x).name == a.Get(y).name)
    || (kx.TypeAccess? && ky.TypeAccess? && a.Get(x).name == a.Get(y).name)
    || (kx.Invocation? && ky.Invocation? && a.Get(x).signature == a.Get(y).signature)
    || (kx.ConstructorCall? && ky.ConstructorCall? && a.Get(x).signature == a.Get(y).signature)
  }

  /** The argument scan from position `k` on, stopping at the first match. */
  function WrappedFrom(a: Arena, src: Id, args: seq<Id>, k: nat): (r: bool)
    ensures r <==> exists j | k <= j < |args| :: SameReference(a, src, args[j])
    decreases |args| - k
  {
    if k >= |args| then false
    else if SameReference(a, src, args[k]) then true
    else WrappedFrom(a, src, args, k + 1)
  }

  /** `whethervarwrapped(src, cand)`: some argument of the call `cand` is
      the same reference as `src`; an element that is not a call has no
      arguments and never wraps anything. */
  function VarWrapped(a: Arena, src: Id, cand: Id): (r: bool)
    ensures r <==> exists j | 0 <= j < |Args(a, cand)| :: SameReference(a, src, Args(a, cand)[j])
    ensures !IsCall(a.KindOf(cand)) ==> !r
  {
    WrappedFrom(a, src, Args(a, cand), 0)
  }

  // ----- whethervariablenewlydeclared -----

  /** Both lookups found an element and the two are structurally equal. */
  predicate SameEnclosing(a: Arena, x: Option<Id>, y: Option<Id>) {
    x.Some? && y.Some? && SameShape(a, x.value, y.value)
  }

  /** `op` inserts a binding named like the variable the access `va` reads:
      a parameter or local variable in the same method or constructor as
      the access, or a field anywhere. */
  predicate DeclaresFreshly(a: Arena, op: Op, va: Id) {
    && op.Insert?
    && var x := op.node;
       var k := a.KindOf(x);
       || ((k.Parameter? || k.LocalVariable?) && a.Get(x).name == a.Get(va).name
           && (|| SameEnclosing(a, EnclosingMethod(a, x), EnclosingMethod(a, va))
               || SameEnclosing(a, EnclosingConstructor(a, x), EnclosingConstructor(a, va))))
       || (k.Field? && a.Get(x).name == a.Get(va).name)
  }

  function FreshFrom(d: Diff, va: Id, k: nat): (r: bool)
    ensures r <==> exists j | k <= j < |d.ops| :: DeclaresFreshly(d.arena, d.ops[j], va)
    decreases |d.ops| - k
  {
    if k >= |d.ops| then false
    else if DeclaresFreshly(d.arena, d.ops[k], va) then true
    else FreshFrom(d, va, k + 1)
  }

  /** `whethervariablenewlydeclared(va)`: some operation of the script
      inserts a fresh binding for the variable `va` accesses. */
  function NewlyDeclared(d: Diff, va: Id): (r: bool)
    ensures r <==> exists j | 0 <= j < |d.ops| :: DeclaresFreshly(d.arena, d.ops[j], va)
  {
    FreshFrom(d, va, 0)
  }

  // ----- whethervariableDeclarationUpdated -----

  /** Declaration `od` of access `orig` and declaration `nd` of access
      `renamed` sit in matching methods (or matching constructors). */
  predicate ScopesAgree(a: Arena, od: Id, orig: Id, nd: Id, renamed: Id) {
    || (SameEnclosing(a, EnclosingMethod(a, od), EnclosingMethod(a, orig))
        && SameEnclosing(a, EnclosingMethod(a, nd), EnclosingMethod(a, renamed)))
    || (SameEnclosing(a, EnclosingConstructor(a, od), EnclosingConstructor(a, orig))
        && SameEnclosing(a, EnclosingConstructor(a, nd), EnclosingConstructor(a, renamed)))
  }

  /** `op` is an Update whose two sides lie under declarations named like
      the variables of `orig` and `renamed`, of the same declaration class,
      and (for parameters and locals) in matching scopes. */
  predicate ConsistentRename(a: Arena, op: Op, orig: Id, renamed: Id) {
    && op.Update?
    && var od := VarDeclaration(a, op.node);
       var nd := VarDeclaration(a, op.newNode);
       && od.Some? && nd.Some?
       && a.Get(od.value).name == a.Get(orig).name
       && a.Get(nd.value).name == a.Get(renamed).name
       && var ko := a.KindOf(od.value);
          var kn := a.KindOf(nd.value);
          || (ko.Parameter? && kn.Parameter? && ScopesAgree(a, od.value, orig, nd.value, renamed))
          || (ko.LocalVariable? && kn.LocalVariable? && ScopesAgree(a, od.value, orig, nd.value, renamed))
          || (ko.Field? && kn.Field?)
  }

  function RenameFrom(d: Diff, orig: Id, renamed: Id, k: nat): (r: bool)
    ensures r <==> exists j | k <= j < |d.ops| :: ConsistentRename(d.arena, d.ops[j], orig, renamed)
    decreases |d.ops| - k
  {
    if k >= |d.ops| then false
    else if ConsistentRename(d.arena, d.ops[k], orig, renamed) then true
    else RenameFrom(d, orig, renamed, k + 1)
  }

  /** `whethervariableDeclarationUpdated(orig, renamed)`: the declaration
      behind the access changed consistently with the access. */
  function DeclarationUpdated(d: Diff, orig: Id, renamed: Id): (r: bool)
    ensures r <==> exists j | 0 <= j < |d.ops| :: ConsistentRename(d.arena, d.ops[j], orig, renamed)
  {
    RenameFrom(d, orig, renamed, 0)
  }

  // ----- whetherparentchanged -----

  function EditedFrom(d: Diff, p: Id, k: nat): (r: bool)
    ensures r <==> exists j | k <= j < |d.ops| :: SameShape(d.arena, d.ops[j].node, p)
    decreases |d.ops| - k
  {
    if k >= |d.ops| then false
    else if SameShape(d.arena, d.ops[k].node, p) then true
    else EditedFrom(d, p, k + 1)
  }

  /** `whetherparentchanged(p)`: some operation's source node equals `p`. */
  function ParentChanged(d: Diff, p: Id): (r: bool)
    ensures r <==> exists j | 0 <= j < |d.ops| :: SameShape(d.arena, d.ops[j].node, p)
  {
    EditedFrom(d, p, 0)
  }

  // ----- whethermethoddefupdated -----

  /** The callee names and actual type arguments of the old and new call. */
  datatype CallPair = CallPair(oldName: string, oldTypes: seq<string>, newName: string, newTypes: seq<string>)

  /** Every parameter of `m` at a position that `types` also has is of that
      type (the comparison loop stops at the first mismatch). */
  predicate ParamsAgree(a: Arena, m: Id, types: seq<string>) {
    forall k | 0 <= k < |a.Get(m).args| && k < |types| :: a.Get(a.Get(m).args[k]).typeName == types[k]
  }

  /** The old declaration `od` is named like the old callee; then its new
      counterpart `nd`, which must exist, is named like the new callee and
      both parameter lists agree with the calls' type arguments. */
  function DeclEvidence(a: Arena, od: Id, nd: Option<Id>, c: CallPair): Result<bool> {
    if a.Get(od).name != c.oldName then Ok(false)
    else
      var n :- Deref(nd);
      Ok(a.Get(n).name == c.newName && ParamsAgree(a, od, c.oldTypes) && ParamsAgree(a, n, c.newTypes))
  }

  /** The new counterpart of a declaration, cast to the declaration's class
      when there is one. */
  function Counterpart(d: Diff, decl: Id, isClass: Kind -> bool): Result<Option<Id>> {
    match d.oracles.toNew(decl)
    case None => Ok(None)
    case Some(r) => if isClass(d.arena.KindOf(r)) then Ok(Some(r)) else Crash(ClassCast)
  }

  /** What one operation says about a signature change: an inserted
      parameter is judged by the operation's parent (old declaration) and
      the parameter's enclosing declaration (new one); a deleted parameter
      by its enclosing declaration and that one's mapped counterpart. */
  function ParameterEvidence(d: Diff, op: Op, c: CallPair): Result<bool> {
    var a := d.arena;
    match op
    case Insert(x, ip) =>
      if !a.KindOf(x).Parameter? then Ok(false)
      else
        var viaMethod :- if ip.Some? && a.KindOf(ip.value).Method?
                         then DeclEvidence(a, ip.value, EnclosingMethod(a, x), c) else Ok(false);
        var viaConstructor :- if ip.Some? && a.KindOf(ip.value).Constructor?
                              then DeclEvidence(a, ip.value, EnclosingConstructor(a, x), c) else Ok(false);
        Ok(viaMethod || viaConstructor)
    case Delete(x) =>
      if !a.KindOf(x).Parameter? then Ok(false)
      else
        var viaMethod :- match EnclosingMethod(a, x)
                         case None => Ok(false)
                         case Some(m) =>
                           var nm :- Counterpart(d, m, IsMethod);
                           DeclEvidence(a, m, nm, c);
        var viaConstructor :- match EnclosingConstructor(a, x)
                              case None => Ok(false)
                              case Some(m) =>
                                var nm :- Counterpart(d, m, IsConstructor);
                                DeclEvidence(a, m, nm, c);
        Ok(viaMethod || viaConstructor)
    case _ => Ok(false)
  }

  /** The scan over operations `k ..`: every operation is inspected (the
      flag is never reset), and the first crash ends the scan. */
  function AdaptedFrom(d: Diff, c: CallPair, k: nat): (r: Result<bool>)
    ensures r.Ok? ==> forall j | k <= j < |d.ops| :: ParameterEvidence(d, d.ops[j], c).Ok?
    ensures r.Ok? ==> (r.value <==> exists j | k <= j < |d.ops| :: ParameterEvidence(d, d.ops[j], c) == Ok(true))
    decreases |d.ops| - k
  {
    if k >= |d.ops| then Ok(false)
    else
      var here :- ParameterEvidence(d, d.ops[k], c);
      var rest :- AdaptedFrom(d, c, k + 1);
      Ok(here || rest)
  }

  /** The call pair the signature check compares. */
  function Calls(a: Arena, s: Id, t: Id): Result<CallPair> {
    var sn :- CallName(a.Get(s));
    var tn :- CallName(a.Get(t));
    Ok(CallPair(sn, a.Get(s).typeArgs, tn, a.Get(t).typeArgs))
  }

  /** `whethermethoddefupdated(s, t)`: some parameter insertion or deletion
      shows that the called method or constructor changed its signature
      along with the call. */
  function MethodDefUpdated(d: Diff, s: Id, t: Id): (r: Result<bool>)
    ensures r.Ok? ==> Calls(d.arena, s, t).Ok?
    ensures r.Ok? ==> (r.value <==> exists j | 0 <= j < |d.ops| ::
                         ParameterEvidence(d, d.ops[j], Calls(d.arena, s, t).value) == Ok(true))
  {
    var c :- Calls(d.arena, s, t);
    AdaptedFrom(d, c, 0)
  }

  /** `op` inserts or deletes a parameter. */
  predicate EditsParameter(a: Arena, op: Op) {
    (op.Insert? || op.Delete?) && a.KindOf(op.node).Parameter?
  }

  /** Without parameter insertions or deletions no signature changed. */
  lemma NoParameterEditNoSignatureChange(d: Diff, s: Id, t: Id)
    requires Calls(d.arena, s, t).Ok?
    requires forall j | 0 <= j < |d.ops| :: !EditsParameter(d.arena, d.ops[j])
    ensures MethodDefUpdated(d, s, t) == Ok(false)
  {
    var c := Calls(d.arena, s, t).value;
    forall j | 0 <= j < |d.ops| ensures ParameterEvidence(d, d.ops[j], c) == Ok(false) {
      assert !EditsParameter(d.arena, d.ops[j]);
    }
    AdaptedSilent(d, c, 0);
  }

  lemma {:induction false} AdaptedSilent(d: Diff, c: CallPair, k: nat)
    requires forall j | k <= j < |d.ops| :: ParameterEvidence(d, d.ops[j], c) == Ok(false)
    ensures AdaptedFrom(d, c, k) == Ok(false)
    decreases |d.ops| - k
  {
    if k < |d.ops| {
      AdaptedSilent(d, c, k + 1);
    }
  }

  /** A parameter inserted into a method named like the old callee, whose
      new method is named like the new callee and whose parameter lists
      agree with both calls' type arguments, is a signature change. */
  lemma InsertedParameterAdaptsSignature(d: Diff, s: Id, t: Id, j: nat)
    requires Calls(d.arena, s, t).Ok?
    requires j < |d.ops| && d.ops[j].Insert? && d.ops[j].parent.Some?
    requires var a := d.arena; var x := d.ops[j].node; var m := d.ops[j].parent.value;
             && a.KindOf(x).Parameter? && a.KindOf(m).Method?
             && EnclosingMethod(a, x).Some?
             && a.Get(m).name == Calls(a, s, t).value.oldName
             && a.Get(EnclosingMethod(a, x).value).name == Calls(a, s, t).value.newName
             && ParamsAgree(a, m, a.Get(s).typeArgs)
             && ParamsAgree(a, EnclosingMethod(a, x).value, a.Get(t).typeArgs)
    ensures MethodDefUpdated(d, s, t).Ok? ==> MethodDefUpdated(d, s, t).value
  {
    var c := Calls(d.arena, s, t).value;
    var e := ParameterEvidence(d, d.ops[j], c);
    if MethodDefUpdated(d, s, t).Ok? {
      assert e.Ok?;
      assert e == Ok(true);
    }
  }
}
