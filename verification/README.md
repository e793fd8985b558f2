# Wrong-reference repair patterns, modelled in Dafny

This project models the classifier `WrongReferenceDetector` of the ADD repair-pattern
miner. The classifier reads the edit script of a bug fix and decides which edits are
"wrong reference" repairs. An edit script is an ordered list of insertions, deletions,
updates and moves over two Spoon syntax trees, the buggy one and the fixed one.
The classifier reports these patterns:

- `wrongVarRef` and `wrongMethodRef`: a variable, type, method or constructor reference
  was replaced by another one.
- `wrapsMethod` and `unwrapMethod`: an argument was wrapped into a call, or unwrapped
  out of one.
- `wrapsIfElse` and `unwrapIfElse`: an argument was wrapped into a conditional, or
  unwrapped out of one.
- `constChange`: a literal argument was changed, or replaced by a constant.
- `missNullCheckP` and `missNullCheckN`: an argument was guarded by a new null check.

The model is made of eight modules.

- `Outcomes`: `Option`, and `Result`, whose `Crash` carries the Java exception
  (failed cast, null dereference, index out of bounds) that ends a scan.
- `Ast`: both trees as one arena of nodes. Parent links, node classes, structural
  equality through a shape key, and the ancestor lookups (`getParent(Class)`,
  `getVarDeclaration`).
- `Names`: Java's `String.split` and the constructor name cut out of a signature.
- `EditScript`: operations, the tree-differencing collaborators as total functions,
  pattern instances, the nine pattern names, and counting per pattern.
- `Suppression`: the predicates that veto a report. They are `whethervarwrapped`,
  `whethervariablenewlydeclared`, `whethervariableDeclarationUpdated`,
  `whetherparentchanged` and `whethermethoddefupdated`.
- `Verdicts`: what a replaced reference, an updated variable access and an updated
  call amount to.
- `Arguments`: `detectVarArgumentChange` and its four sub-analyses.
- `Detector`: `detect`, the scan over the whole script.

Every operation is a pure function from the diff to a `Result` holding the instances
registered, in registration order. Spoon's `equals` and `List.contains` compare
structurally, so they are modelled by equal shape keys (`SameShape`, `InList`).
Java's `==` on elements is identity of arena ids.

The model follows the code as written, including where the code does not do what its
own branches evidently aim at.

- In `detect`, the loop over insertions overwrites both the wrapped flag and the
  replacement, so the LAST qualifying insertion decides, not the first (lines 83-98).
  In the argument analysis the replacement is the FIRST unused insertion (lines 456-468).
- A deleted constructor call is cast to `CtConstructorCall` at line 225 (and again at
  line 572) before the replacement's class is checked. That cast throws
  `ClassCastException` and ends the scan when all of the following hold:
  - the deletion is not wrapped;
  - its replacement is of one of the eight considered classes (lines 160-163) but is not
    a constructor call;
  - the replacement is not a freshly declared variable;
  - the deleted call's own class name can be read.

  A replacement outside the considered classes (an array access, say) is skipped before
  the cast. The branches written for a considered replacement of another class, which
  report that class at lines 247-250 and analyse an invocation's arguments at lines
  264-272, are dead.
  `Detector.Detect` follows the code and fails there. The case is logged under
  "## Findings", where the corrected verdict is modelled and proved beside it.

## Model

| member | source | states |
|---|---|---|
| Detector.Detect | src/main/java/add/features/detector/repairpatterns/WrongReferenceDetector.java:67-417 | every instance `detect` registers carries one of the nine pattern names and belongs to an operation of the script |
| Detector.DetectFrom | src/main/java/add/features/detector/repairpatterns/WrongReferenceDetector.java:67-71 | the scan from any operation on registers only known patterns for operations of the script |
| Detector.OpCase | src/main/java/add/features/detector/repairpatterns/WrongReferenceDetector.java:68-71 | whatever one deletion or update registers is a known pattern for an operation of the script |
| Detector.DetectContains | src/main/java/add/features/detector/repairpatterns/WrongReferenceDetector.java:67-71 | when `detect` completes, every operation's own analysis completed, and everything it registered is among `detect`'s instances |
| Detector.DetectFromContains | src/main/java/add/features/detector/repairpatterns/WrongReferenceDetector.java:67-71 | the same containment for the scan from any operation on, proved by induction over the operations |
| Detector.DetectFromFails | src/main/java/add/features/detector/repairpatterns/WrongReferenceDetector.java:67-71 | an exception in the analysis of one operation, after all earlier ones completed, ends `detect` with that exception |
| Detector.NothingWithoutDeletionsOrUpdates | src/main/java/add/features/detector/repairpatterns/WrongReferenceDetector.java:70-296 | a script of insertions and moves registers nothing, so every pattern's count stays zero |
| Detector.DetectFromSilent | src/main/java/add/features/detector/repairpatterns/WrongReferenceDetector.java:70-296 | the scan over insertions and moves only is empty, by induction |
| Detector.WrappingInsertion | src/main/java/add/features/detector/repairpatterns/WrongReferenceDetector.java:83-93 | the insertion that decides the wrapped flag is the last insertion of a call under the deleted node's own parent; no later operation is one |
| Detector.ReplacingInsertion | src/main/java/add/features/detector/repairpatterns/WrongReferenceDetector.java:83-98 | the replacement is the last insertion whose parent is the deleted node's parent; no later operation qualifies, and without one there is no replacement |
| Detector.Fallback | src/main/java/add/features/detector/repairpatterns/WrongReferenceDetector.java:280-289 | a deleted node with no replacement blames at most its parent: a call that no operation's node equals, as `wrongMethodRef` with `SameNamedifferentArgument` |
| Detector.DeleteCase | src/main/java/add/features/detector/repairpatterns/WrongReferenceDetector.java:71-290 | a deletion registers only known patterns; it can fail only for a flagged deletion of a variable access, call or type access |
| Detector.DeletionOutsideStatementFails | src/main/java/add/features/detector/repairpatterns/WrongReferenceDetector.java:77-79 | a flagged deletion of a reference outside any statement fails with a null dereference |
| Detector.WrappedReferenceNotReported | src/main/java/add/features/detector/repairpatterns/WrongReferenceDetector.java:83-101 | a deleted variable, type access or call inside a statement that reappears (same name, type name or call signature) among the arguments of the last call inserted beside it registers nothing |
| Detector.WrappedTypeAccessNotReported | src/main/java/add/features/detector/repairpatterns/WrongReferenceDetector.java:83-101 | in particular, a deleted type access whose type name reappears as a type-access argument of that call registers nothing |
| Detector.UnreplacedArgumentBlamesCall | src/main/java/add/features/detector/repairpatterns/WrongReferenceDetector.java:280-289 | a deleted argument with nothing inserted beside it, under a call that no operation touches, registers exactly one `wrongMethodRef` on that call |
| Detector.ReplacedVariableReported | src/main/java/add/features/detector/repairpatterns/WrongReferenceDetector.java:116-277 | a deleted variable replaced beside it by a variable or type access of a considered class that is not freshly declared registers exactly one `wrongVarRef` with Removed_/Added_ class evidence |
| Detector.ReplacedConstructorFails | src/main/java/add/features/detector/repairpatterns/WrongReferenceDetector.java:116-225 | as written, a deleted constructor call replaced beside it by a considered element that is not a constructor call ends the deletion's analysis, and with it `detect`, in a class-cast failure |
| Detector.UnconsideredReplacementSilent | src/main/java/add/features/detector/repairpatterns/WrongReferenceDetector.java:132-167 | a replacement of a class outside the eight considered ones registers nothing, not even the fallback |
| Detector.UpdateCase | src/main/java/add/features/detector/repairpatterns/WrongReferenceDetector.java:296-415 | an update registers only known patterns |
| Detector.UpdateUnderNewParentSilent | src/main/java/add/features/detector/repairpatterns/WrongReferenceDetector.java:300-307 | an update whose old or new side has a new or moved parent registers nothing |
| Detector.VariableRedirectReported | src/main/java/add/features/detector/repairpatterns/WrongReferenceDetector.java:309-337 | an update between variable accesses, without a consistent declaration rename or fresh declaration anywhere in the script, registers exactly one `wrongVarRef` tagged `Update_<class>` |
| Detector.ThisCallUpdateSilent | src/main/java/add/features/detector/repairpatterns/WrongReferenceDetector.java:344-347 | an explicit `this(...)` call updated into something that is not one registers nothing |
| Detector.CallUpdateLeads | src/main/java/add/features/detector/repairpatterns/WrongReferenceDetector.java:340-411 | a call updated into a call under kept parents, with no parameter edit in the script and receivers that do not differ, completes exactly when the argument analysis does, and then registers the `wrongMethodRef` on the old call tagged by the two callee names, followed by exactly what the argument analysis finds |
| Detector.CallReceiverChangeSilent | src/main/java/add/features/detector/repairpatterns/WrongReferenceDetector.java:376-380 | a call update whose two receivers are present and not equal registers nothing, not even the argument analysis |
| Verdicts.ReplacementVerdictAsWritten | src/main/java/add/features/detector/repairpatterns/WrongReferenceDetector.java:169-277 | the replacement verdict as the code is written: at most one instance, on the deleted node for its operation, `wrongMethodRef` for a call and `wrongVarRef` otherwise; a failure only for a deleted constructor call, and a failed cast only when the replacement is not a constructor call |
| Verdicts.InvocationRenamedReported | src/main/java/add/features/detector/repairpatterns/WrongReferenceDetector.java:169-187 | an invocation replaced by an invocation of another method name registers `wrongMethodRef` tagged `differentMethodName` |
| Verdicts.InvocationArityChangeReported | src/main/java/add/features/detector/repairpatterns/WrongReferenceDetector.java:169-193 | an invocation replaced by one of the same name with a different argument count registers `wrongMethodRef` tagged `SameNamedifferentArgument` |
| Verdicts.ConstructorReplacedByOtherClassFails | src/main/java/add/features/detector/repairpatterns/WrongReferenceDetector.java:220-226 | as written, a deleted constructor call replaced by any element that is not a constructor call fails on the cast, whenever its own name can be read |
| Verdicts.ConstructorReplacedByVariableFails | src/main/java/add/features/detector/repairpatterns/WrongReferenceDetector.java:220-226 | concretely, `new a.b.C(int)` replaced by a variable read fails with a class-cast exception |
| Verdicts.ReplacementVerdict | src/main/java/add/features/detector/repairpatterns/WrongReferenceDetector.java:169-277 | the corrected verdict registers at most one instance, for the deleted node and its operation, as `wrongMethodRef` for a call and `wrongVarRef` otherwise; only an unreadable constructor name fails |
| Verdicts.ConstructorReplacedByOtherClassReported | src/main/java/add/features/detector/repairpatterns/WrongReferenceDetector.java:247-250 | corrected: a constructor call replaced by another class registers `wrongMethodRef` with `Removed_ConstructorCall` (`Removed_NewClass` for an anonymous class) and `Added_<class>` evidence |
| Verdicts.CorrectionOnlyForConstructorReplacedByOtherClass | src/main/java/add/features/detector/repairpatterns/WrongReferenceDetector.java:169-277 | the corrected and as-written verdicts agree on every other input |
| Verdicts.ReplacementSilentIffSameCallee | src/main/java/add/features/detector/repairpatterns/WrongReferenceDetector.java:169-231 | a replacement verdict that completes, as written, registers nothing if and only if a call was replaced by a call of its class with the same callee name and argument count; the corrected verdict agrees there |
| Verdicts.InvocationReplacedByOtherClass | src/main/java/add/features/detector/repairpatterns/WrongReferenceDetector.java:194-196 | as written, an invocation replaced by another class of element registers `wrongMethodRef` with `Removed_Invocation` and `Added_<class>` evidence; the corrected verdict agrees |
| Verdicts.ConstructorOfOtherClass | src/main/java/add/features/detector/repairpatterns/WrongReferenceDetector.java:222-239 | as written, `new p.A(..)` replaced by `new q.B(..)` with A and B different simple names registers `differentMethodName`, whatever the packages and parameters; the corrected verdict agrees |
| Verdicts.AccessReplaced | src/main/java/add/features/detector/repairpatterns/WrongReferenceDetector.java:274-277 | as written, a deleted variable or type access is always a `wrongVarRef` with class evidence; the corrected verdict agrees |
| Verdicts.ConsideredIffNamed | src/main/java/add/features/detector/repairpatterns/WrongReferenceDetector.java:160-163 | deciding the considered replacement by node class is the same as testing the simple class name against the eight names the code lists |
| Verdicts.VarUpdateVerdict | src/main/java/add/features/detector/repairpatterns/WrongReferenceDetector.java:309-337 | an access update registers at most one `wrongVarRef`, for the old side and tagged with its class, and only when both sides are variable or type accesses; between two such accesses it registers nothing exactly when both are variable accesses and the declaration was renamed with them or the new name was freshly declared |
| Verdicts.RenamedDeclarationSuppresses | src/main/java/add/features/detector/repairpatterns/WrongReferenceDetector.java:314-317 | an update that renames the declaration consistently with the access vetoes the report |
| Verdicts.FreshFieldSuppresses | src/main/java/add/features/detector/repairpatterns/WrongReferenceDetector.java:319-320 | an inserted field named like the new variable vetoes the report |
| Verdicts.FreshDeclarationSuppresses | src/main/java/add/features/detector/repairpatterns/WrongReferenceDetector.java:319-320 | any fresh declaration of the new name vetoes the report: an inserted field, or an inserted parameter or local in an equal method or constructor |
| Verdicts.TypeAccessUpdateReported | src/main/java/add/features/detector/repairpatterns/WrongReferenceDetector.java:309-321 | an update involving a type access is always reported, since neither veto applies to it |
| Verdicts.CallUpdateVerdict | src/main/java/add/features/detector/repairpatterns/WrongReferenceDetector.java:349-394 | a call update is reported if and only if no parameter edit shows a consistent signature change and the receivers do not differ; the report is tagged by whether the callee names differ |
| Verdicts.PlainCallUpdateReported | src/main/java/add/features/detector/repairpatterns/WrongReferenceDetector.java:374-394 | without any parameter insertion or deletion in the script, a call update with equal or missing receivers is reported |
| Verdicts.ReceiverChangeVetoes | src/main/java/add/features/detector/repairpatterns/WrongReferenceDetector.java:376-380 | two receivers that are present and not equal veto the call update |
| Suppression.VarWrapped | src/main/java/add/features/detector/repairpatterns/WrongReferenceDetector.java:1535-1591 | the deleted reference counts as wrapped if and only if some argument of the candidate call is the same variable name, type name or call signature; a non-call wraps nothing |
| Suppression.WrappedFrom | src/main/java/add/features/detector/repairpatterns/WrongReferenceDetector.java:1546-1588 | the argument scan from any position finds a match if and only if one exists there |
| Suppression.NewlyDeclared | src/main/java/add/features/detector/repairpatterns/WrongReferenceDetector.java:1376-1433 | a variable counts as newly declared if and only if some insertion adds a field of its name, or a parameter or local of its name in an equal method or constructor |
| Suppression.FreshFrom | src/main/java/add/features/detector/repairpatterns/WrongReferenceDetector.java:1378-1430 | the same equivalence for the operations from any position on |
| Suppression.DeclarationUpdated | src/main/java/add/features/detector/repairpatterns/WrongReferenceDetector.java:1435-1519 | a declaration counts as updated if and only if some update's two sides lie under declarations named like the two accesses, of the same class, and in matching scopes for parameters and locals |
| Suppression.RenameFrom | src/main/java/add/features/detector/repairpatterns/WrongReferenceDetector.java:1437-1516 | the same equivalence for the operations from any position on |
| Suppression.ParentChanged | src/main/java/add/features/detector/repairpatterns/WrongReferenceDetector.java:1362-1374 | the parent counts as changed if and only if some operation's source node equals it structurally |
| Suppression.EditedFrom | src/main/java/add/features/detector/repairpatterns/WrongReferenceDetector.java:1365-1371 | the same equivalence for the operations from any position on |
| Suppression.MethodDefUpdated | src/main/java/add/features/detector/repairpatterns/WrongReferenceDetector.java:1119-1360 | when it completes, both callee names were readable, and the signature counts as updated if and only if some parameter insertion or deletion gives evidence for the pair of calls |
| Suppression.AdaptedFrom | src/main/java/add/features/detector/repairpatterns/WrongReferenceDetector.java:1164-1357 | the scan completes only if every operation's evidence could be read; it finds an update if and only if one operation's evidence is positive |
| Suppression.NoParameterEditNoSignatureChange | src/main/java/add/features/detector/repairpatterns/WrongReferenceDetector.java:1164-1357 | a script without parameter insertions or deletions never counts as a signature change |
| Suppression.AdaptedSilent | src/main/java/add/features/detector/repairpatterns/WrongReferenceDetector.java:1164-1357 | operations with only negative evidence give a negative verdict, by induction |
| Suppression.InsertedParameterAdaptsSignature | src/main/java/add/features/detector/repairpatterns/WrongReferenceDetector.java:1165-1209 | a parameter inserted into a method named like the old callee, whose enclosing new method is named like the new callee, with parameter types agreeing with both calls, counts as a signature change |
| Arguments.ArgumentChanges | src/main/java/add/features/detector/repairpatterns/WrongReferenceDetector.java:419-429 | every instance of the argument analysis has a known pattern and a script operation, and its suspects are old arguments of the source call, except for the branches `unwrapIfElse` blames |
| Arguments.WrapsFrom | src/main/java/add/features/detector/repairpatterns/WrongReferenceDetector.java:422-425 | the wrap scans from operation k on report only for operations from k on, with suspects among the old arguments |
| Arguments.WrapsMethodAt | src/main/java/add/features/detector/repairpatterns/WrongReferenceDetector.java:701-867 | for one operation, only `wrapsMethod` or `unwrapMethod` is reported, for that operation, on old arguments |
| Arguments.WrappedReads | src/main/java/add/features/detector/repairpatterns/WrongReferenceDetector.java:709-726 | every deletion of an old variable-read argument that is also an argument of the inserted call gives one `wrapsMethod` on it, and nothing else does |
| Arguments.MovedArguments | src/main/java/add/features/detector/repairpatterns/WrongReferenceDetector.java:729-752 | each `wrapsMethod` from moved arguments is on a moved old argument; without moved-left trees nothing is reported; when the scan completes, every moved old argument in the call's line whose old counterpart is not under another call is reported with `MovedExpression` evidence |
| Arguments.MovedArgumentReported | src/main/java/add/features/detector/repairpatterns/WrongReferenceDetector.java:729-752 | lifts that completeness to `detectWrapsMethod` on the insertion |
| Arguments.UnwrappedArguments | src/main/java/add/features/detector/repairpatterns/WrongReferenceDetector.java:757-782 | a deleted call gives one `unwrapMethod` on itself, with no evidence, for each of its arguments that moved out into the new arguments, and none when no argument did |
| Arguments.UnwrapReported | src/main/java/add/features/detector/repairpatterns/WrongReferenceDetector.java:757-782 | a deleted old call argument, in a statement that stays, with an argument moved out into the new arguments, is reported as unwrapped |
| Arguments.ConditionalVerdict | src/main/java/add/features/detector/repairpatterns/WrongReferenceDetector.java:935-997 | one conditional gives at most one report. On an insertion it is a `wrapsIfElse` on the old counterpart of the branch that is not new. On a deletion it is an `unwrapIfElse` on a conditional that was an old argument, blaming the other branch and the condition |
| Arguments.ConditionalUnwrapReported | src/main/java/add/features/detector/repairpatterns/WrongReferenceDetector.java:966-993 | a new conditional that was an old argument, not new on both branches, in a statement that stays, whose kept branch maps to a new argument, gives exactly one `unwrapIfElse` on the other branch and the condition |
| Arguments.ConditionalsFrom | src/main/java/add/features/detector/repairpatterns/WrongReferenceDetector.java:935-997 | the conditionals under one operation give `wrapsIfElse` anchored in the old arguments on an insertion, `unwrapIfElse` on a deletion |
| Arguments.WrapIfAt | src/main/java/add/features/detector/repairpatterns/WrongReferenceDetector.java:927-999 | `detecfWrapIfChange` on one operation reports only for that operation, with `wrapsIfElse` anchored in the old arguments |
| Arguments.ConditionalWrapReported | src/main/java/add/features/detector/repairpatterns/WrongReferenceDetector.java:935-964 | a new conditional among the new arguments, not new on both branches, in a statement that is not new, whose kept branch maps back to an old argument, gives exactly one `wrapsIfElse` on that argument |
| Arguments.ConditionalsFromContains | src/main/java/add/features/detector/repairpatterns/WrongReferenceDetector.java:935-997 | every conditional examined contributes its verdict to the scan, by induction |
| Arguments.WrapIfReported | src/main/java/add/features/detector/repairpatterns/WrongReferenceDetector.java:927-964 | an insertion with such a conditional among its elements reports the wrapped argument whenever the scan completes |
| Arguments.WrapsFromContains | src/main/java/add/features/detector/repairpatterns/WrongReferenceDetector.java:422-425 | what the wrap scans find at one operation is among what they find from any earlier operation on, by induction |
| Arguments.WrapsReachArgumentChanges | src/main/java/add/features/detector/repairpatterns/WrongReferenceDetector.java:419-429 | whatever the wrap scans find at one operation is part of a completed argument analysis |
| Arguments.ConstantsFrom | src/main/java/add/features/detector/repairpatterns/WrongReferenceDetector.java:869-925 | every `constChange` is on one old literal argument; each literal replaced by an insertion uses one that was fresh, and no two literals use structurally equal insertions |
| Arguments.ServedHead | src/main/java/add/features/detector/repairpatterns/WrongReferenceDetector.java:896-917 | a literal replaced by a fresh insertion goes in front of the later reports, keeping freshness and distinctness of the insertions used |
| Arguments.LiteralUpdateReported | src/main/java/add/features/detector/repairpatterns/WrongReferenceDetector.java:875-887 | an update of an old literal argument into a new argument is reported as a `constChange` of type `literal`, whatever precedes it in the script |
| Arguments.FirstFreshConstant | src/main/java/add/features/detector/repairpatterns/WrongReferenceDetector.java:896-911 | the insertion that replaces a deleted literal is the first new argument that can stand for a constant and was not used before, and there is none only when no such insertion exists |
| Arguments.DeletedLiteralReplaced | src/main/java/add/features/detector/repairpatterns/WrongReferenceDetector.java:890-917 | a deleted old literal argument, with some fresh constant-like insertion in the script, is reported first as a `constChange` of type `literal_by_varaccess`, by the earliest such insertion |
| Arguments.NullCheckVerdict | src/main/java/add/features/detector/repairpatterns/WrongReferenceDetector.java:1017-1111 | one new null check gives at most one report, `missNullCheckP` if and only if the check is `==`; it reports exactly when it is a new null check with a new condition whose parent is a conditional with some non-new branch mapping back to an old argument, and its suspects are exactly those mapped arguments, then-branch first |
| Arguments.BranchEvidence | src/main/java/add/features/detector/repairpatterns/WrongReferenceDetector.java:1041-1063 | a branch contributes its old counterpart exactly when the branch is not new and that counterpart is an old argument, and nothing otherwise |
| Arguments.NullChecksUnder | src/main/java/add/features/detector/repairpatterns/WrongReferenceDetector.java:1015-1111 | the null checks under one inserted argument give only null-check patterns on old arguments |
| Arguments.NullChecksFrom | src/main/java/add/features/detector/repairpatterns/WrongReferenceDetector.java:1004-1116 | the null-check scan reports only argument instances for operations from k on |
| Arguments.NullCheckReportsMappedThen | src/main/java/add/features/detector/repairpatterns/WrongReferenceDetector.java:1041-1050 | a new null check whose conditional's then-branch maps back to an old argument reports exactly once, with that argument first |
| Arguments.NullCheckReportsMappedElse | src/main/java/add/features/detector/repairpatterns/WrongReferenceDetector.java:1041-1063 | with a new then-branch and an else-branch mapping back to an old argument, it reports exactly once, on that argument alone |
| Arguments.FirstFreshReplacement | src/main/java/add/features/detector/repairpatterns/WrongReferenceDetector.java:456-468 | the replacement of a deleted argument is the first insertion of a new argument not used before, and there is none only when no such insertion exists |
| Arguments.ArgumentRefAt | src/main/java/add/features/detector/repairpatterns/WrongReferenceDetector.java:431-697 | one deleted or updated old argument reports only for its operation, on old arguments, and uses up at most one replacement |
| Arguments.WrappingArgument | src/main/java/add/features/detector/repairpatterns/WrongReferenceDetector.java:444-454 | the insertion that decides the wrapped flag is the last insertion of a call among the new arguments; no later operation is one |
| Arguments.WrappedByNewArgument | src/main/java/add/features/detector/repairpatterns/WrongReferenceDetector.java:444-454 | the deleted argument counts as wrapped exactly when it reappears among the arguments of the last call inserted among the new arguments, whatever earlier insertions said |
| Arguments.WrappedArgumentNotReported | src/main/java/add/features/detector/repairpatterns/WrongReferenceDetector.java:470 | a deleted argument that counts as wrapped reports nothing |
| Arguments.DeletedArgumentReplaced | src/main/java/add/features/detector/repairpatterns/WrongReferenceDetector.java:434-601 | a deleted old variable argument, not wrapped, whose first fresh replacement is a variable or type access of a considered class and not freshly declared, gives exactly one `wrongVarRef` with class evidence and uses that replacement up |
| Arguments.ArgumentRedirectReported | src/main/java/add/features/detector/repairpatterns/WrongReferenceDetector.java:607-642 | an updated old variable argument redirected to a new one, with no declaration rename or fresh declaration, is reported as `wrongVarRef` tagged `Update_<class>` whatever precedes it, whenever the scan completes |
| Arguments.ArgumentRefsFrom | src/main/java/add/features/detector/repairpatterns/WrongReferenceDetector.java:431-697 | the changed-reference scan from operation k on reports only argument instances for operations from k on |
| Names.JoinSegments | src/main/java/add/features/detector/repairpatterns/WrongReferenceDetector.java:222-223 | splitting a text on a character and joining the segments again gives the text back |
| Names.SegmentsOfSeparated | src/main/java/add/features/detector/repairpatterns/WrongReferenceDetector.java:222-223 | splitting `u c v` gives the segments of `u` followed by those of `v` |
| Names.ConstructorNameOfQualified | src/main/java/add/features/detector/repairpatterns/WrongReferenceDetector.java:222-223 | the name read from `pkg.Cls(params)` is `Cls` |
| Names.ConstructorNameOfUnqualified | src/main/java/add/features/detector/repairpatterns/WrongReferenceDetector.java:222-223 | the name read from `Cls(params)` is `Cls` |
| Names.HeadBeforeParen | src/main/java/add/features/detector/repairpatterns/WrongReferenceDetector.java:222 | the first part of splitting `head(rest)` on `(` is `head` |
| Names.ConstructorNameExamples | src/main/java/add/features/detector/repairpatterns/WrongReferenceDetector.java:222-223 | `a.b.C(int)` and `C()` both name `C` |
| Names.ConstructorNameCrashesOnParens | src/main/java/add/features/detector/repairpatterns/WrongReferenceDetector.java:222-223 | a signature made only of `(` leaves an empty array, and reading its last element throws |
| Names.Segments | src/main/java/add/features/detector/repairpatterns/WrongReferenceDetector.java:222-223 | splitting gives at least one segment, and no segment contains the separator |
| Ast.FirstFromIsFirstOnChain | src/main/java/add/features/detector/repairpatterns/WrongReferenceDetector.java:1521-1533 | the ancestor lookup returns the first element on the parent chain that has the class asked for, and nothing when there is none |
| Ast.AncestryFollowsParents | src/main/java/add/features/detector/repairpatterns/WrongReferenceDetector.java:1521-1533 | consecutive elements of an ancestor chain are child and parent |
| EditScript.OfPattern | src/main/java/add/features/detector/repairpatterns/WrongReferenceDetector.java:49-57 | the instances of a pattern are exactly the registered instances with that name |
| EditScript.CountAppend | src/main/java/add/features/detector/repairpatterns/WrongReferenceDetector.java:67-69 | registering two batches counts, per pattern, the sum of their counts |
| EditScript.LastOp | src/main/java/add/features/detector/repairpatterns/WrongReferenceDetector.java:83-98 | the scan result is the last operation that qualifies, and none qualifies when it finds nothing |
| EditScript.FirstOp | src/main/java/add/features/detector/repairpatterns/WrongReferenceDetector.java:456-468 | the scan result is the first qualifying operation from the start position, and none qualifies when it finds nothing |
| Outcomes.Deref | src/main/java/add/features/detector/repairpatterns/WrongReferenceDetector.java:77-79 | dereferencing a missing element fails with a null dereference, and a present one yields it |

## Left out

- The patch, line and line-tree payloads of a pattern instance are left out. These are
  `getParentInRight`, `getParentLine` with `LineFilter`, and
  `getFormatedTreeFromControlFlow`. They never decide whether or what is reported. An
  instance keeps its pattern, operation index, suspects and evidence.
- The debug printing (`SpoonHelper.printInsertOrDeleteOperation`, the "Problem!!!!"
  message) is left out.
- The `Config` field is left out: the class never reads it.
- The tree-differencing collaborators are parameters of the diff (`Oracles`). They are
  the left/right mappings, `getElements`, `getTreeLeftMovedFromRight`,
  `getIsInvocationInStatemnt` and `getIsMovedExpressionInStatemnt`. Their code is not
  part of this model.
- Element metadata (`new`, `isMoved`, `movingSrc`, `delete`) are per-node flags.
  `isThisAccess`, `isConstantTypeAccess`, `isNewBinaryOperator`,
  `isNewConditionInBinaryOperator` and `NullCheckFilter` are node flags, because their
  code is not part of this model.
- Printing an invocation to see whether it starts with `this(` is the flag
  `printsAsThisCall`.
- `Arguments.NullCheckVerdict`: the path that takes suspects from the following
  statements in the old tree (lines 1080-1100) is not modelled. It is unreachable:
  a pattern is found only after an element was added to the suspect list, so the list
  is never empty there.
- The null check's `referenceExpression` is computed but never used, and is left out.
- Instances registered before an exception are not modelled. A `Crash` discards them,
  because the exception ends `detect` and the caller sees no result.
- `getParent()` on a root throws in Spoon. The model treats a root as having no parent.
  Where the code dereferences that parent the model fails with a null dereference, and
  where it only asks for the parent's class the answer is false.
- Ancestor walks stop at a parent link that does not point to a smaller arena index.
  In a well-formed arena (`Arena.Valid`) this never happens, so cyclic parent chains,
  which Spoon never builds, are not modelled.
- Class simple names are fixed strings (`KindName`), already stripped of `Ct` and `Impl`.
  Of the Spoon subclasses whose simple names differ from their parent's, only the ones
  that change a verdict are modelled: an anonymous-class creation (`NewClass`), a super
  access (`SuperAccess`) and an annotation field access (`AnnotationFieldAccess`).
- The top-level scan reads `operations` and the argument analysis reads
  `diff.getAllOperations()`. Both are the same list in the model.
- `Arguments.ArgumentChanges`: the suspects of `unwrapIfElse` are the branch that is not
  kept and the condition of the deleted conditional. They are not stated to be old arguments,
  because in general they are not.

## Findings

| source | as written | input that shows it | evidently intended | confidence | as-written member | corrected member |
|---|---|---|---|---|---|---|
| src/main/java/add/features/detector/repairpatterns/WrongReferenceDetector.java:225 | When a deleted constructor call that is not wrapped has a replacement of a considered class (lines 160-163) that is not a freshly declared variable, the replacement is cast to `CtConstructorCall` before its class is checked. If it is not a constructor call and the deleted call's own name could be read, the cast throws `ClassCastException`, which ends `detect`. The branch meant to report it (lines 247-250) and the argument analysis for an invocation replacement (lines 264-272) can never run. Line 572 repeats this in the argument analysis. | `new a.b.C(int)` deleted inside a statement that stays, with a read of a variable that is not freshly declared inserted under the same parent and no call inserted there | report `wrongMethodRef` with `Removed_ConstructorCall` / `Added_<class>` evidence, as for an invocation replaced by another class | not executed | Verdicts.ReplacementVerdictAsWritten (shown by Verdicts.ConstructorReplacedByVariableFails, Verdicts.ConstructorReplacedByOtherClassFails and Detector.ReplacedConstructorFails) | Verdicts.ReplacementVerdict (proved by Verdicts.ConstructorReplacedByOtherClassReported and Verdicts.CorrectionOnlyForConstructorReplacedByOtherClass) |

`Detector.DeleteCase` and `Arguments.ArgumentRefAt` call the as-written verdict, so
`Detector.Detect` fails as the code does. The corrected verdict is what a fix would
call at those two places. With it, a constructor call replaced by an invocation would
also go on to the argument analysis that lines 264-272 evidently meant to reach.
