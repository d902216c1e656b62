/**
 Inserting and removing calls renumbers references. These are the edits as functions, what they keep,
 and exactly when an edited program needs no repair.
 */
module ProgramEdits {
  import opened MachineInts
  import opened ProgramModel

  // ---------------------------------------------------------------- renumbering

  function InsertShift(v: ArgValue, pos: nat): ArgValue {
    if v.ResultRef? && v.ref.call >= pos then ResultRef(Ref((v.ref.call + 1) % (USIZE_MAX + 1), v.ref.result)) else v
  }

  /** References to the removed call are marked with the largest index; later ones move down. */
  function RemoveShift(v: ArgValue, pos: nat): ArgValue {
    if v.ResultRef? && v.ref.call == pos then ResultRef(Ref(USIZE_MAX, USIZE_MAX))
    else if v.ResultRef? && v.ref.call > pos then ResultRef(Ref(v.ref.call - 1, v.ref.result))
    else v
  }

  function ShiftCallForInsert(call: Call, pos: nat): Call {
    call.(args := seq(|call.args|, a requires 0 <= a < |call.args| => InsertShift(call.args[a], pos)))
  }

  function ShiftCallForRemoval(call: Call, pos: nat): Call {
    call.(args := seq(|call.args|, a requires 0 <= a < |call.args| => RemoveShift(call.args[a], pos)))
  }

  function ShiftForInsert(calls: seq<Call>, pos: nat): (r: seq<Call>)
    ensures |r| == |calls|
  {
    seq(|calls|, i requires 0 <= i < |calls| => ShiftCallForInsert(calls[i], pos))
  }

  function ShiftForRemoval(calls: seq<Call>, pos: nat): (r: seq<Call>)
    ensures |r| == |calls|
  {
    seq(|calls|, i requires 0 <= i < |calls| => ShiftCallForRemoval(calls[i], pos))
  }

  function Inserted(calls: seq<Call>, pos: nat, call: Call): seq<Call>
    requires pos <= |calls|
  {
    var shifted := ShiftForInsert(calls, pos);
    shifted[..pos] + [call] + shifted[pos..]
  }

  function Removed(calls: seq<Call>, pos: nat): seq<Call>
    requires pos < |calls|
  {
    ShiftForRemoval(calls[..pos] + calls[pos + 1..], pos)
  }

  /** On single references each shift undoes the other, exactly where nothing wraps around or dangles. */
  lemma ShiftsUndoExactly(v: ArgValue, pos: nat)
    requires v.ResultRef? && v.ref.call <= USIZE_MAX && v.ref.result < USIZE_MAX && pos <= USIZE_MAX
    ensures RemoveShift(InsertShift(v, pos), pos) == v <==> v.ref.call < USIZE_MAX
    ensures InsertShift(RemoveShift(v, pos), pos) == v <==> v.ref.call != pos
  {
  }

  predicate BoundedCall(call: Call) {
    forall v :: v in call.args && v.ResultRef? ==> v.ref.call < USIZE_MAX
  }

  /** No reference carries the mark of a removed call. */
  predicate Bounded(calls: seq<Call>) {
    forall call :: call in calls ==> BoundedCall(call)
  }

  lemma CallShiftsUndo(call: Call, pos: nat)
    requires BoundedCall(call)
    ensures ShiftCallForRemoval(ShiftCallForInsert(call, pos), pos) == call
  {
    var back := ShiftCallForRemoval(ShiftCallForInsert(call, pos), pos);
    forall a | 0 <= a < |call.args| ensures back.args[a] == call.args[a] {
      assert call.args[a] in call.args;
    }
    assert back.args == call.args;
  }

  lemma RemovalUndoesInsertion(calls: seq<Call>, pos: nat, call: Call)
    requires pos <= |calls| && Bounded(calls)
    ensures Removed(Inserted(calls, pos, call), pos) == calls
  {
    var longer := Inserted(calls, pos, call);
    assert longer[..pos] + longer[pos + 1..] == ShiftForInsert(calls, pos);
    forall i | 0 <= i < |calls| ensures ShiftCallForRemoval(ShiftForInsert(calls, pos)[i], pos) == calls[i] {
      assert calls[i] in calls;
      CallShiftsUndo(calls[i], pos);
    }
  }

  predicate RefersTo(call: Call, pos: nat) {
    exists a :: 0 <= a < |call.args| && call.args[a].ResultRef? && call.args[a].ref.call == pos
  }

  predicate InRange(call: Call) {
    forall a :: 0 <= a < |call.args| && call.args[a].ResultRef?
      ==> call.args[a].ref.call <= USIZE_MAX && call.args[a].ref.result < USIZE_MAX
  }

  lemma CallShiftsRedo(call: Call, pos: nat)
    requires InRange(call) && pos <= USIZE_MAX
    ensures ShiftCallForInsert(ShiftCallForRemoval(call, pos), pos) == call <==> !RefersTo(call, pos)
  {
  }

  lemma CallShiftsUndoExactly(call: Call, pos: nat)
    requires InRange(call) && pos <= USIZE_MAX
    ensures ShiftCallForRemoval(ShiftCallForInsert(call, pos), pos) == call <==> BoundedCall(call)
  {
    if BoundedCall(call) {
      CallShiftsUndo(call, pos);
    } else {
      var v :| v in call.args && v.ResultRef? && v.ref.call >= USIZE_MAX;
      var a :| 0 <= a < |call.args| && call.args[a] == v;
      ShiftsUndoExactly(call.args[a], pos);
      assert ShiftCallForRemoval(ShiftCallForInsert(call, pos), pos).args[a] != call.args[a];
    }
  }

  /** Removing an inserted call gives back the program exactly when no reference wraps around. */
  lemma RemovalUndoesInsertionExactly(calls: seq<Call>, pos: nat, call: Call)
    requires pos <= |calls| <= USIZE_MAX && forall i :: 0 <= i < |calls| ==> InRange(calls[i])
    ensures Removed(Inserted(calls, pos, call), pos) == calls <==> Bounded(calls)
  {
    var longer, again := Inserted(calls, pos, call), Removed(Inserted(calls, pos, call), pos);
    assert longer[..pos] + longer[pos + 1..] == ShiftForInsert(calls, pos);
    forall i | 0 <= i < |calls| ensures again[i] == calls[i] <==> BoundedCall(calls[i]) {
      assert again[i] == ShiftCallForRemoval(ShiftCallForInsert(calls[i], pos), pos);
      CallShiftsUndoExactly(calls[i], pos);
    }
  }

  /** Removing a call and inserting it again changes nothing exactly when no other call refers to it. */
  lemma InsertionUndoesRemovalExactly(calls: seq<Call>, pos: nat)
    requires pos < |calls| <= USIZE_MAX && forall i :: 0 <= i < |calls| ==> InRange(calls[i])
    ensures Inserted(Removed(calls, pos), pos, calls[pos]) == calls
      <==> forall i :: 0 <= i < |calls| && i != pos ==> !RefersTo(calls[i], pos)
  {
    var rest, again := calls[..pos] + calls[pos + 1..], Inserted(Removed(calls, pos), pos, calls[pos]);
    forall i | 0 <= i < |calls| && i != pos ensures again[i] == calls[i] <==> !RefersTo(calls[i], pos) {
      var j := if i < pos then i else i - 1;
      assert rest[j] == calls[i];
      assert again[i] == ShiftCallForInsert(ShiftCallForRemoval(rest[j], pos), pos);
      CallShiftsRedo(calls[i], pos);
    }
    assert again[pos] == calls[pos];
  }

  // ---------------------------------------------------------------- references keep their producers

  function MovedByInsert(x: Ref, pos: nat): Ref {
    InsertShift(ResultRef(x), pos).ref
  }

  function MovedByRemoval(x: Ref, pos: nat): Ref {
    RemoveShift(ResultRef(x), pos).ref
  }

  lemma MovedCall(x: Ref, pos: nat)
    requires x.call < USIZE_MAX
    ensures MovedByInsert(x, pos) == Ref(if x.call >= pos then x.call + 1 else x.call, x.result)
  {
  }

  lemma InsertedCall(calls: seq<Call>, pos: nat, call: Call, i: nat)
    requires pos <= |calls| && i < |calls|
    ensures |Inserted(calls, pos, call)| == |calls| + 1
    ensures Inserted(calls, pos, call)[if i < pos then i else i + 1] == ShiftCallForInsert(calls[i], pos)
  {
    var shifted := ShiftForInsert(calls, pos);
    assert shifted[i] == ShiftCallForInsert(calls[i], pos);
    if i >= pos {
      assert shifted[pos..][i - pos] == shifted[i];
    }
  }

  /** A renumbered reference names the same result of the same, renumbered, call. */
  lemma InsertKeepsProducer(calls: seq<Call>, pos: nat, call: Call, x: Ref)
    requires pos <= |calls| && x.call < |calls| && x.call < USIZE_MAX
    ensures var x' := MovedByInsert(x, pos);
      && x'.call < |Inserted(calls, pos, call)| && x'.result == x.result
      && Inserted(calls, pos, call)[x'.call] == ShiftCallForInsert(calls[x.call], pos)
  {
    MovedCall(x, pos);
    InsertedCall(calls, pos, call, x.call);
  }

  lemma RemovalKeepsProducer(calls: seq<Call>, pos: nat, x: Ref)
    requires pos < |calls| && x.call < |calls| && x.call != pos
    ensures var x' := MovedByRemoval(x, pos);
      && x'.call < |Removed(calls, pos)| && x'.result == x.result
      && Removed(calls, pos)[x'.call] == ShiftCallForRemoval(calls[x.call], pos)
  {
  }

  lemma InsertClosesSame(call: Call, descs: seq<SyscallDesc>, pos: nat, x: Ref)
    requires call.syscall < |descs| && BoundedCall(call) && x.call < USIZE_MAX
    ensures Closes(ShiftCallForInsert(call, pos), descs, MovedByInsert(x, pos)) <==> Closes(call, descs, x)
  {
    var shifted, x' := ShiftCallForInsert(call, pos), MovedByInsert(x, pos);
    if ResultRef(x) in call.args {
      var a :| 0 <= a < |call.args| && call.args[a] == ResultRef(x);
      assert shifted.args[a] == ResultRef(x');
    }
    if ResultRef(x') in shifted.args {
      var a :| 0 <= a < |shifted.args| && shifted.args[a] == ResultRef(x');
      assert call.args[a] in call.args;
      InsertShiftInjective(call.args[a], x, pos);
    }
  }

  lemma InsertShiftInjective(v: ArgValue, x: Ref, pos: nat)
    requires x.call < USIZE_MAX && (v.ResultRef? ==> v.ref.call < USIZE_MAX)
    requires InsertShift(v, pos) == ResultRef(MovedByInsert(x, pos))
    ensures v == ResultRef(x)
  {
  }

  lemma RemovalClosesSame(call: Call, descs: seq<SyscallDesc>, pos: nat, x: Ref)
    requires call.syscall < |descs| && BoundedCall(call) && x.call < USIZE_MAX && x.call != pos
    ensures Closes(ShiftCallForRemoval(call, pos), descs, MovedByRemoval(x, pos)) <==> Closes(call, descs, x)
  {
    var shifted := ShiftCallForRemoval(call, pos);
    if ResultRef(x) in call.args {
      var a :| 0 <= a < |call.args| && call.args[a] == ResultRef(x);
      assert shifted.args[a] == ResultRef(MovedByRemoval(x, pos));
    }
    if ResultRef(MovedByRemoval(x, pos)) in shifted.args {
      var a :| 0 <= a < |shifted.args| && shifted.args[a] == ResultRef(MovedByRemoval(x, pos));
      assert call.args[a] in call.args;
      assert call.args[a] == ResultRef(x);
    }
  }

  // ---------------------------------------------------------------- scope after an insertion

  lemma {:induction false} OpenBeforeInsert(
    calls: seq<Call>, descs: seq<SyscallDesc>, pos: nat, call: Call, i: nat, x: Ref)
    requires Indexed(calls, descs) && call.syscall < |descs| && Bounded(calls)
    requires i <= pos <= |calls| && x.call < USIZE_MAX
    ensures Indexed(Inserted(calls, pos, call), descs)
    ensures OpenIn(Inserted(calls, pos, call), descs, x.call, i, MovedByInsert(x, pos))
      <==> OpenIn(calls, descs, x.call, i, x)
  {
    if x.call < i {
      OpenBeforeInsert(calls, descs, pos, call, i - 1, x);
      assert calls[i - 1] in calls;
      InsertClosesSame(calls[i - 1], descs, pos, x);
      OpenOneMore(calls, descs, x.call, i, x);
      OpenOneMore(Inserted(calls, pos, call), descs, x.call, i, MovedByInsert(x, pos));
    }
  }

  lemma OpenOneMore(calls: seq<Call>, descs: seq<SyscallDesc>, from: nat, to: nat, x: Ref)
    requires Indexed(calls, descs) && from < to <= |calls|
    ensures OpenIn(calls, descs, from, to, x)
      <==> OpenIn(calls, descs, from, to - 1, x) && !Closes(calls[to - 1], descs, x)
  {
  }

  lemma OpenAcrossInsert(calls: seq<Call>, descs: seq<SyscallDesc>, pos: nat, call: Call, x: Ref)
    requires Indexed(calls, descs) && call.syscall < |descs| && Bounded(calls)
    requires pos <= |calls| && x.call < USIZE_MAX
    ensures Indexed(Inserted(calls, pos, call), descs)
    ensures OpenIn(Inserted(calls, pos, call), descs, MovedByInsert(x, pos).call, pos + 1, MovedByInsert(x, pos))
      <==> OpenIn(calls, descs, x.call, pos, x) && (x.call < pos ==> !Closes(call, descs, x))
  {
    if x.call < pos {
      OpenBeforeInsert(calls, descs, pos, call, pos, x);
      OpenOneMore(Inserted(calls, pos, call), descs, x.call, pos + 1, x);
    }
  }

  /** From `pos` on, `longer` closes `x'` one call later than `calls` closes `x`. */
  lemma OpenFurther(
    calls: seq<Call>, longer: seq<Call>, descs: seq<SyscallDesc>, pos: nat, i: nat, x: Ref, x': Ref, spared: bool)
    requires Indexed(calls, descs) && Indexed(longer, descs) && pos <= i <= |calls| && |longer| == |calls| + 1
    requires x'.call == if x.call >= pos then x.call + 1 else x.call
    requires OpenIn(longer, descs, x'.call, pos + 1, x') <==> OpenIn(calls, descs, x.call, pos, x) && spared
    requires forall j :: pos <= j < i ==> (ClosedAt(longer, descs, j + 1, x') <==> ClosedAt(calls, descs, j, x))
    ensures OpenIn(longer, descs, x'.call, i + 1, x') <==> OpenIn(calls, descs, x.call, i, x) && spared
  {
    if OpenIn(longer, descs, x'.call, i + 1, x') {
      forall j | x.call <= j < i ensures !Closes(calls[j], descs, x) {
        if j >= pos {
          assert !Closes(longer[j + 1], descs, x');
          assert !ClosedAt(longer, descs, j + 1, x');
          assert !ClosedAt(calls, descs, j, x);
        }
      }
    }
    if OpenIn(calls, descs, x.call, i, x) && spared {
      forall k | x'.call <= k < i + 1 ensures !Closes(longer[k], descs, x') {
        if k > pos {
          assert !ClosedAt(calls, descs, k - 1, x);
          assert !ClosedAt(longer, descs, k - 1 + 1, x');
        }
      }
    }
  }

  predicate ClosedAt(calls: seq<Call>, descs: seq<SyscallDesc>, j: int, x: Ref)
    requires Indexed(calls, descs)
  {
    0 <= j < |calls| && Closes(calls[j], descs, x)
  }

  lemma OpenAfterInsert(calls: seq<Call>, descs: seq<SyscallDesc>, pos: nat, call: Call, i: nat, x: Ref)
    requires Indexed(calls, descs) && call.syscall < |descs| && Bounded(calls)
    requires pos <= i <= |calls| && x.call < USIZE_MAX
    ensures Indexed(Inserted(calls, pos, call), descs)
    ensures OpenIn(Inserted(calls, pos, call), descs, MovedByInsert(x, pos).call, i + 1, MovedByInsert(x, pos))
      <==> OpenIn(calls, descs, x.call, i, x) && (x.call < pos ==> !Closes(call, descs, x))
  {
    var longer, x' := Inserted(calls, pos, call), MovedByInsert(x, pos);
    MovedCall(x, pos);
    OpenAcrossInsert(calls, descs, pos, call, x);
    forall j | pos <= j < i ensures ClosedAt(longer, descs, j + 1, x') <==> ClosedAt(calls, descs, j, x) {
      ClosesAfterInsert(calls, descs, pos, call, j, x);
    }
    OpenFurther(calls, longer, descs, pos, i, x, x', x.call < pos ==> !Closes(call, descs, x));
  }

  lemma ClosesAfterInsert(calls: seq<Call>, descs: seq<SyscallDesc>, pos: nat, call: Call, i: nat, x: Ref)
    requires Indexed(calls, descs) && call.syscall < |descs| && Bounded(calls)
    requires pos <= i < |calls| && x.call < USIZE_MAX
    ensures Indexed(Inserted(calls, pos, call), descs)
    ensures Closes(Inserted(calls, pos, call)[i + 1], descs, MovedByInsert(x, pos)) <==> Closes(calls[i], descs, x)
  {
    assert calls[i] in calls;
    assert Inserted(calls, pos, call)[i + 1] == ShiftCallForInsert(calls[i], pos);
    InsertClosesSame(calls[i], descs, pos, x);
  }

  lemma SameProducer(calls: seq<Call>, longer: seq<Call>, descs: seq<SyscallDesc>, kind: string, x: Ref, x': Ref)
    requires Indexed(calls, descs) && Indexed(longer, descs) && x'.result == x.result
    requires x'.call < |longer| <==> x.call < |calls|
    requires x.call < |calls| ==> longer[x'.call].syscall == calls[x.call].syscall
    ensures Produces(longer, descs, kind, x') <==> Produces(calls, descs, kind, x)
  {
  }

  lemma InsertedIsIndexed(calls: seq<Call>, descs: seq<SyscallDesc>, pos: nat, call: Call)
    requires Indexed(calls, descs) && call.syscall < |descs| && pos <= |calls|
    ensures |Inserted(calls, pos, call)| == |calls| + 1 && Indexed(Inserted(calls, pos, call), descs)
  {
    assert Indexed(ShiftForInsert(calls, pos), descs);
  }

  lemma ProducedAfterInsert(calls: seq<Call>, descs: seq<SyscallDesc>, pos: nat, call: Call, kind: string, x: Ref)
    requires Indexed(calls, descs) && call.syscall < |descs| && pos <= |calls| && x.call < USIZE_MAX
    ensures Indexed(Inserted(calls, pos, call), descs)
    ensures Produces(Inserted(calls, pos, call), descs, kind, MovedByInsert(x, pos))
      <==> Produces(calls, descs, kind, x)
  {
    InsertedIsIndexed(calls, descs, pos, call);
    MovedCall(x, pos);
    if x.call < |calls| {
      InsertKeepsProducer(calls, pos, call, x);
    }
    SameProducer(calls, Inserted(calls, pos, call), descs, kind, x, MovedByInsert(x, pos));
  }

  lemma ScopeCarries(
    calls: seq<Call>, longer: seq<Call>, descs: seq<SyscallDesc>, i: nat, i': nat, kind: string, x: Ref, x': Ref,
    spared: bool)
    requires Indexed(calls, descs) && Indexed(longer, descs) && i <= |calls| && i' <= |longer|
    requires x'.call < i' <==> x.call < i
    requires Produces(longer, descs, kind, x') <==> Produces(calls, descs, kind, x)
    requires OpenIn(longer, descs, x'.call, i', x') <==> OpenIn(calls, descs, x.call, i, x) && spared
    ensures InScope(longer[..i'], descs, kind, x') <==> InScope(calls[..i], descs, kind, x) && spared
  {
    ScopeOfPrefix(calls, descs, i, kind, x);
    ScopeOfPrefix(longer, descs, i', kind, x');
  }

  /** A reference survives an inserted call exactly when that call does not close it. */
  lemma ScopeAfterInsert(calls: seq<Call>, descs: seq<SyscallDesc>, pos: nat, call: Call, i: nat, kind: string, x: Ref)
    requires Indexed(calls, descs) && call.syscall < |descs| && Bounded(calls)
    requires pos <= i <= |calls| && x.call < USIZE_MAX
    ensures Indexed(Inserted(calls, pos, call), descs)
    ensures InScope(Inserted(calls, pos, call)[..i + 1], descs, kind, MovedByInsert(x, pos))
      <==> InScope(calls[..i], descs, kind, x) && (x.call < pos ==> !Closes(call, descs, x))
  {
    OpenAfterInsert(calls, descs, pos, call, i, x);
    ProducedAfterInsert(calls, descs, pos, call, kind, x);
    MovedCall(x, pos);
    ScopeCarries(calls, Inserted(calls, pos, call), descs, i, i + 1, kind, x, MovedByInsert(x, pos),
                 x.call < pos ==> !Closes(call, descs, x));
  }

  lemma ScopeBeforeInsert(calls: seq<Call>, descs: seq<SyscallDesc>, pos: nat, call: Call, i: nat, kind: string, x: Ref)
    requires Indexed(calls, descs) && call.syscall < |descs| && Bounded(calls)
    requires i <= pos <= |calls| && x.call < i < USIZE_MAX
    ensures Indexed(Inserted(calls, pos, call), descs)
    ensures InScope(Inserted(calls, pos, call)[..i], descs, kind, x) <==> InScope(calls[..i], descs, kind, x)
  {
    OpenBeforeInsert(calls, descs, pos, call, i, x);
    ProducedAfterInsert(calls, descs, pos, call, kind, x);
    ScopeCarries(calls, Inserted(calls, pos, call), descs, i, i, kind, x, x, true);
  }

  lemma CallBeforeInsert(calls: seq<Call>, descs: seq<SyscallDesc>, pos: nat, call: Call, i: nat)
    requires Indexed(calls, descs) && call.syscall < |descs| && Bounded(calls) && |calls| < USIZE_MAX
    requires i < pos <= |calls| && CallInScope(calls[..i], calls[i], descs)
    ensures Indexed(Inserted(calls, pos, call), descs)
    ensures CallInScope(Inserted(calls, pos, call)[..i], Inserted(calls, pos, call)[i], descs)
  {
    var longer := Inserted(calls, pos, call);
    forall a: nat | a < |longer[i].args| && RefArg(longer[i], descs, a)
      ensures InScope(longer[..i], descs, descs[longer[i].syscall].args[a].resource.kind, longer[i].args[a].ref)
    {
      assert RefArg(calls[i], descs, a);
      var kind, x := descs[calls[i].syscall].args[a].resource.kind, calls[i].args[a].ref;
      assert InScope(calls[..i], descs, kind, x);
      ScopeBeforeInsert(calls, descs, pos, call, i, kind, x);
    }
  }

  /** The inserted call closes nothing that `user` refers to. */
  predicate Spares(call: Call, user: Call, descs: seq<SyscallDesc>, pos: nat)
    requires call.syscall < |descs| && user.syscall < |descs|
  {
    forall a: nat :: a < |user.args| && RefArg(user, descs, a) && user.args[a].ref.call < pos
      ==> !Closes(call, descs, user.args[a].ref)
  }

  lemma CallAfterInsert(calls: seq<Call>, descs: seq<SyscallDesc>, pos: nat, call: Call, i: nat)
    requires Indexed(calls, descs) && call.syscall < |descs| && Bounded(calls)
    requires pos <= i < |calls|
    ensures Indexed(Inserted(calls, pos, call), descs)
    ensures CallInScope(Inserted(calls, pos, call)[..i + 1], Inserted(calls, pos, call)[i + 1], descs)
      <==> CallInScope(calls[..i], calls[i], descs) && Spares(call, calls[i], descs, pos)
  {
    var longer := Inserted(calls, pos, call);
    assert longer[i + 1] == ShiftCallForInsert(calls[i], pos);
    assert Indexed(longer, descs);
    forall a: nat | a < |calls[i].args| && RefArg(calls[i], descs, a)
      ensures var kind, x := descs[calls[i].syscall].args[a].resource.kind, calls[i].args[a].ref;
        && RefArg(longer[i + 1], descs, a) && longer[i + 1].args[a].ref == MovedByInsert(x, pos)
        && (InScope(longer[..i + 1], descs, kind, longer[i + 1].args[a].ref)
            <==> InScope(calls[..i], descs, kind, x) && (x.call < pos ==> !Closes(call, descs, x)))
    {
      assert calls[i] in calls && calls[i].args[a] in calls[i].args;
      ScopeAfterInsert(calls, descs, pos, call, i, descs[calls[i].syscall].args[a].resource.kind, calls[i].args[a].ref);
    }
    assert forall a: nat :: a < |longer[i + 1].args| && RefArg(longer[i + 1], descs, a) ==> RefArg(calls[i], descs, a);
  }

  /** The inserted call fits where it lands and spares all later calls. */
  predicate Fits(calls: seq<Call>, descs: seq<SyscallDesc>, pos: nat, call: Call)
    requires Indexed(calls, descs) && call.syscall < |descs| && pos <= |calls|
  {
    && CallInScope(calls[..pos], call, descs)
    && forall i :: pos <= i < |calls| ==> Spares(call, calls[i], descs, pos)
  }

  lemma NewCallAt(calls: seq<Call>, pos: nat, call: Call)
    requires pos <= |calls|
    ensures |Inserted(calls, pos, call)| == |calls| + 1 && Inserted(calls, pos, call)[pos] == call
  {
  }

  lemma NewCallFits(calls: seq<Call>, descs: seq<SyscallDesc>, pos: nat, call: Call)
    requires Indexed(calls, descs) && call.syscall < |descs| && Bounded(calls) && pos <= |calls| < USIZE_MAX
    requires CallInScope(calls[..pos], call, descs)
    ensures Indexed(Inserted(calls, pos, call), descs)
    ensures CallInScope(Inserted(calls, pos, call)[..pos], Inserted(calls, pos, call)[pos], descs)
  {
    NewCallAt(calls, pos, call);
    InsertedCallInScope(calls, descs, pos, call);
  }

  lemma FittingCallAt(calls: seq<Call>, descs: seq<SyscallDesc>, pos: nat, call: Call, j: nat)
    requires Indexed(calls, descs) && call.syscall < |descs| && Bounded(calls) && |calls| < USIZE_MAX
    requires pos <= |calls| && j <= |calls| && CallInScope(calls[..pos], call, descs)
    requires j < pos ==> CallInScope(calls[..j], calls[j], descs)
    requires j > pos ==> CallInScope(calls[..j - 1], calls[j - 1], descs) && Spares(call, calls[j - 1], descs, pos)
    ensures Indexed(Inserted(calls, pos, call), descs)
    ensures CallInScope(Inserted(calls, pos, call)[..j], Inserted(calls, pos, call)[j], descs)
  {
    if j < pos {
      CallBeforeInsert(calls, descs, pos, call, j);
    } else if j == pos {
      NewCallFits(calls, descs, pos, call);
    } else {
      CallAfterInsert(calls, descs, pos, call, j - 1);
    }
  }

  lemma ScopedInsertFits(calls: seq<Call>, descs: seq<SyscallDesc>, pos: nat, call: Call)
    requires Indexed(calls, descs) && call.syscall < |descs| && Bounded(calls) && pos <= |calls| < USIZE_MAX
    requires Indexed(Inserted(calls, pos, call), descs) && WellScoped(Inserted(calls, pos, call), descs)
    ensures Fits(calls, descs, pos, call)
  {
    var longer := Inserted(calls, pos, call);
    InsertedCallInScope(calls, descs, pos, call);
    assert CallInScope(longer[..pos], longer[pos], descs);
    forall i | pos <= i < |calls| ensures Spares(call, calls[i], descs, pos) {
      assert CallInScope(longer[..i + 1], longer[i + 1], descs);
      CallAfterInsert(calls, descs, pos, call, i);
    }
  }

  /**
   Inserting into a well-scoped program leaves nothing to repair exactly when the new call's own references
   are in scope where it lands and it closes nothing that a later call still refers to.
   */
  lemma InsertNeedsNoRepair(calls: seq<Call>, descs: seq<SyscallDesc>, pos: nat, call: Call)
    requires Indexed(calls, descs) && call.syscall < |descs| && Bounded(calls) && |calls| < USIZE_MAX
    requires WellScoped(calls, descs) && pos <= |calls|
    ensures Indexed(Inserted(calls, pos, call), descs)
    ensures WellScoped(Inserted(calls, pos, call), descs) <==> Fits(calls, descs, pos, call)
  {
    var longer := Inserted(calls, pos, call);
    assert Indexed(longer, descs);
    if WellScoped(longer, descs) {
      ScopedInsertFits(calls, descs, pos, call);
    }
    if Fits(calls, descs, pos, call) {
      forall j | 0 <= j < |longer| ensures CallInScope(longer[..j], longer[j], descs) {
        FittingCallAt(calls, descs, pos, call, j);
      }
    }
  }

  lemma InsertedCallInScope(calls: seq<Call>, descs: seq<SyscallDesc>, pos: nat, call: Call)
    requires Indexed(calls, descs) && call.syscall < |descs| && Bounded(calls) && pos <= |calls| < USIZE_MAX
    ensures Indexed(Inserted(calls, pos, call), descs)
    ensures CallInScope(Inserted(calls, pos, call)[..pos], call, descs) <==> CallInScope(calls[..pos], call, descs)
  {
    forall kind, x
      ensures InScope(Inserted(calls, pos, call)[..pos], descs, kind, x) <==> InScope(calls[..pos], descs, kind, x)
    {
      if x.call < pos {
        ScopeBeforeInsert(calls, descs, pos, call, pos, kind, x);
      }
    }
  }

  // ---------------------------------------------------------------- scope after a removal

  lemma OpenAfterRemoval(calls: seq<Call>, descs: seq<SyscallDesc>, pos: nat, i: nat, x: Ref)
    requires Indexed(calls, descs) && Bounded(calls) && pos < |calls| && i <= |calls| && i != pos
    requires x.call < i && x.call != pos && x.call < USIZE_MAX && OpenIn(calls, descs, x.call, i, x)
    ensures Indexed(Removed(calls, pos), descs)
    ensures OpenIn(Removed(calls, pos), descs, MovedByRemoval(x, pos).call, if i < pos then i else i - 1,
                   MovedByRemoval(x, pos))
  {
    var shorter, x' := Removed(calls, pos), MovedByRemoval(x, pos);
    assert Indexed(shorter, descs);
    forall j' | x'.call <= j' < if i < pos then i else i - 1 ensures !Closes(shorter[j'], descs, x') {
      var j := if j' < pos then j' else j' + 1;
      assert calls[j] in calls;
      assert shorter[j'] == ShiftCallForRemoval(calls[j], pos);
      RemovalClosesSame(calls[j], descs, pos, x);
    }
  }

  lemma ScopeAfterRemoval(calls: seq<Call>, descs: seq<SyscallDesc>, pos: nat, i: nat, kind: string, x: Ref)
    requires Indexed(calls, descs) && Bounded(calls) && pos < |calls| && i < |calls| && i != pos
    requires x.call != pos && x.call < USIZE_MAX && InScope(calls[..i], descs, kind, x)
    ensures Indexed(Removed(calls, pos), descs)
    ensures InScope(Removed(calls, pos)[..if i < pos then i else i - 1], descs, kind, MovedByRemoval(x, pos))
  {
    ScopeOfPrefix(calls, descs, i, kind, x);
    OpenAfterRemoval(calls, descs, pos, i, x);
    ScopeOfPrefix(Removed(calls, pos), descs, if i < pos then i else i - 1, kind, MovedByRemoval(x, pos));
  }

  /** Some resource argument of `user` refers to the call at `pos`. */
  predicate Uses(user: Call, descs: seq<SyscallDesc>, pos: nat)
    requires user.syscall < |descs|
  {
    exists a: nat :: a < |user.args| && RefArg(user, descs, a) && user.args[a].ref.call == pos
  }

  lemma CallAfterRemoval(calls: seq<Call>, descs: seq<SyscallDesc>, pos: nat, i: nat)
    requires Indexed(calls, descs) && Bounded(calls) && pos < |calls| <= USIZE_MAX && i < |calls| && i != pos
    requires CallInScope(calls[..i], calls[i], descs)
    ensures Indexed(Removed(calls, pos), descs)
    ensures var i' := if i < pos then i else i - 1;
      CallInScope(Removed(calls, pos)[..i'], Removed(calls, pos)[i'], descs) <==> !Uses(calls[i], descs, pos)
  {
    var shorter, i' := Removed(calls, pos), if i < pos then i else i - 1;
    assert shorter[i'] == ShiftCallForRemoval(calls[i], pos);
    forall a: nat | a < |calls[i].args| && RefArg(calls[i], descs, a)
      ensures var kind, x := descs[calls[i].syscall].args[a].resource.kind, calls[i].args[a].ref;
        && RefArg(shorter[i'], descs, a)
        && (InScope(shorter[..i'], descs, kind, shorter[i'].args[a].ref) <==> x.call != pos)
    {
      var kind, x := descs[calls[i].syscall].args[a].resource.kind, calls[i].args[a].ref;
      assert InScope(calls[..i], descs, kind, x);
      if x.call != pos {
        ScopeAfterRemoval(calls, descs, pos, i, kind, x);
      }
    }
    assert forall a: nat :: a < |shorter[i'].args| && RefArg(shorter[i'], descs, a) ==> RefArg(calls[i], descs, a);
  }

  /** Nothing else in the program refers to the call at `pos`. */
  predicate Unused(calls: seq<Call>, descs: seq<SyscallDesc>, pos: nat)
    requires Indexed(calls, descs)
  {
    forall i :: 0 <= i < |calls| && i != pos ==> !Uses(calls[i], descs, pos)
  }

  lemma UnusedRemovalAt(calls: seq<Call>, descs: seq<SyscallDesc>, pos: nat, j: nat)
    requires Indexed(calls, descs) && Bounded(calls) && WellScoped(calls, descs) && pos < |calls| <= USIZE_MAX
    requires Unused(calls, descs, pos) && j < |calls| - 1
    ensures Indexed(Removed(calls, pos), descs)
    ensures CallInScope(Removed(calls, pos)[..j], Removed(calls, pos)[j], descs)
  {
    var i := if j < pos then j else j + 1;
    assert !Uses(calls[i], descs, pos);
    assert CallInScope(calls[..i], calls[i], descs);
    CallAfterRemoval(calls, descs, pos, i);
  }

  lemma ScopedRemovalIsUnused(calls: seq<Call>, descs: seq<SyscallDesc>, pos: nat)
    requires Indexed(calls, descs) && Bounded(calls) && WellScoped(calls, descs) && pos < |calls| <= USIZE_MAX
    requires Indexed(Removed(calls, pos), descs) && WellScoped(Removed(calls, pos), descs)
    ensures Unused(calls, descs, pos)
  {
    forall i | 0 <= i < |calls| && i != pos ensures !Uses(calls[i], descs, pos) {
      var j := if i < pos then i else i - 1;
      assert CallInScope(Removed(calls, pos)[..j], Removed(calls, pos)[j], descs);
      assert CallInScope(calls[..i], calls[i], descs);
      CallAfterRemoval(calls, descs, pos, i);
    }
  }

  /** Removing a call from a well-scoped program leaves nothing to repair exactly when nothing used its results. */
  lemma RemovalNeedsNoRepair(calls: seq<Call>, descs: seq<SyscallDesc>, pos: nat)
    requires Indexed(calls, descs) && Bounded(calls) && WellScoped(calls, descs) && pos < |calls| <= USIZE_MAX
    ensures Indexed(Removed(calls, pos), descs)
    ensures WellScoped(Removed(calls, pos), descs) <==> Unused(calls, descs, pos)
  {
    var shorter := Removed(calls, pos);
    assert Indexed(shorter, descs);
    if WellScoped(shorter, descs) {
      ScopedRemovalIsUnused(calls, descs, pos);
    }
    if Unused(calls, descs, pos) {
      forall j | 0 <= j < |shorter| ensures CallInScope(shorter[..j], shorter[j], descs) {
        UnusedRemovalAt(calls, descs, pos, j);
      }
    }
  }
}
