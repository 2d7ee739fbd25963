/**
 Container operations: at most one per container, held in a table of slots, each with a 30 second timer. Creating one
 takes two locked blocks, so creations, completions and timers interleave. An operation is identified by its position
 in the list of all operations ever created, which stands for its address.
 */
module ContainerOperations {
  import opened Prelude

  /** The timer goroutine: waiting, past its 30 seconds but not yet in Done, or finished. */
  datatype Timer = Armed | Expired | Gone

  // `closes` counts how often chanDone was closed; `err` is None for nil
  datatype Op = Op(action: string, id: int, reusable: bool, closes: nat, err: Option<string>, timer: Timer)

  datatype Wish = Wish(id: int, action: string, reusable: bool)

  /** `looked` holds the createOperation calls between their two locked blocks. */
  datatype Table = Table(ops: seq<Op>, slots: map<int, nat>, looked: map<nat, Wish>)

  const TIMED_OUT := "timed out after 30 seconds"

  datatype Step =
    | Look(thread: nat, wish: Wish)
    | Insert(thread: nat)
    | Reset(op: nat)
    | Done(op: nat, err: Option<string>)
    | Expire(op: nat)
    | TimerDone(op: nat)

  /** Done's locked block: only the operation in its own slot is completed. */
  function Complete(t: Table, op: nat, err: Option<string>): Table
    requires op < |t.ops|
  {
    var id := t.ops[op].id;
    if id !in t.slots || t.slots[id] != op then t
    else t.(ops := t.ops[op := t.ops[op].(err := err, closes := t.ops[op].closes + 1)], slots := t.slots - {id})
  }

  predicate Enabled(t: Table, step: Step) {
    match step
    case Look(thread, wish) => thread !in t.looked
    case Insert(thread) => thread in t.looked
    case Reset(op) => op < |t.ops| && t.ops[op].reusable && t.ops[op].timer.Armed?
    case Done(op, err) => op < |t.ops|
    case Expire(op) => op < |t.ops| && t.ops[op].timer.Armed?
    case TimerDone(op) => op < |t.ops| && t.ops[op].timer.Expired?
  }

  function Apply(t: Table, step: Step): Table
    requires Enabled(t, step)
  {
    match step
    case Look(thread, wish) => if wish.id in t.slots then t else t.(looked := t.looked[thread := wish])
    case Insert(thread) =>
      var wish := t.looked[thread];
      t.(ops := t.ops + [Op(wish.action, wish.id, wish.reusable, 0, None, Armed)],
         slots := t.slots[wish.id := |t.ops|],
         looked := t.looked - {thread})
    case Reset(op) => t
    case Done(op, err) => Complete(t, op, err)
    case Expire(op) => t.(ops := t.ops[op := t.ops[op].(timer := Expired)])
    case TimerDone(op) =>
      var u := Complete(t, op, Some(TIMED_OUT));
      u.(ops := u.ops[op := u.ops[op].(timer := Gone)])
  }

  ghost predicate Runs(t: Table, steps: seq<Step>)
    decreases |steps|
  {
    steps == [] || (Enabled(t, steps[0]) && Runs(Apply(t, steps[0]), steps[1..]))
  }

  ghost function After(t: Table, steps: seq<Step>): Table
    requires Runs(t, steps)
    decreases |steps|
  {
    if steps == [] then t else After(Apply(t, steps[0]), steps[1..])
  }

  const EMPTY := Table([], map[], map[])

  // ----- invariants ------------------------------------------------------------------------------------------------

  predicate Holds(t: Table, op: nat) {
    op < |t.ops| && t.ops[op].id in t.slots && t.slots[t.ops[op].id] == op
  }

  /** A slot holds an open operation of its own container whose timeout is still to come; nothing closes twice. */
  ghost predicate Inv(t: Table) {
    && (forall id :: id in t.slots ==> t.slots[id] < |t.ops| && t.ops[t.slots[id]].id == id)
    && (forall op :: 0 <= op < |t.ops| ==> t.ops[op].closes <= 1)
    && (forall op :: 0 <= op < |t.ops| && Holds(t, op) ==> t.ops[op].closes == 0 && !t.ops[op].timer.Gone?)
  }

  /** Nothing but the timer of a closed operation ever changes, and it never comes back to its slot. */
  predicate Kept(t: Table, u: Table, op: nat) {
    && op < |t.ops| && op < |u.ops|
    && u.ops[op].(timer := Armed) == t.ops[op].(timer := Armed)
    && !Holds(u, op)
  }

  lemma StepKeepsInv(t: Table, step: Step)
    requires Inv(t) && Enabled(t, step)
    ensures Inv(Apply(t, step)) && |t.ops| <= |Apply(t, step).ops|
  {
    var u := Apply(t, step);
    forall op | 0 <= op < |u.ops|
      ensures u.ops[op].closes <= 1
      ensures Holds(u, op) ==> u.ops[op].closes == 0 && !u.ops[op].timer.Gone?
    {
      if op < |t.ops| {
        assert t.ops[op].closes <= 1;
        assert Holds(t, op) ==> t.ops[op].closes == 0 && !t.ops[op].timer.Gone?;
      }
    }
  }

  lemma StepKeepsLost(t: Table, step: Step, op: nat)
    requires Inv(t) && Enabled(t, step) && op < |t.ops| && !Holds(t, op)
    ensures Kept(t, Apply(t, step), op)
  {
  }

  lemma {:induction false} RunKeepsInv(t: Table, steps: seq<Step>)
    requires Inv(t) && Runs(t, steps)
    ensures Inv(After(t, steps))
    decreases |steps|
  {
    if steps != [] {
      StepKeepsInv(t, steps[0]);
      RunKeepsInv(Apply(t, steps[0]), steps[1..]);
    }
  }

  /**
   Across all interleavings an operation's channel is closed at most once, and an operation in its slot is open with
   its timeout still ahead, so that the slot is bound to be freed.
   */
  lemma ClosedAtMostOnce(steps: seq<Step>, op: nat)
    requires Runs(EMPTY, steps) && op < |After(EMPTY, steps).ops|
    ensures var t := After(EMPTY, steps);
            && t.ops[op].closes <= 1
            && (Holds(t, op) ==> t.ops[op].closes == 0 && !t.ops[op].timer.Gone?)
  {
    RunKeepsInv(EMPTY, steps);
  }

  /**
   Once an operation has lost its slot nothing changes about it but its timer: a closed one keeps its error and is
   never closed again, and one overwritten by a racing creation stays open, so that its waiters wait for ever.
   */
  lemma {:induction false} OutOfSlotForEver(t: Table, steps: seq<Step>, op: nat)
    requires Inv(t) && Runs(t, steps) && op < |t.ops| && !Holds(t, op)
    ensures Kept(t, After(t, steps), op)
    decreases |steps|
  {
    if steps != [] {
      StepKeepsInv(t, steps[0]);
      StepKeepsLost(t, steps[0], op);
      OutOfSlotForEver(Apply(t, steps[0]), steps[1..], op);
    }
  }

  /** The completion of the operation in a slot records its error, closes its channel and frees the slot. */
  lemma CompletionRecords(t: Table, op: nat, err: Option<string>)
    requires Inv(t) && op < |t.ops| && t.ops[op].id in t.slots && t.slots[t.ops[op].id] == op
    ensures var u := Apply(t, Done(op, err));
            && u.ops[op].err == err && u.ops[op].closes == 1 && u.ops[op].timer == t.ops[op].timer
            && u.slots == t.slots - {t.ops[op].id}
    ensures t.ops[op].timer.Expired? ==>
              var u := Apply(t, TimerDone(op));
              && u.ops[op].err == Some("timed out after 30 seconds") && u.ops[op].closes == 1 && u.ops[op].timer.Gone?
              && u.slots == t.slots - {t.ops[op].id}
  {
  }

  /** A completion can come at any time, a timeout once, and a reset while the timer runs. */
  lemma StepsComeWhen(t: Table, op: nat, err: Option<string>)
    requires op < |t.ops|
    ensures Enabled(t, Done(op, err))
    ensures Enabled(t, Expire(op)) <==> t.ops[op].timer == Armed
    ensures Enabled(t, TimerDone(op)) <==> t.ops[op].timer == Expired
    ensures Enabled(t, Reset(op)) <==> t.ops[op].reusable && t.ops[op].timer == Armed
  {
  }

  /** Looking finds a taken slot, resetting and expiring touch no slot, and inserting takes the slot whatever holds it. */
  lemma OtherStepsAre(t: Table, thread: nat, wish: Wish, op: nat)
    ensures Enabled(t, Look(thread, wish)) ==>
              && (thread in Apply(t, Look(thread, wish)).looked <==> wish.id !in t.slots)
              && Apply(t, Look(thread, wish)).ops == t.ops && Apply(t, Look(thread, wish)).slots == t.slots
    ensures Enabled(t, Reset(op)) ==> Apply(t, Reset(op)).slots == t.slots && Apply(t, Reset(op)).ops == t.ops
    ensures Enabled(t, Expire(op)) ==>
              && Apply(t, Expire(op)).slots == t.slots && Apply(t, Expire(op)).ops[op].closes == t.ops[op].closes
              && Apply(t, Expire(op)).ops[op].timer.Expired?
    ensures thread in t.looked ==>
              var u := Apply(t, Insert(thread));
              && u.slots == t.slots[t.looked[thread].id := |t.ops|] && |u.ops| == |t.ops| + 1
              && u.ops[|t.ops|].action == t.looked[thread].action && u.ops[|t.ops|].closes == 0
              && u.ops[|t.ops|].reusable == t.looked[thread].reusable && u.ops[|t.ops|].timer.Armed?
  {
  }

  /** A late completion or timer of an operation that lost its slot leaves every slot and every other operation alone. */
  lemma StaleCompletion(t: Table, step: Step)
    requires Inv(t) && Enabled(t, step) && (step.Done? || step.TimerDone?) && !Holds(t, step.op)
    ensures var u := Apply(t, step);
            && u.slots == t.slots && |u.ops| == |t.ops|
            && u.ops[step.op].(timer := t.ops[step.op].timer) == t.ops[step.op]
            && forall op :: 0 <= op < |t.ops| && op != step.op ==> u.ops[op] == t.ops[op]
  {
  }

  /** An operation loses its slot only by being completed, once, or by a creation that looked before it came. */
  lemma SlotLostOnlyBy(t: Table, step: Step, op: nat)
    requires Inv(t) && Enabled(t, step) && Holds(t, op)
    ensures var u := Apply(t, step);
            !Holds(u, op) <==>
            || (step.Insert? && t.looked[step.thread].id == t.ops[op].id)
            || ((step.Done? || step.TimerDone?) && step.op == op)
    ensures (step.Done? || step.TimerDone?) && step.op == op ==>
              Apply(t, step).ops[op].closes == 1 && t.ops[op].id !in Apply(t, step).slots
  {
  }

  predicate TakesSlot(t: Table, step: Step, op: nat)
    requires Enabled(t, step) && op < |t.ops|
  {
    || (step.Insert? && t.looked[step.thread].id == t.ops[op].id)
    || ((step.Done? || step.TimerDone?) && step.op == op)
  }

  ghost predicate NeverTaken(t: Table, steps: seq<Step>, op: nat)
    requires Runs(t, steps) && op < |t.ops|
    decreases |steps|
  {
    steps == [] ||
    (!TakesSlot(t, steps[0], op) && op < |Apply(t, steps[0]).ops| && NeverTaken(Apply(t, steps[0]), steps[1..], op))
  }

  /** Whatever older operations and their timers do, the operation in the slot stays there, open. */
  lemma {:induction false} HeldUntilTaken(t: Table, steps: seq<Step>, op: nat)
    requires Inv(t) && Runs(t, steps) && Holds(t, op) && NeverTaken(t, steps, op)
    ensures Holds(After(t, steps), op) && After(t, steps).ops[op].closes == 0
    decreases |steps|
  {
    if steps != [] {
      StepKeepsInv(t, steps[0]);
      SlotLostOnlyBy(t, steps[0], op);
      HeldUntilTaken(Apply(t, steps[0]), steps[1..], op);
    }
  }

  /** Every open operation holds its slot: nobody waits in vain. */
  ghost predicate NoOrphan(t: Table) {
    forall op :: 0 <= op < |t.ops| && t.ops[op].closes == 0 ==> Holds(t, op)
  }

  /** A step orphans an operation exactly when a creation inserts into a slot that filled up since it looked. */
  lemma OrphanedIff(t: Table, step: Step)
    requires Inv(t) && NoOrphan(t) && Enabled(t, step)
    ensures NoOrphan(Apply(t, step)) <==> !(step.Insert? && t.looked[step.thread].id in t.slots)
  {
    var u := Apply(t, step);
    if step.Insert? && t.looked[step.thread].id in t.slots {
      var op := t.slots[t.looked[step.thread].id];
      assert Holds(t, op);
      assert u.ops[op].closes == 0 && !Holds(u, op);
    } else {
      forall op | 0 <= op < |u.ops| && u.ops[op].closes == 0
        ensures Holds(u, op)
      {
        if op < |t.ops| {
          assert t.ops[op].closes == 0;
          assert Holds(t, op);
        }
      }
    }
  }

  /** No creation inserts into a slot that filled up since it looked. */
  ghost predicate NoRace(t: Table, steps: seq<Step>)
    requires Runs(t, steps)
    decreases |steps|
  {
    steps == [] ||
    (!(steps[0].Insert? && t.looked[steps[0].thread].id in t.slots) && NoRace(Apply(t, steps[0]), steps[1..]))
  }

  ghost predicate OpenIffHeld(t: Table) {
    forall op :: 0 <= op < |t.ops| ==> (t.ops[op].closes == 0 <==> Holds(t, op))
  }

  /** Without such a race, an operation is open exactly as long as it holds its slot, in every run. */
  lemma {:induction false} OpenWhileHeld(t: Table, steps: seq<Step>)
    requires Inv(t) && NoOrphan(t) && Runs(t, steps) && NoRace(t, steps)
    ensures OpenIffHeld(After(t, steps))
    decreases |steps|
  {
    if steps != [] {
      StepKeepsInv(t, steps[0]);
      OrphanedIff(t, steps[0]);
      OpenWhileHeld(Apply(t, steps[0]), steps[1..]);
    } else {
      forall op | 0 <= op < |t.ops|
        ensures t.ops[op].closes == 0 <==> Holds(t, op)
      {
        if Holds(t, op) { assert t.ops[op].closes == 0; }
      }
    }
  }

  // ----- the table -------------------------------------------------------------------------------------------------

  datatype Error = Busy(action: string) | NotReusable | NoOperation | OtherAction(action: string)

  datatype Outcome = Created(op: nat) | Reused(op: nat) | Refused(error: Error)

  class Operations {
    var ops: seq<Op>
    var slots: map<int, nat>
    ghost var looked: map<nat, Wish>

    ghost function State(): Table
      reads this
    {
      Table(ops, slots, looked)
    }

    constructor ()
      ensures State() == EMPTY
    {
      ops, slots, looked := [], map[], map[];
    }

    /** getOperation: the operation in the slot, if it is of the wanted kind; the empty action matches any. */
    method Get(id: int, action: string) returns (op: Option<nat>, error: Option<Error>)
      requires Inv(State())
      ensures op.Some? <==> id in slots && (action == "" || ops[slots[id]].action == action)
      ensures op.Some? ==> op.value == slots[id] && Holds(State(), op.value) && error.None?
      ensures op.None? ==> error == Some(if id in slots then OtherAction(ops[slots[id]].action) else NoOperation)
    {
      if id !in slots {
        return None, Some(NoOperation);
      }
      if action != "" && ops[slots[id]].action != action {
        return None, Some(OtherAction(ops[slots[id]].action));
      }
      return Some(slots[id]), None;
    }

    /** The second locked block of createOperation: insert unconditionally. */
    method InsertNew(ghost thread: nat, wish: Wish) returns (op: nat)
      requires Inv(State()) && thread in looked && looked[thread] == wish
      modifies this
      ensures Inv(State()) && State() == Apply(old(State()), Insert(thread))
      ensures op == |old(ops)| && Holds(State(), op)
      ensures ops == old(ops) + [Op(wish.action, wish.id, wish.reusable, 0, None, Armed)]
      ensures slots == old(slots)[wish.id := op]
    {
      StepKeepsInv(State(), Insert(thread));
      op := |ops|;
      ops := ops + [Op(wish.action, wish.id, wish.reusable, 0, None, Armed)];
      slots := slots[wish.id := op];
      looked := looked - {thread};
    }

    /**
     createOperation run without interference: it refuses when the slot is taken, unless the operation there may be
     reused, and otherwise fills the slot.
     */
    method Create(ghost thread: nat, wish: Wish, reuse: bool) returns (r: Outcome)
      requires Inv(State()) && thread !in looked
      modifies this
      ensures Inv(State()) && looked == old(looked)
      ensures r.Created? <==> wish.id !in old(slots)
      ensures r.Created? ==>
                && Holds(State(), r.op) && r.op == |old(ops)| && State().ops[..r.op] == old(ops)
                && slots == old(slots)[wish.id := r.op]
                && ops[r.op] == Op(wish.action, wish.id, wish.reusable, 0, None, Armed)
      ensures r.Reused? <==> wish.id in old(slots) && reuse && old(ops)[old(slots)[wish.id]].reusable
      ensures r.Reused? ==> r.op == old(slots)[wish.id] && Holds(State(), r.op)
      ensures !r.Created? ==> State() == old(State())
      ensures r.Refused? ==> r.error == Busy(old(ops)[old(slots)[wish.id]].action)
    {
      var found, _ := Get(wish.id, "");
      if found.Some? {
        if reuse && ops[found.value].reusable {
          return Reused(found.value);
        }
        return Refused(Busy(ops[found.value].action));
      }
      looked := looked[thread := wish];
      var op := InsertNew(thread, wish);
      assert looked == old(looked);
      return Created(op);
    }

    /** Done, by the operation's owner or its timer; closing twice would panic, and never happens. */
    method Finish(op: nat, err: Option<string>)
      requires Inv(State()) && op < |ops|
      modifies this
      ensures Inv(State()) && State() == Apply(old(State()), Done(op, err))
      ensures looked == old(looked)
      ensures var id := old(ops)[op].id;
              if id in old(slots) && old(slots)[id] == op then
                && ops[op].err == err && ops[op].closes == 1 && slots == old(slots) - {id}
                && |ops| == |old(ops)| && forall k :: 0 <= k < |ops| && k != op ==> ops[k] == old(ops)[k]
              else ops == old(ops) && slots == old(slots)
    {
      StepKeepsInv(State(), Done(op, err));
      var id := ops[op].id;
      if id !in slots || slots[id] != op {
        return;
      }
      assert Holds(State(), op) && ops[op].closes == 0;
      ops := ops[op := ops[op].(err := err, closes := ops[op].closes + 1)];
      slots := slots - {id};
    }
  }
}
