/** Assigning a product to one step of a skincare routine
    (back-end/controller/skincare-routine.controller.js). */
module Routines {
  import opened Wrappers
  import opened Store

  /** `steps.find(step => step.stepNumber === n)`, as a position. */
  function FirstStep(steps: seq<RoutineStep>, n: int): (r: Option<nat>)
    ensures r.None? <==> forall i :: 0 <= i < |steps| ==> steps[i].stepNumber != n
    ensures r.Some? ==> r.value < |steps| && steps[r.value].stepNumber == n
    ensures r.Some? ==> forall i :: 0 <= i < r.value ==> steps[i].stepNumber != n
  {
    if |steps| == 0 then None
    else if steps[0].stepNumber == n then Some(0)
    else
      match FirstStep(steps[1..], n)
      case None => None
      case Some(k) => Some(k + 1)
  }

  datatype AssignReply = RoutineNotFound | StepNotFound | ProductAssigned
  {
    function Code(): int
    {
      match this
      case RoutineNotFound => 400
      case StepNotFound => 400
      case ProductAssigned => 201
    }
  }

  /** `addProductToSkincareRoutine` with the path's step number after
      `parseInt`.  Neither 400 returns: the handler falls through to a
      property access on the missing routine or step, which throws before
      any save, so the client sees the 400 and the store is unchanged.
      The product id is not checked against the products. */
  function AssignProduct(st: Store, routineId: Id, stepNumber: int, productId: Id): (o: Outcome<AssignReply>)
    ensures o.reply == RoutineNotFound <==> routineId !in st.routines
    ensures o.reply == StepNotFound <==>
      routineId in st.routines && FirstStep(st.routines[routineId].steps, stepNumber).None?
    ensures o.reply != ProductAssigned ==> o.store == st
    ensures o.reply == ProductAssigned ==>
      var r := st.routines[routineId];
      var k := FirstStep(r.steps, stepNumber).value;
      && o.store == st.(routines := o.store.routines)
      && o.store.routines.Keys == st.routines.Keys
      && (forall id :: id in st.routines && id != routineId ==> o.store.routines[id] == st.routines[id])
      && o.store.routines[routineId].name == r.name
      && o.store.routines[routineId].skinType == r.skinType
      && |o.store.routines[routineId].steps| == |r.steps|
      && o.store.routines[routineId].steps[k] == r.steps[k].(product := Some(productId))
      && (forall i :: 0 <= i < |r.steps| && i != k ==> o.store.routines[routineId].steps[i] == r.steps[i])
  {
    if routineId !in st.routines then Outcome(st, RoutineNotFound)
    else
      var r := st.routines[routineId];
      match FirstStep(r.steps, stepNumber)
      case None => Outcome(st, StepNotFound)
      case Some(k) =>
        var steps := r.steps[k := r.steps[k].(product := Some(productId))];
        Outcome(st.(routines := st.routines[routineId := r.(steps := steps)]), ProductAssigned)
  }

  /** After the assignment, the step found by that number holds the product. */
  lemma AssignedStepHoldsProduct(st: Store, routineId: Id, stepNumber: int, productId: Id)
    requires routineId in st.routines
    requires FirstStep(st.routines[routineId].steps, stepNumber).Some?
    ensures var st1 := AssignProduct(st, routineId, stepNumber, productId).store;
      var k := FirstStep(st1.routines[routineId].steps, stepNumber);
      k.Some? && st1.routines[routineId].steps[k.value].product == Some(productId)
  {
    var k := FirstStep(st.routines[routineId].steps, stepNumber).value;
    var st1 := AssignProduct(st, routineId, stepNumber, productId).store;
    FirstStepUnchanged(st.routines[routineId].steps, st1.routines[routineId].steps, stepNumber);
  }

  /** Changing the products of steps does not move the first step with a
      given number. */
  lemma {:induction false} FirstStepUnchanged(a: seq<RoutineStep>, b: seq<RoutineStep>, n: int)
    requires |a| == |b|
    requires forall i :: 0 <= i < |a| ==> a[i].stepNumber == b[i].stepNumber
    ensures FirstStep(a, n) == FirstStep(b, n)
    decreases |a|
  {
    if |a| > 0 && a[0].stepNumber != n {
      FirstStepUnchanged(a[1..], b[1..], n);
    }
  }

  /** With two steps sharing a number, only the first gets the product. */
  lemma DuplicateStepNumberOnlyFirst(st: Store, routineId: Id, stepNumber: int, productId: Id, i: nat, j: nat)
    requires routineId in st.routines
    requires i < j < |st.routines[routineId].steps|
    requires st.routines[routineId].steps[i].stepNumber == stepNumber
    requires st.routines[routineId].steps[j].stepNumber == stepNumber
    ensures AssignProduct(st, routineId, stepNumber, productId).store.routines[routineId].steps[j] ==
      st.routines[routineId].steps[j]
  {
    var k := FirstStep(st.routines[routineId].steps, stepNumber);
    assert k.Some? && k.value <= i;
  }

  /** Assigning the same product twice is assigning it once. */
  lemma AssignIdempotent(st: Store, routineId: Id, stepNumber: int, productId: Id)
    ensures var st1 := AssignProduct(st, routineId, stepNumber, productId).store;
      AssignProduct(st1, routineId, stepNumber, productId).store == st1
  {
    var o := AssignProduct(st, routineId, stepNumber, productId);
    if o.reply == ProductAssigned {
      var st1 := o.store;
      var k := FirstStep(st.routines[routineId].steps, stepNumber).value;
      FirstStepUnchanged(st.routines[routineId].steps, st1.routines[routineId].steps, stepNumber);
      var r1 := st1.routines[routineId];
      assert r1.steps[k := r1.steps[k].(product := Some(productId))] == r1.steps;
      assert r1.(steps := r1.steps) == r1;
      assert st1.routines[routineId := r1] == st1.routines;
    }
  }
}
