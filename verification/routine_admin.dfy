/** The admin's routine page: the skin-type filter, the step-to-category
    map that picks the products offered for a step, and the local update
    after a product is assigned
    (front-end/my-app/src/pages/admin/SkincareRoutineManagement.jsx and
    front-end/my-app/src/pages/admin/StepProducts.jsx). */
module RoutineAdmin {
  import opened Wrappers
  import opened Strings
  import opened Store
  import opened Lists
  import Products
  import Routines

  /** A routine as the page holds it; the skin type is populated with its
      name, and a step's product is identified by its id. */
  datatype ShownRoutine = ShownRoutine(id: Id, name: string, skinTypeName: Option<string>,
                                       steps: seq<RoutineStep>)

  /** The page's copy of a stored routine; `skinNames` is the skin-type
      collection the server populates from. */
  function Shown(id: Id, r: Routine, skinNames: map<Id, string>): (s: ShownRoutine)
    ensures s.id == id && s.name == r.name && s.steps == r.steps
    ensures s.skinTypeName.Some? <==> r.skinType.Some? && r.skinType.value in skinNames
  {
    var skin := if r.skinType.Some? && r.skinType.value in skinNames then Some(skinNames[r.skinType.value]) else None;
    ShownRoutine(id, r.name, skin, r.steps)
  }

  // ---------------------------------------------------------------------
  // Skin-type filter
  // ---------------------------------------------------------------------

  function SkinTypeIs(selected: string): ShownRoutine -> bool
  {
    (r: ShownRoutine) => r.skinTypeName.Some? && Lower(r.skinTypeName.value) == selected
  }

  /** `filteredRoutines`: everything while no skin type is selected,
      otherwise the routines whose populated skin-type name, lower-cased,
      equals the selection. */
  function FilterBySkinType(routines: seq<ShownRoutine>, selected: string): (r: seq<ShownRoutine>)
    ensures selected == "" ==> r == routines
    ensures selected != "" ==> forall i :: 0 <= i < |r| ==>
      r[i] in routines && r[i].skinTypeName.Some? && Lower(r[i].skinTypeName.value) == selected
    ensures selected != "" ==> forall i :: 0 <= i < |routines| && SkinTypeIs(selected)(routines[i]) ==> routines[i] in r
  {
    if selected == "" then routines else Filter(routines, SkinTypeIs(selected))
  }

  /** Only a lower-case selection can match: one with an upper-case letter
      selects no routine, whatever the names' case. */
  lemma UpperCaseSelectionMatchesNothing(routines: seq<ShownRoutine>, selected: string, k: int)
    requires 0 <= k < |selected| && IsUpper(selected[k])
    ensures FilterBySkinType(routines, selected) == []
  {
    assert selected != "";
    forall i | 0 <= i < |routines| ensures !SkinTypeIs(selected)(routines[i]) {
      NoUpperCaseMatch(routines[i], selected, k);
    }
    FilterKeepsNone(routines, SkinTypeIs(selected));
  }

  lemma NoUpperCaseMatch(x: ShownRoutine, selected: string, k: int)
    requires 0 <= k < |selected| && IsUpper(selected[k])
    ensures !SkinTypeIs(selected)(x)
  {
    if x.skinTypeName.Some? && |x.skinTypeName.value| == |selected| {
      assert Lower(x.skinTypeName.value)[k] != selected[k];
    }
  }

  /** Choosing a skin type twice in a row shows the same routines. */
  lemma FilterBySkinTypeIdempotent(routines: seq<ShownRoutine>, selected: string)
    ensures FilterBySkinType(FilterBySkinType(routines, selected), selected) ==
      FilterBySkinType(routines, selected)
  {
    if selected != "" {
      FilterIdempotent(routines, SkinTypeIs(selected));
    }
  }

  // ---------------------------------------------------------------------
  // The products offered for a step
  // ---------------------------------------------------------------------

  /** `categoryMap[step.stepNumber]`: steps 1 to 5 map to a product
      category, any other number to `undefined`. */
  function CategoryForStep(stepNumber: int): (c: Option<string>)
    ensures c.Some? <==> 1 <= stepNumber <= 5
  {
    match stepNumber
    case 1 => Some("cleanser")
    case 2 => Some("toner")
    case 3 => Some("serum")
    case 4 => Some("moisturizer")
    case 5 => Some("sunscreen")
    case _ => None
  }

  /** Different steps list different categories. */
  lemma CategoryForStepInjective(a: int, b: int)
    requires CategoryForStep(a).Some? && CategoryForStep(a) == CategoryForStep(b)
    ensures a == b
  {
  }

  // ---------------------------------------------------------------------
  // Assigning a product on the page
  // ---------------------------------------------------------------------

  /** `updateRoutine`'s step map: every step with the updated step's
      number is replaced by it. */
  function ReplaceSteps(steps: seq<RoutineStep>, updated: RoutineStep): (r: seq<RoutineStep>)
    ensures |r| == |steps|
    ensures forall i :: 0 <= i < |steps| && steps[i].stepNumber == updated.stepNumber ==> r[i] == updated
    ensures forall i :: 0 <= i < |steps| && steps[i].stepNumber != updated.stepNumber ==> r[i] == steps[i]
  {
    Map(steps, (s: RoutineStep) => if s.stepNumber == updated.stepNumber then updated else s)
  }

  /** `updateRoutine`: the routine with that id gets its matching steps
      replaced; every other routine is kept. */
  function UpdateRoutine(routines: seq<ShownRoutine>, routineId: Id, updated: RoutineStep): (r: seq<ShownRoutine>)
    ensures |r| == |routines|
    ensures forall i :: 0 <= i < |routines| && routines[i].id != routineId ==> r[i] == routines[i]
    ensures forall i :: 0 <= i < |routines| && routines[i].id == routineId ==>
      r[i] == routines[i].(steps := ReplaceSteps(routines[i].steps, updated))
  {
    Map(routines, (s: ShownRoutine) =>
      if s.id == routineId then s.(steps := ReplaceSteps(s.steps, updated)) else s)
  }

  /** `products.find(p => p.id === selectedProduct)`, by its id. */
  function FindProduct(products: seq<Products.ProductSummary>, selected: Id): (r: Option<Id>)
    ensures r.Some? <==> exists i :: 0 <= i < |products| && products[i].id == selected
    ensures r.Some? ==> r.value == selected
  {
    if products == [] then None
    else if products[0].id == selected then Some(selected)
    else
      var r := FindProduct(products[1..], selected);
      assert (exists i :: 0 <= i < |products| && products[i].id == selected) ==> r.Some? by {
        if exists i :: 0 <= i < |products| && products[i].id == selected {
          var i :| 0 <= i < |products| && products[i].id == selected;
          assert products[1..][i - 1].id == selected;
        }
      }
      r
  }

  /** The routine list together with the step's product selection. */
  datatype Picker = Picker(routines: seq<ShownRoutine>, selected: Id)

  /** `handleAddProduct`: nothing with no product selected or when the
      request fails; otherwise the step is updated locally with the product
      found in the offered list (`undefined` when it is not there) and the
      selection is cleared. */
  function AddToStep(routines: seq<ShownRoutine>, routineId: Id, step: RoutineStep, selected: Id,
                     products: seq<Products.ProductSummary>, requestOk: bool): (r: Picker)
    ensures selected == "" || !requestOk ==> r == Picker(routines, selected)
    ensures selected != "" && requestOk ==> r.selected == ""
    ensures selected != "" && requestOk ==>
      r.routines == UpdateRoutine(routines, routineId, step.(product := FindProduct(products, selected)))
  {
    if selected == "" || !requestOk then Picker(routines, selected)
    else Picker(UpdateRoutine(routines, routineId, step.(product := FindProduct(products, selected))), "")
  }

  /** Step numbers within a routine are distinct. */
  predicate DistinctSteps(steps: seq<RoutineStep>)
  {
    forall i, j :: 0 <= i < j < |steps| ==> steps[i].stepNumber != steps[j].stepNumber
  }

  /** With distinct step numbers and the product among those offered, the
      page's routine after an assignment is the stored routine after the
      server's assignment. */
  lemma AddToStepMatchesServer(st: Store, routineId: Id, stepNumber: int, productId: Id,
                               products: seq<Products.ProductSummary>, skinNames: map<Id, string>, p: nat)
    requires routineId in st.routines && DistinctSteps(st.routines[routineId].steps)
    requires Routines.FirstStep(st.routines[routineId].steps, stepNumber).Some?
    requires productId != "" && p < |products| && products[p].id == productId
    ensures var r := st.routines[routineId];
      var k := Routines.FirstStep(r.steps, stepNumber).value;
      var after := Routines.AssignProduct(st, routineId, stepNumber, productId).store;
      AddToStep([Shown(routineId, r, skinNames)], routineId, r.steps[k], productId, products, true).routines ==
        [Shown(routineId, after.routines[routineId], skinNames)]
  {
    var r := st.routines[routineId];
    var k := Routines.FirstStep(r.steps, stepNumber).value;
    var after := Routines.AssignProduct(st, routineId, stepNumber, productId).store;
    var updated := r.steps[k].(product := Some(productId));
    assert FindProduct(products, productId) == Some(productId);
    var page := ReplaceSteps(r.steps, updated);
    assert page == after.routines[routineId].steps by {
      forall i | 0 <= i < |r.steps|
        ensures page[i] == after.routines[routineId].steps[i]
      {
        if i != k {
          assert r.steps[i].stepNumber != r.steps[k].stepNumber by {
            if i < k { assert r.steps[i].stepNumber != stepNumber; }
          }
        }
      }
    }
  }

  /** With two steps sharing a number, the page puts the product on both
      while the server assigns it to the first only. */
  lemma AddToStepDivergesOnDuplicateSteps(st: Store, routineId: Id, stepNumber: int, productId: Id,
                                          products: seq<Products.ProductSummary>, skinNames: map<Id, string>,
                                          i: nat, j: nat, p: nat)
    requires routineId in st.routines
    requires i < j < |st.routines[routineId].steps|
    requires st.routines[routineId].steps[i].stepNumber == stepNumber
    requires st.routines[routineId].steps[j].stepNumber == stepNumber
    requires st.routines[routineId].steps[j].product != Some(productId)
    requires productId != "" && p < |products| && products[p].id == productId
    ensures var r := st.routines[routineId];
      var page := AddToStep([Shown(routineId, r, skinNames)], routineId, r.steps[i], productId, products, true).routines;
      var after := Routines.AssignProduct(st, routineId, stepNumber, productId).store;
      && page[0].steps[j].product == Some(productId)
      && after.routines[routineId].steps[j] == r.steps[j]
  {
    Routines.DuplicateStepNumberOnlyFirst(st, routineId, stepNumber, productId, i, j);
    assert FindProduct(products, productId) == Some(productId);
  }
}
