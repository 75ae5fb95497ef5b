/** The step editor (src/components/StepsList.tsx): reordering by drag and
  * drop, deleting, editing a description in place and appending a new step.
  * The list itself is owned by the parent and replaced through
  * `onUpdateSteps`; here it is the `steps` field, so that an update is an
  * assignment to it. */
module StepsList {
  import opened Types
  import opened Seqs
  import opened JsString
  import Gemini

  // ---------------------------------------------------------------------------
  // JavaScript semantics the handlers rely on

  /** A `string | null` in a condition: both `null` and `''` are falsy. */
  predicate Truthy(s: Option<string>): (r: bool)
    ensures s == None ==> !r
    ensures s == Some("") ==> !r
    ensures s.Some? && |s.value| > 0 ==> r
  {
    s.Some? && s.value != []
  }

  /** Some step of `steps` carries `id`. */
  predicate HasId(steps: seq<Step>, id: string) {
    exists i :: 0 <= i < |steps| && steps[i].id == id
  }

  /** `steps.findIndex(step => step.id === id)`: the first index carrying `id`,
    * or -1 when there is none. */
  function FindIndex(steps: seq<Step>, id: string): (r: int)
    ensures -1 <= r < |steps|
    ensures r == -1 <==> !HasId(steps, id)
    ensures r >= 0 ==> steps[r].id == id && forall i :: 0 <= i < r ==> steps[i].id != id
  {
    if steps == [] then -1
    else if steps[0].id == id then 0
    else
      var r := FindIndex(steps[1..], id);
      assert forall i :: 1 <= i < |steps| ==> steps[i] == steps[1..][i - 1];
      if r == -1 then -1 else r + 1
  }

  /** Where `splice(start, ...)` begins on an array of length `len`: a
    * negative start counts from the end, and both are clamped to the array. */
  function SpliceStart(start: int, len: nat): (r: nat)
    ensures r <= len
    ensures 0 <= start <= len ==> r == start
    ensures start == -1 && len > 0 ==> r == len - 1
  {
    if start < 0 then (if len + start < 0 then 0 else len + start)
    else if start > len then len
    else start
  }

  // ---------------------------------------------------------------------------
  // The list updates, as functions of the old list

  /** The list `handleDragOver` hands to `onUpdateSteps`: the dragged step is
    * spliced out and spliced in again at the target's index. An unknown
    * dragged id gives index -1, which `splice` reads as the last element. */
  function Reordered(steps: seq<Step>, dragged: string, target: string): (r: seq<Step>)
    requires HasId(steps, target)
    ensures |r| == |steps|
  {
    var from := SpliceStart(FindIndex(steps, dragged), |steps|);
    MovedSpec(steps, from, FindIndex(steps, target));
    Moved(steps, from, FindIndex(steps, target))
  }

  /** Both steps present: the same steps, the dragged one now at the target's
    * old index, and all the others in their former relative order. */
  lemma ReorderedMovesDragged(steps: seq<Step>, dragged: string, target: string)
    requires HasId(steps, dragged) && HasId(steps, target)
    ensures var r := Reordered(steps, dragged, target);
      var from := FindIndex(steps, dragged);
      var to := FindIndex(steps, target);
      |r| == |steps| && multiset(r) == multiset(steps)
      && r[to] == steps[from] && r[to].id == dragged
      && RemoveAt(r, to) == RemoveAt(steps, from)
  {
    MovedSpec(steps, FindIndex(steps, dragged), FindIndex(steps, target));
  }

  /** An unknown dragged id moves the last step to the target's index. */
  lemma ReorderedUnknownDragged(steps: seq<Step>, dragged: string, target: string)
    requires !HasId(steps, dragged) && HasId(steps, target)
    ensures var r := Reordered(steps, dragged, target);
      var to := FindIndex(steps, target);
      multiset(r) == multiset(steps) && r[to] == steps[|steps| - 1]
      && RemoveAt(r, to) == steps[..|steps| - 1]
  {
    var last := |steps| - 1;
    assert SpliceStart(FindIndex(steps, dragged), |steps|) == last;
    MovedSpec(steps, last, FindIndex(steps, target));
    assert RemoveAt(steps, last) == steps[..last];
  }

  /** The predicate `step => step.id !== id`. */
  function KeepOther(id: string): Step -> bool {
    (step: Step) => step.id != id
  }

  /** `steps.filter(step => step.id !== id)`. */
  function Deleted(steps: seq<Step>, id: string): seq<Step>
  {
    Filter(steps, KeepOther(id))
  }

  /** Delete drops exactly the steps carrying `id` and keeps the others, with
    * their multiplicities, in their original order. */
  lemma DeletedRemovesExactlyId(steps: seq<Step>, id: string)
    ensures var r := Deleted(steps, id);
      SubsequenceOf(r, steps) && !HasId(r, id)
      && (forall i :: 0 <= i < |steps| && steps[i].id != id ==> steps[i] in r)
      && (forall s: Step :: s.id != id ==> multiset(r)[s] == multiset(steps)[s])
  {
    FilterIsSubsequence(steps, KeepOther(id));
    FilterMultiset(steps, KeepOther(id));
  }

  /** Deleting an id no step carries leaves the list as it is. */
  lemma DeletedAbsentId(steps: seq<Step>, id: string)
    requires !HasId(steps, id)
    ensures Deleted(steps, id) == steps
  {
    FilterAll(steps, KeepOther(id));
  }

  /** Deleting twice is deleting once. */
  lemma DeletedIdempotent(steps: seq<Step>, id: string)
    ensures Deleted(Deleted(steps, id), id) == Deleted(steps, id)
  {
    DeletedRemovesExactlyId(steps, id);
    DeletedAbsentId(Deleted(steps, id), id);
  }

  /** `steps.map(step => step.id === id ? { ...step, description } : step)`. */
  function WithDescription(steps: seq<Step>, id: string, description: string): (r: seq<Step>)
    ensures |r| == |steps|
  {
    seq(|steps|, i requires 0 <= i < |steps| =>
      if steps[i].id == id then steps[i].(description := description) else steps[i])
  }

  /** Saving an edit changes only the descriptions of the steps carrying the
    * edited id; ids, `completed` flags, order and every other step stay. */
  lemma WithDescriptionChangesOnlyEdited(steps: seq<Step>, id: string, description: string)
    ensures var r := WithDescription(steps, id, description);
      |r| == |steps|
      && (forall i :: 0 <= i < |r| ==> r[i].id == steps[i].id && r[i].completed == steps[i].completed)
      && (forall i :: 0 <= i < |r| && steps[i].id == id ==> r[i].description == description)
      && (forall i :: 0 <= i < |r| && steps[i].id != id ==> r[i] == steps[i])
  {
  }

  /** Editing an id no step carries leaves the list as it is. */
  lemma WithDescriptionAbsentId(steps: seq<Step>, id: string, description: string)
    requires !HasId(steps, id)
    ensures WithDescription(steps, id, description) == steps
  {
    var r := WithDescription(steps, id, description);
    forall i | 0 <= i < |steps| ensures r[i] == steps[i] {
      assert steps[i].id != id;
    }
  }

  /** The step `handleAddStep` appends, given the value `Date.now()` returned. */
  function NewStep(now: nat, description: string): (step: Step)
    ensures step.description == description && !step.completed
  {
    Step("step-" + NatToString(now), description, false)
  }

  /** An added step's id is never one the reply parser hands out, so adding
    * to a freshly parsed list cannot duplicate an id. */
  lemma NewStepIdNotParsed(now: nat, description: string, text: string)
    ensures !HasId(Gemini.ExtractSteps(text), NewStep(now, description).id)
  {
    var id := NewStep(now, description).id;
    Gemini.StepIdsAreSequential(text);
    assert id[0] == 's' && !IsDigit(id[0]);
  }

  /** Timestamps with different decimal forms give different ids. */
  lemma NewStepIdsDistinct(a: nat, b: nat, da: string, db: string)
    requires a != b
    ensures NewStep(a, da).id != NewStep(b, db).id
  {
    var prefix := "step-";
    if NewStep(a, da).id == NewStep(b, db).id {
      assert NatToString(a) == (prefix + NatToString(a))[|prefix|..];
      assert NatToString(b) == (prefix + NatToString(b))[|prefix|..];
      NatToStringInjective(a, b);
    }
  }

  // ---------------------------------------------------------------------------
  // The component

  /** The component's local state (its five `useState` hooks) together with
    * the list it displays. */
  class StepsListState {
    var steps: seq<Step>
    var draggedStep: Option<string>
    var editingStep: Option<string>
    var editedContent: string
    var newStep: string
    var isAdding: bool

    /** The first render: nothing dragged or edited, empty inputs. */
    constructor (initial: seq<Step>)
      ensures steps == initial && draggedStep == None && editingStep == None
      ensures editedContent == [] && newStep == [] && !isAdding
    {
      steps := initial;
      draggedStep := None;
      editingStep := None;
      editedContent := [];
      newStep := [];
      isAdding := false;
    }

    /** `handleDragStart`: remember which step is being dragged. */
    method DragStart(id: string)
      modifies this
      ensures draggedStep == Some(id)
      ensures steps == old(steps) && editingStep == old(editingStep)
      ensures editedContent == old(editedContent) && newStep == old(newStep) && isAdding == old(isAdding)
    {
      draggedStep := Some(id);
    }

    /** `handleDragOver` on the step carrying `targetId` (the handler is bound
      * to a rendered step, so that step is in the list). Nothing happens when
      * no step is dragged or it is dragged over itself. */
    method DragOver(targetId: string)
      requires HasId(steps, targetId)
      modifies this
      ensures !Truthy(old(draggedStep)) || old(draggedStep).value == targetId ==> steps == old(steps)
      ensures Truthy(old(draggedStep)) && old(draggedStep).value != targetId ==>
        steps == Reordered(old(steps), old(draggedStep).value, targetId)
      ensures draggedStep == old(draggedStep) && editingStep == old(editingStep)
      ensures editedContent == old(editedContent) && newStep == old(newStep) && isAdding == old(isAdding)
    {
      if !Truthy(draggedStep) || draggedStep.value == targetId {
        return;
      }
      var draggedIndex := FindIndex(steps, draggedStep.value);
      var targetIndex := FindIndex(steps, targetId);
      var newSteps := steps;
      var start := SpliceStart(draggedIndex, |newSteps|);
      var draggedItem := newSteps[start];
      newSteps := RemoveAt(newSteps, start);
      newSteps := InsertAt(newSteps, SpliceStart(targetIndex, |newSteps|), draggedItem);
      steps := newSteps;
    }

    /** `handleDelete`. */
    method Delete(id: string)
      modifies this
      ensures steps == Deleted(old(steps), id)
      ensures draggedStep == old(draggedStep) && editingStep == old(editingStep)
      ensures editedContent == old(editedContent) && newStep == old(newStep) && isAdding == old(isAdding)
    {
      steps := Deleted(steps, id);
    }

    /** `startEditing`: the edit buffer starts from the current description. */
    method StartEditing(step: Step)
      modifies this
      ensures editingStep == Some(step.id) && editedContent == step.description
      ensures steps == old(steps) && draggedStep == old(draggedStep)
      ensures newStep == old(newStep) && isAdding == old(isAdding)
    {
      editingStep := Some(step.id);
      editedContent := step.description;
    }

    /** The edit field's `onChange`. */
    method SetEditedContent(value: string)
      modifies this
      ensures editedContent == value
      ensures steps == old(steps) && draggedStep == old(draggedStep) && editingStep == old(editingStep)
      ensures newStep == old(newStep) && isAdding == old(isAdding)
    {
      editedContent := value;
    }

    /** `saveEdit`: without an edited id or with a blank buffer nothing
      * changes; otherwise the trimmed buffer becomes the description and the
      * editing state is cleared. */
    method SaveEdit()
      modifies this
      ensures !Truthy(old(editingStep)) || IsBlank(old(editedContent)) ==>
        steps == old(steps) && editingStep == old(editingStep) && editedContent == old(editedContent)
      ensures Truthy(old(editingStep)) && NonBlank(old(editedContent)) ==>
        steps == WithDescription(old(steps), old(editingStep).value, Trim(old(editedContent)))
        && editingStep == None && editedContent == []
      ensures draggedStep == old(draggedStep) && newStep == old(newStep) && isAdding == old(isAdding)
    {
      if !Truthy(editingStep) || Trim(editedContent) == [] {
        return;
      }
      steps := WithDescription(steps, editingStep.value, Trim(editedContent));
      editingStep := None;
      editedContent := [];
    }

    /** The new-step field's `onChange`. */
    method SetNewStep(value: string)
      modifies this
      ensures newStep == value
      ensures steps == old(steps) && draggedStep == old(draggedStep) && editingStep == old(editingStep)
      ensures editedContent == old(editedContent) && isAdding == old(isAdding)
    {
      newStep := value;
    }

    /** The "Add Step" button (`true`) and the "Cancel" button (`false`). */
    method SetAdding(adding: bool)
      modifies this
      ensures isAdding == adding
      ensures steps == old(steps) && draggedStep == old(draggedStep) && editingStep == old(editingStep)
      ensures editedContent == old(editedContent) && newStep == old(newStep)
    {
      isAdding := adding;
    }

    /** `handleAddStep`, with `now` the value of `Date.now()`: a blank input
      * changes nothing; otherwise the untrimmed input is appended as a new,
      * uncompleted step and the input is cleared and closed. */
    method AddStep(now: nat)
      modifies this
      ensures IsBlank(old(newStep)) ==>
        steps == old(steps) && newStep == old(newStep) && isAdding == old(isAdding)
      ensures NonBlank(old(newStep)) ==>
        steps == old(steps) + [NewStep(now, old(newStep))] && newStep == [] && !isAdding
      ensures draggedStep == old(draggedStep) && editingStep == old(editingStep)
      ensures editedContent == old(editedContent)
    {
      if Trim(newStep) == [] {
        return;
      }
      var newStepObj := Step("step-" + NatToString(now), newStep, false);
      steps := steps + [newStepObj];
      newStep := [];
      isAdding := false;
    }
  }
}
