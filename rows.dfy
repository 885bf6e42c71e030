/** The values the widget keeps in the page: one record per list item, one per
    filter button, and the click targets the list's delegated listener sees. */
module TodoRows {

  import Text

  datatype Option<T> = None | Some(value: T)

  /** Text of the complete button on a pending row. */
  const CompleteLabel: string := "Concluir"
  /** Text of the complete button on a completed row. */
  const UndoLabel: string := "Desfazer"

  /** Class names the click dispatcher looks for on the clicked element. */
  const CompleteClass: string := "complete-btn"
  const EditClass: string := "edit-btn"
  const DeleteClass: string := "delete-btn"

  /** One list item: the task text, the 'completed' class, the complete
      button's text, the 'hidden' class, and, while the row is being edited,
      the current value of its edit input. */
  datatype Row = Row(text: string, completed: bool, buttonLabel: string, hidden: bool, edit: Option<string>)

  /** One filter button: its data-filter value and its 'active' class. */
  datatype FilterButton = FilterButton(filter: string, active: bool)

  /** The element a click on the list lands on: outside every list item, or
      inside item `row` on an element carrying `classes`. */
  datatype ClickTarget = Outside | Inside(row: nat, classes: set<string>)

  datatype RowOp = ToggleOp | EditOp | DeleteOp

  /** What the delegated listener does with one click. */
  datatype Action = NoAction | RowAction(op: RowOp, row: nat)

  /** The label the complete button carries for a completion state. */
  function LabelFor(completed: bool): string {
    if completed then UndoLabel else CompleteLabel
  }

  /** The button label agrees with the 'completed' class on every row. */
  predicate LabelsAgree(rows: seq<Row>) {
    forall k :: 0 <= k < |rows| ==> rows[k].buttonLabel == LabelFor(rows[k].completed)
  }

  /** A text the submit and save handlers can store: non-blank and trimmed. */
  predicate TaskText(text: string) {
    text != [] && Text.Trimmed(text)
  }

  /** Every task text is non-blank and already trimmed. */
  predicate TextsTrimmed(rows: seq<Row>) {
    forall k :: 0 <= k < |rows| ==> TaskText(rows[k].text)
  }

  /** The row addTask builds: not hidden, not being edited, labelled by its state. */
  function NewRow(text: string, isCompleted: bool): (r: Row)
    ensures r.text == text && r.completed == isCompleted && r.edit == None && !r.hidden
    ensures r.buttonLabel == UndoLabel <==> isCompleted
    ensures r.buttonLabel == CompleteLabel <==> !isCompleted
  {
    Row(text, isCompleted, LabelFor(isCompleted), false, None)
  }

  /** The row after a click on its complete button, before the filter runs:
      the class flips and the label follows the new class. */
  function Toggled(r: Row): (t: Row)
    ensures t.completed != r.completed
    ensures t.buttonLabel == UndoLabel <==> t.completed
    ensures t.buttonLabel == CompleteLabel <==> !t.completed
    ensures t.text == r.text && t.hidden == r.hidden && t.edit == r.edit
  {
    var c := !r.completed;
    r.(completed := c, buttonLabel := LabelFor(c))
  }

  /** Toggling twice restores the row when its label agreed with its class. */
  lemma ToggleTwice(r: Row)
    requires r.buttonLabel == LabelFor(r.completed)
    ensures Toggled(Toggled(r)) == r
  {
  }

  /** The filter table: Some(shown) for the three filters applyFilter knows
      ('all' shows every row, 'completed' the completed ones, 'pending' the
      others), None for any other data-filter value. */
  function Shows(filter: string, completed: bool): Option<bool> {
    if filter == "all" then Some(true)
    else if filter == "completed" then Some(completed)
    else if filter == "pending" then Some(!completed)
    else None
  }

  predicate KnownFilter(filter: string) {
    Shows(filter, false).Some?
  }

  /** One pass of the switch in applyFilter over one row: only the 'hidden'
      class may change, and an unknown filter changes nothing. */
  function FilterRow(r: Row, filter: string): (t: Row)
    ensures t == r.(hidden := t.hidden)
    ensures Shows(filter, r.completed).Some? ==> t.hidden == !Shows(filter, r.completed).value
    ensures Shows(filter, r.completed).None? ==> t == r
  {
    match filter
    case "all" => r.(hidden := false)
    case "completed" => if r.completed then r.(hidden := false) else r.(hidden := true)
    case "pending" => if !r.completed then r.(hidden := false) else r.(hidden := true)
    case _ => r
  }

  /** Every row shows or hides as the filter says; vacuous for an unknown filter. */
  predicate VisibilityMatches(rows: seq<Row>, filter: string) {
    KnownFilter(filter) ==>
      forall k :: 0 <= k < |rows| ==> rows[k].hidden == !Shows(filter, rows[k].completed).value
  }

  /** The rows after applyFilter: same length and order, every field but
      'hidden' untouched, and 'hidden' set as the three known filters say. */
  function Filtered(rows: seq<Row>, filter: string): (r: seq<Row>)
    ensures |r| == |rows|
    ensures forall k :: 0 <= k < |r| ==> r[k] == rows[k].(hidden := r[k].hidden)
    ensures filter == "all" ==> forall k :: 0 <= k < |r| ==> !r[k].hidden
    ensures filter == "completed" ==> forall k :: 0 <= k < |r| ==> (r[k].hidden <==> !rows[k].completed)
    ensures filter == "pending" ==> forall k :: 0 <= k < |r| ==> (r[k].hidden <==> rows[k].completed)
    ensures !KnownFilter(filter) ==> r == rows
    ensures VisibilityMatches(r, filter)
    decreases |rows|
  {
    if rows == [] then [] else [FilterRow(rows[0], filter)] + Filtered(rows[1..], filter)
  }

  /** Filtering again with the same filter changes nothing. */
  lemma FilteredIdempotent(rows: seq<Row>, filter: string)
    ensures Filtered(Filtered(rows, filter), filter) == Filtered(rows, filter)
  {
  }

  /** Exactly one filter button carries the 'active' class. */
  predicate OneActive(buttons: seq<FilterButton>) {
    exists k :: 0 <= k < |buttons| && buttons[k].active &&
      forall j :: 0 <= j < |buttons| && buttons[j].active ==> j == k
  }

  /** document.querySelector('.filter-btn.active'): the first active button,
      None when there is none. */
  function FirstActive(buttons: seq<FilterButton>): (r: Option<nat>)
    ensures r.Some? ==> r.value < |buttons| && buttons[r.value].active
    ensures r.Some? ==> forall j :: 0 <= j < r.value ==> !buttons[j].active
    ensures r.None? <==> forall j :: 0 <= j < |buttons| ==> !buttons[j].active
    decreases |buttons|
  {
    if buttons == [] then None
    else if buttons[0].active then Some(0)
    else match FirstActive(buttons[1..])
      case None => None
      case Some(k) => Some(k + 1)
  }

  /** When button k is the only active one, exactly one button is active and
      querySelector finds k. */
  lemma OnlyActive(buttons: seq<FilterButton>, k: nat)
    requires k < |buttons| && buttons[k].active
    requires forall j :: 0 <= j < |buttons| && buttons[j].active ==> j == k
    ensures OneActive(buttons)
    ensures FirstActive(buttons) == Some(k)
  {
  }

  /** The click dispatcher of the list: complete-btn wins over edit-btn, which
      wins over delete-btn; any other element, and any click outside a list
      item, selects no action. */
  function Dispatch(target: ClickTarget): (a: Action)
    ensures target.Outside? ==> a == NoAction
    ensures a.RowAction? ==> target.Inside? && a.row == target.row
    ensures a == NoAction <==>
              (target.Outside? || (CompleteClass !in target.classes && EditClass !in target.classes
                                   && DeleteClass !in target.classes))
    ensures a.RowAction? && a.op == ToggleOp <==> target.Inside? && CompleteClass in target.classes
    ensures a.RowAction? && a.op == EditOp <==>
      target.Inside? && CompleteClass !in target.classes && EditClass in target.classes
  {
    match target
    case Outside => NoAction
    case Inside(row, classes) =>
      if CompleteClass in classes then RowAction(ToggleOp, row)
      else if EditClass in classes then RowAction(EditOp, row)
      else if DeleteClass in classes then RowAction(DeleteOp, row)
      else NoAction
  }

  /** The list after listItem.remove(): the row at i is gone, the rows before
      it stay where they were and the rows after it move up by one. */
  function RemoveAt(rows: seq<Row>, i: nat): (r: seq<Row>)
    requires i < |rows|
    ensures |r| == |rows| - 1
    ensures forall k :: 0 <= k < i ==> r[k] == rows[k]
    ensures forall k :: i <= k < |r| ==> r[k] == rows[k + 1]
    ensures multiset(r) + multiset{rows[i]} == multiset(rows)
  {
    assert rows == rows[..i] + [rows[i]] + rows[i + 1..];
    rows[..i] + rows[i + 1..]
  }
}
