/** The to-do widget as one object: the new-task input, the list items in
    page order and the filter buttons. Each method is one event handler or
    helper of the script and changes these fields in place. */
module TodoWidget {

  import Text
  import opened TodoRows

  /** Filtered rows are FilterRow applied position by position. */
  lemma FilteredAt(rows: seq<Row>, filter: string, k: nat)
    requires k < |rows|
    ensures Filtered(rows, filter)[k] == FilterRow(rows[k], filter)
  {
  }

  class Widget {
    /** The value of the new-task input. */
    var input: string
    /** The list items, in page order. */
    var rows: seq<Row>
    /** The filter buttons, in page order. */
    var buttons: seq<FilterButton>

    /** Exactly one filter button is active, and every complete button's
        text agrees with its row's 'completed' class. */
    ghost predicate Valid()
      reads this`rows, this`buttons
    {
      OneActive(buttons) && LabelsAgree(rows)
    }

    /** The data-filter value of the active button. */
    function ActiveFilter(): (f: string)
      reads this`buttons
      requires OneActive(buttons)
      ensures exists k :: 0 <= k < |buttons| && buttons[k].active && buttons[k].filter == f
    {
      buttons[FirstActive(buttons).value].filter
    }

    /** The page as loaded: an empty input, no list items, and the filter
        buttons with the one at `active` marked active. */
    constructor (filters: seq<string>, active: nat)
      requires active < |filters|
      ensures Valid()
      ensures input == [] && rows == []
      ensures |buttons| == |filters|
      ensures forall k :: 0 <= k < |filters| ==> buttons[k] == FilterButton(filters[k], k == active)
      ensures ActiveFilter() == filters[active]
    {
      input := [];
      rows := [];
      buttons := seq(|filters|, k requires 0 <= k < |filters| => FilterButton(filters[k], k == active));
      new;
      OnlyActive(buttons, active);
    }

    /** The user types into the new-task input. */
    method TypeInput(value: string)
      modifies this`input
      ensures input == value
    {
      input := value;
    }

    /** The user types into the edit input of row i. */
    method TypeEdit(i: nat, value: string)
      requires Valid() && i < |rows| && rows[i].edit.Some?
      modifies this`rows
      ensures Valid()
      ensures rows == old(rows)[i := old(rows)[i].(edit := Some(value))]
    {
      rows := rows[i := rows[i].(edit := Some(value))];
    }

    /** The submit handler: a blank input is ignored and left as it is;
        otherwise the trimmed text becomes a new last row and the input is
        cleared. The new row is never hidden, whatever the active filter. */
    method Submit()
      requires Valid()
      modifies this`input, this`rows
      ensures Valid()
      ensures Text.Trim(old(input)) == [] ==> rows == old(rows) && input == old(input)
      ensures Text.Trim(old(input)) != [] ==>
                rows == old(rows) + [NewRow(Text.Trim(old(input)), false)] && input == []
      ensures TextsTrimmed(old(rows)) ==> TextsTrimmed(rows)
    {
      var taskText := Text.Trim(input);
      if taskText != [] {
        ghost var before := rows;
        AddTask(taskText, false);
        input := [];
        assert TaskText(rows[|before|].text);
        assert forall k :: 0 <= k < |before| ==> rows[k] == before[k];
      }
    }

    /** addTask: appends one row with the given text and state; it does not
        re-apply the filter. */
    method AddTask(text: string, isCompleted: bool)
      requires Valid()
      modifies this`rows
      ensures Valid()
      ensures rows == old(rows) + [NewRow(text, isCompleted)]
    {
      rows := rows + [NewRow(text, isCompleted)];
    }

    /** The delegated click listener of the list: at most one action per
        click, chosen by the clicked element's class. */
    method Click(target: ClickTarget)
      requires Valid()
      requires target.Inside? ==>
                 target.row < |rows| &&
                 (Dispatch(target) == RowAction(EditOp, target.row) ==> rows[target.row].edit.None?)
      modifies this`rows
      ensures Valid()
      ensures Dispatch(target) == NoAction ==> rows == old(rows)
      ensures target.Inside? && Dispatch(target) == RowAction(ToggleOp, target.row) ==>
                rows == Filtered(old(rows)[target.row := Toggled(old(rows)[target.row])], ActiveFilter())
      ensures target.Inside? && Dispatch(target) == RowAction(EditOp, target.row) ==>
                rows == old(rows)[target.row := old(rows)[target.row].(edit := Some(old(rows)[target.row].text))]
      ensures target.Inside? && Dispatch(target) == RowAction(DeleteOp, target.row) ==>
                rows == RemoveAt(old(rows), target.row)
    {
      match Dispatch(target)
      case NoAction =>
      case RowAction(op, i) =>
        match op
        case ToggleOp => ToggleComplete(i);
        case EditOp => EditTask(i);
        case DeleteOp => Delete(i);
    }

    /** toggleCompleteTask: flips row i, relabels its button from the new
        state, then re-applies the active button's filter to every row. */
    method ToggleComplete(i: nat)
      requires Valid() && i < |rows|
      modifies this`rows
      ensures Valid()
      ensures rows == Filtered(old(rows)[i := Toggled(old(rows)[i])], ActiveFilter())
      ensures VisibilityMatches(rows, ActiveFilter())
    {
      var r := rows[i];
      var completed := !r.completed;
      var buttonText := LabelFor(completed);
      rows := rows[i := r.(completed := completed, buttonLabel := buttonText)];
      var filter := ActiveFilter();
      ApplyFilter(filter);
    }

    /** editTask: row i gets an edit input holding its current text. */
    method EditTask(i: nat)
      requires Valid() && i < |rows| && rows[i].edit.None?
      modifies this`rows
      ensures Valid()
      ensures rows == old(rows)[i := old(rows)[i].(edit := Some(old(rows)[i].text))]
    {
      var currentText := rows[i].text;
      rows := rows[i := rows[i].(edit := Some(currentText))];
    }

    /** saveEdit: a blank edit value is refused and the row stays in edit
        mode untouched; otherwise the trimmed value replaces the text and the
        row leaves edit mode. The filter is not re-applied. */
    method SaveEdit(i: nat)
      requires Valid() && i < |rows| && rows[i].edit.Some?
      modifies this`rows
      ensures Valid()
      ensures Text.Trim(old(rows)[i].edit.value) == [] ==> rows == old(rows)
      ensures Text.Trim(old(rows)[i].edit.value) != [] ==>
                rows == old(rows)[i := old(rows)[i].(text := Text.Trim(old(rows)[i].edit.value), edit := None)]
      ensures TextsTrimmed(old(rows)) ==> TextsTrimmed(rows)
    {
      var newText := Text.Trim(rows[i].edit.value);
      if newText != [] {
        assert TaskText(newText);
        rows := rows[i := rows[i].(text := newText, edit := None)];
      }
    }

    /** The delete branch of the click listener: row i leaves the list. */
    method Delete(i: nat)
      requires Valid() && i < |rows|
      modifies this`rows
      ensures Valid()
      ensures rows == RemoveAt(old(rows), i)
    {
      rows := rows[..i] + rows[i + 1..];
    }

    /** The click listener of filter button b: every button loses 'active',
        b gains it, and b's filter is applied to every row. */
    method SelectFilter(b: nat)
      requires Valid() && b < |buttons|
      modifies this`buttons, this`rows
      ensures Valid()
      ensures |buttons| == |old(buttons)|
      ensures forall k :: 0 <= k < |buttons| ==>
                buttons[k].filter == old(buttons)[k].filter && (buttons[k].active <==> k == b)
      ensures ActiveFilter() == old(buttons)[b].filter
      ensures rows == Filtered(old(rows), old(buttons)[b].filter)
    {
      var j := 0;
      while j < |buttons|
        invariant 0 <= j <= |buttons| == |old(buttons)|
        invariant forall k :: 0 <= k < j ==> buttons[k] == old(buttons)[k].(active := false)
        invariant forall k :: j <= k < |buttons| ==> buttons[k] == old(buttons)[k]
        invariant rows == old(rows)
      {
        buttons := buttons[j := buttons[j].(active := false)];
        j := j + 1;
      }
      buttons := buttons[b := buttons[b].(active := true)];
      OnlyActive(buttons, b);
      var filterType := buttons[b].filter;
      ApplyFilter(filterType);
    }

    /** applyFilter: the switch runs once per row, in page order. */
    method ApplyFilter(filter: string)
      requires Valid()
      modifies this`rows
      ensures Valid()
      ensures rows == Filtered(old(rows), filter)
    {
      var i := 0;
      while i < |rows|
        invariant 0 <= i <= |rows| == |old(rows)|
        invariant forall k :: 0 <= k < i ==> rows[k] == FilterRow(old(rows)[k], filter)
        invariant forall k :: i <= k < |rows| ==> rows[k] == old(rows)[k]
      {
        rows := rows[i := FilterRow(rows[i], filter)];
        i := i + 1;
      }
      forall k | 0 <= k < |rows| ensures rows[k] == Filtered(old(rows), filter)[k] {
        FilteredAt(old(rows), filter, k);
      }
    }
  }

  /** The filter buttons of the page, 'all' active. */
  const PageButtons: seq<FilterButton> :=
    [FilterButton("all", true), FilterButton("pending", false), FilterButton("completed", false)]

  /** The page as assumed at load: the three filter buttons the script
      names, 'all' active, an empty input and an empty list. */
  method OpenPage() returns (w: Widget)
    ensures fresh(w) && w.Valid()
    ensures w.rows == [] && w.input == [] && w.buttons == PageButtons
  {
    w := new Widget(["all", "pending", "completed"], 0);
    assert w.buttons == PageButtons;
  }

  /** Typing a task padded with white space and submitting adds one pending
      row holding the task without the padding. */
  method AddPadded(w: Widget, before: string, task: string, after: string)
    requires w.Valid()
    requires Text.AllWhitespace(before) && Text.AllWhitespace(after)
    requires task != [] && Text.Trimmed(task)
    modifies w`rows, w`input
    ensures w.Valid()
    ensures w.rows == old(w.rows) + [NewRow(task, false)] && w.input == []
  {
    var typed := before + task + after;
    Text.TrimOfPadded(before, task, after);
    w.TypeInput(typed);
    w.Submit();
  }

  /** Completing a task relabels it; 'pending' then hides it, 'all' shows
      it again, and completing it a second time restores the row. */
  method CompleteAndFilterSession(w: Widget, task: string)
    requires w.Valid() && w.rows == [NewRow(task, false)] && w.buttons == PageButtons
    modifies w`rows, w`buttons
  {
    w.Click(Inside(0, {CompleteClass}));
    assert w.rows[0].completed && w.rows[0].buttonLabel == UndoLabel && !w.rows[0].hidden;
    w.SelectFilter(1);
    assert w.rows[0].hidden;
    w.SelectFilter(0);
    assert !w.rows[0].hidden;
    w.Click(Inside(0, {CompleteClass}));
    assert w.rows == [NewRow(task, false)];
  }

  /** Entering edit mode and saving a blank value: the save is refused, the
      row keeps its text and stays in edit mode with the blank value. */
  method RefusedEditSession(w: Widget, task: string, blank: string)
    requires w.Valid() && w.rows == [NewRow(task, false)]
    requires Text.AllWhitespace(blank)
    modifies w`rows
  {
    assert Dispatch(Inside(0, {EditClass})) == RowAction(EditOp, 0);
    w.Click(Inside(0, {EditClass}));
    assert w.rows == [Row(task, false, CompleteLabel, false, Some(task))];
    w.TypeEdit(0, blank);
    Text.TrimBlank(blank);
    w.SaveEdit(0);
    assert w.rows == [Row(task, false, CompleteLabel, false, Some(blank))];
  }

  /** Saving a real value from edit mode replaces the text, leaves edit mode
      and keeps the completion state. */
  method EditSession(w: Widget, row: Row, edited: string)
    requires w.Valid() && w.rows == [row] && row.edit.Some?
    requires edited != [] && Text.Trimmed(edited)
    modifies w`rows
  {
    Text.TrimTrimmed(edited);
    w.TypeEdit(0, edited);
    w.SaveEdit(0);
    assert w.rows == [row.(text := edited, edit := None)];
  }

  /** A click outside every list item changes nothing; a click on the only
      row's delete button empties the list. */
  method DeleteSession(w: Widget, row: Row)
    requires w.Valid() && w.rows == [row] && row.edit == None
    modifies w`rows
  {
    w.Click(Outside);
    assert w.rows == [row];
    w.Click(Inside(0, {DeleteClass}));
    assert w.rows == [];
  }

  /** A task added while 'completed' is the active filter is shown although
      it is pending: the submit handler does not re-apply the filter. */
  method AddUnderCompletedFilterSession(w: Widget, task: string)
    requires w.Valid() && w.ActiveFilter() == "completed" && VisibilityMatches(w.rows, "completed")
    requires task != [] && Text.Trimmed(task)
    modifies w`rows, w`input
  {
    Text.TrimTrimmed(task);
    w.TypeInput(task);
    w.Submit();
    var last := |w.rows| - 1;
    assert !w.rows[last].completed && !w.rows[last].hidden;
    assert !VisibilityMatches(w.rows, w.ActiveFilter());
  }
}
