/** The roster editor's in-memory state: the ordered list of employees and the
    currently selected row, with the add / modify / delete / select operations
    that the form's buttons and the id field drive. */
module Management {
  import opened Employees

  /** What the editor tells the user after an operation (one per `showNotification`
      call), plus `NoNotice` for the branch that returns without telling anything. */
  datatype Notice =
    | FillAllFields
    | IdExists
    | EmployeeAdded
    | EmployeeModified
    | EmployeeDeleted
    | SelectToModify
    | SelectToDelete
    | NoNotice

  /** The text of the alert shown for a notice, if any. */
  function Message(n: Notice): (r: Option<string>)
    ensures r.None? <==> n == NoNotice
    ensures r.Some? ==> |r.value| > 0
  {
    match n
    case FillAllFields => Some("Please fill all the fields")
    case IdExists => Some("Employee ID already exists")
    case EmployeeAdded => Some("New Employee Added Successfully")
    case EmployeeModified => Some("Employee Modified Successfully")
    case EmployeeDeleted => Some("Employee Deleted Successfully")
    case SelectToModify => Some("Please select an employee to modify")
    case SelectToDelete => Some("Please select an employee to delete")
    case NoNotice => None
  }

  class EmployeeManagement {
    /** The rows of the table, in insertion order. */
    var employees: seq<Employee>
    /** The selected record, as its position in `employees`. */
    var selected: Option<nat>

    /** A selection always names an existing row, and every stored record passed the
        form's presence check. */
    ghost predicate Valid()
      reads this
    {
      && (selected.Some? ==> selected.value < |employees|)
      && (forall i :: 0 <= i < |employees| ==> IsValid(employees[i]))
    }

    constructor ()
      ensures Valid()
      ensures employees == [] && selected == None
    {
      employees := [];
      selected := None;
    }

    /** The state part of `clearForm`: the selection is dropped. */
    method ClearForm()
      modifies this
      ensures employees == old(employees) && selected == None
    {
      selected := None;
    }

    /** `addEmployee`: validate, reject an id that another row already carries, then
        overwrite the selected slot or append, and drop the selection. The notice is
        read after the selection was dropped, so it always reports an addition. */
    method AddEmployee(data: Employee) returns (notice: Notice)
      requires Valid()
      modifies this
      ensures Valid()
      ensures !IsValid(data) ==>
        notice == FillAllFields && employees == old(employees) && selected == old(selected)
      ensures IsValid(data) && IdTakenByOther(old(employees), data.id, old(selected)) ==>
        notice == IdExists && employees == old(employees) && selected == old(selected)
      ensures IsValid(data) && !IdTakenByOther(old(employees), data.id, old(selected)) ==>
        notice == EmployeeAdded && selected == None
      ensures IsValid(data) && !IdTakenByOther(old(employees), data.id, old(selected)) && old(selected).None? ==>
        employees == old(employees) + [data]
      ensures IsValid(data) && !IdTakenByOther(old(employees), data.id, old(selected)) && old(selected).Some? ==>
        employees == old(employees)[SlotOfSelected(old(employees), old(selected).value) := data]
      ensures DistinctIds(old(employees)) ==> DistinctIds(employees)
    {
      if !IsValid(data) {
        return FillAllFields;
      }
      if IdTakenByOther(employees, data.id, selected) {
        return IdExists;
      }
      if selected.Some? {
        var index := FindIndex(employees, employees[selected.value].id);
        if index.Some? {
          if DistinctIds(employees) {
            OverwriteKeepsDistinctIds(employees, index.value, data);
          }
          employees := employees[index.value := data];
        }
      } else {
        if DistinctIds(employees) {
          AppendKeepsDistinctIds(employees, data);
        }
        employees := employees + [data];
      }
      ClearForm();
      notice := if selected.Some? then EmployeeModified else EmployeeAdded;
    }

    /** `modifyEmployee`: with a selection and a valid form, overwrite the first row that
        carries the selected id and drop the selection. No duplicate-id check. */
    method ModifyEmployee(data: Employee) returns (notice: Notice)
      requires Valid()
      modifies this
      ensures Valid()
      ensures old(selected).None? ==>
        notice == SelectToModify && employees == old(employees) && selected == old(selected)
      ensures old(selected).Some? && !IsValid(data) ==>
        notice == FillAllFields && employees == old(employees) && selected == old(selected)
      ensures old(selected).Some? && IsValid(data) ==>
        notice == EmployeeModified && selected == None &&
        employees == old(employees)[SlotOfSelected(old(employees), old(selected).value) := data]
      ensures (DistinctIds(old(employees)) && old(selected).Some? &&
               data.id == old(employees)[old(selected).value].id) ==> DistinctIds(employees)
    {
      if selected.None? {
        return SelectToModify;
      }
      if !IsValid(data) {
        return FillAllFields;
      }
      var index := FindIndex(employees, employees[selected.value].id);
      if index.Some? {
        if DistinctIds(employees) && data.id == employees[selected.value].id {
          OverwriteWithSelectedIdKeepsDistinctIds(employees, selected.value, data);
        }
        employees := employees[index.value := data];
        ClearForm();
        notice := EmployeeModified;
      } else {
        notice := NoNotice;
      }
    }

    /** `deleteEmployee`: with a selection, splice out the first row that carries the
        selected id and drop the selection. */
    method DeleteEmployee() returns (notice: Notice)
      requires Valid()
      modifies this
      ensures Valid()
      ensures old(selected).None? ==>
        notice == SelectToDelete && employees == old(employees) && selected == old(selected)
      ensures old(selected).Some? ==>
        var k := SlotOfSelected(old(employees), old(selected).value);
        notice == EmployeeDeleted && selected == None &&
        employees == old(employees)[..k] + old(employees)[k + 1..] &&
        multiset(employees) + multiset{old(employees)[k]} == multiset(old(employees))
      ensures DistinctIds(old(employees)) ==> DistinctIds(employees)
    {
      if selected.None? {
        return SelectToDelete;
      }
      var index := FindIndex(employees, employees[selected.value].id);
      if index.Some? {
        var k := index.value;
        assert employees == employees[..k] + [employees[k]] + employees[k + 1..];
        if DistinctIds(employees) {
          RemoveKeepsDistinctIds(employees, k);
        }
        employees := employees[..k] + employees[k + 1..];
        ClearForm();
        notice := EmployeeDeleted;
      } else {
        notice := NoNotice;
      }
    }

    /** `autofillById`: select the first row whose id is exactly `id`, or nothing when
        no row matches; returns the record written back into the form. */
    method SelectById(id: string) returns (found: Option<Employee>)
      requires Valid()
      modifies this
      ensures Valid()
      ensures employees == old(employees)
      ensures selected == FindIndex(employees, id)
      ensures found.Some? <==> selected.Some?
      ensures found.Some? ==> found.value == employees[selected.value] && found.value.id == id
    {
      var index := FindIndex(employees, id);
      if index.Some? {
        found := Some(employees[index.value]);
        selected := index;
      } else {
        found := None;
        selected := None;
      }
    }

    /** A click on table row `row` selects that very record; returns the record
        written back into the form. */
    method SelectRow(row: nat) returns (picked: Employee)
      requires Valid()
      requires row < |employees|
      modifies this
      ensures Valid()
      ensures employees == old(employees)
      ensures selected == Some(row) && picked == employees[row]
    {
      selected := Some(row);
      picked := employees[row];
    }
  }

  /** An editing session: add E1, select it and resubmit it through
      the add button (an edit, still reported as an addition), then a modify without a
      selection, then select and delete. */
  method EditSessionScenario() returns (added: Notice, edited: Notice, afterEdit: seq<Employee>,
                                        unselected: Notice, deleted: Notice, finalRoster: seq<Employee>)
    ensures added == EmployeeAdded && edited == EmployeeAdded
    ensures afterEdit == [Employee("E1", "Alice", "Lead", "F", "1500")]
    ensures unselected == SelectToModify
    ensures deleted == EmployeeDeleted && finalRoster == []
  {
    var m := new EmployeeManagement();
    var alice := Employee("E1", "Alice", "Eng", "F", "1000");
    var lead := Employee("E1", "Alice", "Lead", "F", "1500");
    assert IsValid(alice) && IsValid(lead);
    added := m.AddEmployee(alice);
    assert m.employees == [alice] && m.selected == None;
    var found := m.SelectById("E1");
    assert m.selected == Some(0);
    edited := m.AddEmployee(lead);
    assert m.employees == [lead] && m.selected == None;
    afterEdit := m.employees;
    unselected := m.ModifyEmployee(lead);
    found := m.SelectById("E1");
    assert m.selected == Some(0);
    deleted := m.DeleteEmployee();
    finalRoster := m.employees;
  }

  /** Modify does not check ids: starting from an empty roster, adding `first` and
      `second` and then modifying the selected second row into `clash`, which carries
      the first row's id, leaves two rows with one id. On the page the id field's listener
      and the row click keep the form's id equal to the selected row's id, so such form
      data does not arise there; this shows what the operation itself does not guard
      against. */
  method ModifyToSharedId(first: Employee, second: Employee, clash: Employee)
    returns (m: EmployeeManagement, modified: Notice)
    requires IsValid(first) && IsValid(second) && IsValid(clash)
    requires first.id != second.id && clash.id == first.id
    ensures fresh(m) && m.Valid() && m.selected == None
    ensures modified == EmployeeModified
    ensures m.employees == [first, clash]
    ensures !DistinctIds(m.employees)
  {
    m := new EmployeeManagement();
    var n := m.AddEmployee(first);
    assert !IdTakenByOther([first], second.id, None);
    n := m.AddEmployee(second);
    var picked := m.SelectRow(1);
    assert SlotOfSelected([first, second], 1) == 1;
    modified := m.ModifyEmployee(clash);
    assert m.employees[0].id == m.employees[1].id;
  }

  /** Once two rows share an id, the add button refuses to resubmit the selected second
      row, and deleting that selected row removes the first row instead. */
  method SharedIdScenario(first: Employee, second: Employee, clash: Employee)
    returns (rejected: Notice, afterDelete: seq<Employee>)
    requires IsValid(first) && IsValid(second) && IsValid(clash)
    requires first.id != second.id && clash.id == first.id
    ensures rejected == IdExists
    ensures afterDelete == [clash]
  {
    var m, modified := ModifyToSharedId(first, second, clash);
    var picked := m.SelectRow(1);
    assert IdTakenByOther([first, clash], clash.id, Some(1)) by {
      assert [first, clash][0].id == clash.id;
    }
    rejected := m.AddEmployee(clash);
    assert SlotOfSelected([first, clash], 1) == 0;
    var n := m.DeleteEmployee();
    afterDelete := m.employees;
  }
}
