/** Employee records and the pure lookups the roster editor performs on them:
    the presence check on the form, `findIndex` by id and the duplicate-id `some`. */
module Employees {

  datatype Option<T> = None | Some(value: T)

  /** One row of the roster: the five form fields, all kept as strings. */
  datatype Employee = Employee(id: string, name: string, designation: string, gender: string, salary: string)

  /** The five fields of a record, in form order. */
  function Fields(e: Employee): seq<string>
  {
    [e.id, e.name, e.designation, e.gender, e.salary]
  }

  /** JavaScript truthiness of a string: only the empty string is falsy. */
  predicate Truthy(s: string)
  {
    s != ""
  }

  /** `validateForm`: the `&&` chain over the five fields. */
  predicate IsValid(e: Employee)
    ensures IsValid(e) <==> "" !in Fields(e)
  {
    Truthy(e.id) && Truthy(e.name) && Truthy(e.designation) && Truthy(e.gender) && Truthy(e.salary)
  }

  /** `findIndex(emp => emp.id === id)`: the position of the first record carrying `id`. */
  function FindIndex(s: seq<Employee>, id: string): (r: Option<nat>)
    ensures r.Some? ==> r.value < |s| && s[r.value].id == id
    ensures r.Some? ==> forall j :: 0 <= j < r.value ==> s[j].id != id
    ensures r.None? <==> forall j :: 0 <= j < |s| ==> s[j].id != id
  {
    if s == [] then None
    else if s[0].id == id then Some(0)
    else match FindIndex(s[1..], id)
      case None => None
      case Some(k) => Some(k + 1)
  }

  /** `some(emp => emp.id === id && emp !== selected)`: another record than the selected
      slot already carries `id`. Records are distinct objects, so identity is position. */
  function IdTakenByOther(s: seq<Employee>, id: string, selected: Option<nat>): (r: bool)
    ensures r <==> exists j :: 0 <= j < |s| && s[j].id == id && selected != Some(j)
  {
    if s == [] then false
    else IdTakenByOther(s[..|s| - 1], id, selected) || (s[|s| - 1].id == id && selected != Some(|s| - 1))
  }

  /** The slot that the source overwrites or splices for a selection: the first record whose
      id equals the selected record's id (`findIndex` on `selectedEmployee.id`). */
  function SlotOfSelected(s: seq<Employee>, selected: nat): (r: nat)
    requires selected < |s|
    ensures r <= selected && s[r].id == s[selected].id
    ensures forall j :: 0 <= j < r ==> s[j].id != s[selected].id
    ensures DistinctIds(s) ==> r == selected
  {
    FindIndex(s, s[selected].id).value
  }

  /** No two records of the roster share an id. */
  predicate DistinctIds(s: seq<Employee>)
  {
    forall i, j :: 0 <= i < j < |s| ==> s[i].id != s[j].id
  }

  /** With nothing selected, the duplicate check is the plain "id already present" check. */
  lemma UnselectedDuplicateIsPresence(s: seq<Employee>, id: string)
    ensures IdTakenByOther(s, id, None) <==> FindIndex(s, id).Some?
  {
  }

  /** Appending a record whose id is new keeps the ids distinct. */
  lemma AppendKeepsDistinctIds(s: seq<Employee>, e: Employee)
    requires DistinctIds(s)
    requires !IdTakenByOther(s, e.id, None)
    ensures DistinctIds(s + [e])
  {
  }

  /** Overwriting slot `k` with a record whose id no other slot carries keeps the ids distinct. */
  lemma OverwriteKeepsDistinctIds(s: seq<Employee>, k: nat, e: Employee)
    requires DistinctIds(s) && k < |s|
    requires !IdTakenByOther(s, e.id, Some(k))
    ensures DistinctIds(s[k := e])
  {
  }

  /** Overwriting the slot a selection resolves to with a record that keeps the selected
      row's id keeps the ids distinct: the case where the form's id still shows the
      selected row's id, as the id field's listener and the row click leave it. */
  lemma OverwriteWithSelectedIdKeepsDistinctIds(s: seq<Employee>, k: nat, e: Employee)
    requires DistinctIds(s) && k < |s|
    requires e.id == s[k].id
    ensures DistinctIds(s[SlotOfSelected(s, k) := e])
  {
  }

  /** Splicing one record out keeps the ids distinct. */
  lemma RemoveKeepsDistinctIds(s: seq<Employee>, k: nat)
    requires DistinctIds(s) && k < |s|
    ensures DistinctIds(s[..k] + s[k + 1..])
  {
  }

  /** On a roster with distinct ids, the duplicate check of the add button refuses exactly
      the submissions whose append (nothing selected) or overwrite of the selected slot
      would leave two rows with one id. */
  lemma {:induction false} DuplicateCheckIsExact(s: seq<Employee>, selected: Option<nat>, data: Employee)
    requires selected.Some? ==> selected.value < |s|
    requires DistinctIds(s)
    ensures !IdTakenByOther(s, data.id, selected) <==>
      DistinctIds(if selected.None? then s + [data] else s[SlotOfSelected(s, selected.value) := data])
  {
    var t := if selected.None? then s + [data] else s[SlotOfSelected(s, selected.value) := data];
    var k := if selected.None? then |s| else selected.value;
    if !IdTakenByOther(s, data.id, selected) {
      if selected.None? {
        AppendKeepsDistinctIds(s, data);
      } else {
        OverwriteKeepsDistinctIds(s, k, data);
      }
    } else {
      var j :| 0 <= j < |s| && s[j].id == data.id && selected != Some(j);
      assert t[j] == s[j] && t[k] == data;
      assert !DistinctIds(t) by {
        if j < k {
          assert t[j].id == t[k].id;
        } else {
          assert t[k].id == t[j].id;
        }
      }
    }
  }
}
