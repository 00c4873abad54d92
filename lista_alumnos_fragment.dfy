/** The alumnos list screen of PR027 (ListaAlumnosFragment): the list the
    adapter shows, its selected positions, and the contextual action mode
    that is on while a selection is being made. The adapter is represented
    by its data: `items` are its records and `selected` its selected
    positions. The store behind it is the Dao of the Persistence module. */
module AlumnosList {
  import opened Alumnos
  import opened Texts
  import opened Persistence

  /** The items of the contextual menu. */
  datatype MenuItem = MnuAlumnoEliminar | OtherItem(itemId: int)

  /** The title of the action mode: "<selected> / <total>". */
  function SelectionTitle(selectedCount: nat, itemCount: nat): string
  {
    NatToString(selectedCount) + " / " + NatToString(itemCount)
  }

  /** The title tells both counts apart: different counts give different titles. */
  lemma SelectionTitleInjective(s1: nat, t1: nat, s2: nat, t2: nat)
    requires SelectionTitle(s1, t1) == SelectionTitle(s2, t2)
    ensures s1 == s2 && t1 == t2
  {
    var rest1, rest2 := " / " + NatToString(t1), " / " + NatToString(t2);
    assert rest1[0] == ' ' && rest2[0] == ' ';
    assert NatToString(s1) + rest1 == SelectionTitle(s1, t1);
    assert NatToString(s2) + rest2 == SelectionTitle(s2, t2);
    LeadingCountUnique(s1, rest1, s2, rest2);
    CancelPrefix(" / ", NatToString(t1), NatToString(t2));
    NatToStringInjective(t1, t2);
  }

  /** The selection after toggling one position. */
  function Toggled(sel: set<nat>, position: nat): (r: set<nat>)
    ensures position in r <==> position !in sel
    ensures forall p :: p != position ==> (p in r <==> p in sel)
  {
    if position in sel then sel - {position} else sel + {position}
  }

  lemma ToggledTwice(sel: set<nat>, position: nat)
    ensures Toggled(Toggled(sel, position), position) == sel
  {
  }

  /** The list without the record at `position`. */
  function RemoveAt(items: seq<Alumno>, position: nat): (r: seq<Alumno>)
    requires position < |items|
    ensures |r| == |items| - 1
    ensures forall i :: 0 <= i < position ==> r[i] == items[i]
    ensures forall i :: position <= i < |r| ==> r[i] == items[i + 1]
  {
    items[..position] + items[position + 1..]
  }

  /** The list without the records at the positions in `sel`, the others
      keeping their order. */
  function DropPositions(items: seq<Alumno>, sel: set<nat>): seq<Alumno>
    decreases |items|
  {
    if items == [] then []
    else
      var last := |items| - 1;
      DropPositions(items[..last], sel) + (if last in sel then [] else [items[last]])
  }

  /** The positions of `sel` that lie in a list of length n. */
  function InRange(sel: set<nat>, n: nat): set<nat>
  {
    set p | p in sel && p < n
  }

  lemma {:induction false} DropPositionsLength(items: seq<Alumno>, sel: set<nat>)
    ensures |DropPositions(items, sel)| == |items| - |InRange(sel, |items|)|
    decreases |items|
  {
    if items != [] {
      var last := |items| - 1;
      DropPositionsLength(items[..last], sel);
      if last in sel {
        assert InRange(sel, |items|) == InRange(sel, last) + {last};
      } else {
        assert InRange(sel, |items|) == InRange(sel, last);
      }
    }
  }

  /** A record at an unselected position is kept, and everything kept comes
      from an unselected position. */
  lemma {:induction false} DropPositionsKeeps(items: seq<Alumno>, sel: set<nat>)
    ensures forall i :: 0 <= i < |items| && i !in sel ==> items[i] in DropPositions(items, sel)
    ensures forall x :: x in DropPositions(items, sel) ==>
      exists i :: 0 <= i < |items| && i !in sel && items[i] == x
    decreases |items|
  {
    if items != [] {
      var last := |items| - 1;
      DropPositionsKeeps(items[..last], sel);
      var rest := DropPositions(items[..last], sel);
      forall x | x in DropPositions(items, sel)
        ensures exists i :: 0 <= i < |items| && i !in sel && items[i] == x
      {
        if x in rest {
          var i :| 0 <= i < last && i !in sel && items[..last][i] == x;
          assert items[i] == x;
        } else {
          assert items[last] == x;
        }
      }
      forall i | 0 <= i < |items| && i !in sel
        ensures items[i] in DropPositions(items, sel)
      {
        if i < last {
          assert items[..last][i] == items[i];
        }
      }
    }
  }

  /** Dropping no position in range leaves the list alone. */
  lemma {:induction false} DropPositionsNone(items: seq<Alumno>, sel: set<nat>)
    requires forall p :: p in sel ==> p >= |items|
    ensures DropPositions(items, sel) == items
    decreases |items|
  {
    if items != [] {
      var last := |items| - 1;
      DropPositionsNone(items[..last], sel);
      assert items == items[..last] + [items[last]];
    }
  }

  /** Removing one position is dropping the singleton selection. */
  lemma {:induction false} RemoveAtIsDropPositions(items: seq<Alumno>, position: nat)
    requires position < |items|
    ensures RemoveAt(items, position) == DropPositions(items, {position})
    decreases |items|
  {
    var last := |items| - 1;
    if position == last {
      DropPositionsNone(items[..last], {position});
    } else {
      RemoveAtIsDropPositions(items[..last], position);
      assert RemoveAt(items, position) == RemoveAt(items[..last], position) + [items[last]];
    }
  }

  /** The selection after removing the row at `position`: that position is
      dropped and the positions after it move down by one. */
  function ShiftedSelection(sel: set<nat>, position: nat): set<nat>
  {
    set p | p in sel && p != position :: ShiftedPosition(p, position)
  }

  /** Where a selected position other than the removed one moves to. */
  function ShiftedPosition(p: nat, position: nat): nat
    requires p != position
  {
    if p < position then p else p - 1
  }

  /** After a removal the shifted selection marks the same records as before:
      each other selected position moves to a selected position holding the
      same record, and nothing else is selected. */
  lemma ShiftedSelectionSameRecords(items: seq<Alumno>, sel: set<nat>, position: nat)
    requires position < |items|
    requires forall p :: p in sel ==> p < |items|
    ensures forall p :: p in sel && p != position ==>
      && ShiftedPosition(p, position) in ShiftedSelection(sel, position)
      && RemoveAt(items, position)[ShiftedPosition(p, position)] == items[p]
    ensures forall q :: q in ShiftedSelection(sel, position) ==>
      exists p :: p in sel && p != position && q == ShiftedPosition(p, position)
    ensures forall q :: q in ShiftedSelection(sel, position) ==> q < |items| - 1
  {
    forall p | p in sel && p != position
      ensures ShiftedPosition(p, position) in ShiftedSelection(sel, position)
    {
    }
    forall q | q in ShiftedSelection(sel, position)
      ensures q < |items| - 1
    {
      var p :| p in sel && p != position && q == ShiftedPosition(p, position);
    }
  }

  /** The ids of the records at the positions of `sel`. */
  function SelectedIds(items: seq<Alumno>, sel: set<nat>): set<int>
  {
    set p | p in sel && p < |items| :: items[p].id
  }

  /** The positions visited in `order` name the same records as the selection. */
  lemma VisitedIdsAreSelectedIds(items: seq<Alumno>, sel: set<nat>, order: seq<nat>)
    requires forall p :: p in sel ==> p < |items|
    requires forall p :: p in order <==> p in sel
    ensures forall k :: 0 <= k < |order| ==> order[k] < |items|
    ensures (set k | 0 <= k < |order| :: items[order[k]].id) == SelectedIds(items, sel)
  {
    assert forall k :: 0 <= k < |order| ==> order[k] in sel;
    forall id | id in SelectedIds(items, sel)
      ensures id in (set k | 0 <= k < |order| :: items[order[k]].id)
    {
      var p :| p in sel && p < |items| && items[p].id == id;
      var k :| 0 <= k < |order| && order[k] == p;
    }
  }

  class ListaAlumnosFragment {
    /** The records the adapter shows. */
    var items: seq<Alumno>
    /** The adapter's selected positions. */
    var selected: set<nat>
    /** mActionMode != null. */
    var actionModeActive: bool
    /** The title last given to the action mode. */
    var title: string
    /** Whether the "new alumno" label is visible. */
    var lblNuevoAlumnoVisible: bool
    /** mDao. */
    const dao: Dao

    ghost predicate Valid()
      reads this, dao
    {
      && dao.Valid()
      && (forall p :: p in selected ==> p < |items|)
      && (!actionModeActive ==> selected == {})
    }

    /** The screen after initVistas: an empty list, no selection, the label
        checked once after the adapter is set. */
    constructor (d: Dao)
      requires d.Valid()
      ensures Valid() && dao == d
      ensures items == [] && selected == {} && !actionModeActive && lblNuevoAlumnoVisible
    {
      dao := d;
      items := [];
      selected := {};
      actionModeActive := false;
      title := "";
      lblNuevoAlumnoVisible := true;
    }

    /** checkAdapterIsEmpty: the label is shown exactly when the list is empty. */
    method CheckAdapterIsEmpty()
      modifies this
      ensures lblNuevoAlumnoVisible == (|items| == 0)
      ensures items == old(items) && selected == old(selected) && actionModeActive == old(actionModeActive)
      ensures title == old(title)
    {
      lblNuevoAlumnoVisible := |items| == 0;
    }

    /** onDestroyActionMode, which ActionMode.finish() calls: the selection is
        cleared and the mode is off. */
    method OnDestroyActionMode()
      requires Valid()
      modifies this
      ensures Valid()
      ensures selected == {} && !actionModeActive
      ensures items == old(items) && title == old(title) && lblNuevoAlumnoVisible == old(lblNuevoAlumnoVisible)
    {
      selected := {};
      actionModeActive := false;
    }

    /** toggleSelection: the position changes its selection state, the title
        shows the new counts, and the mode ends once nothing is selected. */
    method ToggleSelection(position: nat)
      requires Valid() && actionModeActive && position < |items|
      modifies this
      ensures Valid()
      ensures selected == Toggled(old(selected), position)
      ensures title == SelectionTitle(|Toggled(old(selected), position)|, |items|)
      ensures actionModeActive <==> Toggled(old(selected), position) != {}
      ensures items == old(items) && lblNuevoAlumnoVisible == old(lblNuevoAlumnoVisible)
    {
      selected := Toggled(selected, position);
      title := SelectionTitle(|selected|, |items|);
      if |selected| == 0 {
        OnDestroyActionMode();
      }
    }

    /** onItemClick: in action mode the position is toggled; otherwise the
        edit of that record is requested and nothing changes. */
    method OnItemClick(alumno: Alumno, position: nat) returns (editRequest: Option<int>)
      requires Valid() && position < |items|
      modifies this
      ensures Valid()
      ensures old(actionModeActive) ==> editRequest == None && selected == Toggled(old(selected), position)
      ensures old(actionModeActive) ==>
        (title == SelectionTitle(|selected|, |items|) && (actionModeActive <==> selected != {}))
      ensures !old(actionModeActive) ==>
        (editRequest == Some(alumno.id) && selected == old(selected) && !actionModeActive && title == old(title))
      ensures items == old(items) && lblNuevoAlumnoVisible == old(lblNuevoAlumnoVisible)
    {
      if actionModeActive {
        ToggleSelection(position);
        editRequest := None;
      } else {
        editRequest := Some(alumno.id);
      }
    }

    /** onItemLongClick: outside action mode the mode is started first; in
        both cases the position is then toggled. */
    method OnItemLongClick(position: nat)
      requires Valid() && position < |items|
      modifies this
      ensures Valid()
      ensures selected == Toggled(old(selected), position)
      ensures !old(actionModeActive) ==> selected == {position} && actionModeActive
      ensures actionModeActive <==> selected != {}
      ensures title == SelectionTitle(|selected|, |items|)
      ensures items == old(items) && lblNuevoAlumnoVisible == old(lblNuevoAlumnoVisible)
    {
      if !actionModeActive {
        actionModeActive := true;
      }
      ToggleSelection(position);
    }

    /** onActionItemClicked: the delete confirmation is asked for exactly when
        the delete item is pressed with something selected; the event is
        always reported as handled. */
    method OnActionItemClicked(item: MenuItem) returns (confirmRequested: bool, handled: bool)
      requires Valid()
      ensures confirmRequested <==> item == MnuAlumnoEliminar && |selected| > 0
      ensures handled
    {
      confirmRequested := false;
      match item {
        case MnuAlumnoEliminar =>
          if |selected| > 0 {
            confirmRequested := true;
          }
        case OtherItem(_) =>
      }
      handled := true;
    }

    /** onStop: a running action mode is finished. */
    method OnStop()
      requires Valid()
      modifies this
      ensures Valid()
      ensures !actionModeActive && selected == {}
      ensures items == old(items) && title == old(title) && lblNuevoAlumnoVisible == old(lblNuevoAlumnoVisible)
    {
      if actionModeActive {
        OnDestroyActionMode();
      }
    }

    /** eliminarAlumno (a swipe): the record is deleted from the store, and
        removed from the list only if the store reports it deleted. */
    method EliminarAlumno(position: nat) returns (deleted: bool)
      requires Valid() && position < |items|
      modifies this, dao
      ensures Valid()
      ensures deleted <==> old(items)[position].id in old(dao.table)
      ensures dao.table == old(dao.table) - {old(items)[position].id}
      ensures dao.alumnoChanges == old(dao.alumnoChanges) && dao.nextId == old(dao.nextId)
      ensures deleted ==>
        (&& items == RemoveAt(old(items), position)
         && selected == ShiftedSelection(old(selected), position)
         && lblNuevoAlumnoVisible == (|items| == 0))
      ensures !deleted ==>
        (items == old(items) && selected == old(selected) && lblNuevoAlumnoVisible == old(lblNuevoAlumnoVisible))
      ensures actionModeActive == old(actionModeActive) && title == old(title)
    {
      var alu := items[position];
      deleted := dao.DeleteAlumno(alu.id);
      if deleted {
        assert forall q :: q in ShiftedSelection(selected, position) ==> q < |items| - 1 by {
          ShiftedSelectionSameRecords(items, selected, position);
        }
        items := RemoveAt(items, position);
        selected := ShiftedSelection(selected, position);
        CheckAdapterIsEmpty();
      }
    }

    /** eliminarAlumnosSeleccionados: every selected record is deleted from
        the store, visiting the positions in the order the adapter lists
        them (`order`); then every selected row is dropped from the list
        whatever the deletes answered, and the mode ends. */
    method EliminarAlumnosSeleccionados(order: seq<nat>)
      requires Valid() && actionModeActive
      requires forall p :: p in order <==> p in selected
      modifies this, dao
      ensures Valid()
      ensures dao.table == old(dao.table) - SelectedIds(old(items), old(selected))
      ensures dao.alumnoChanges == old(dao.alumnoChanges) && dao.nextId == old(dao.nextId)
      ensures items == DropPositions(old(items), old(selected))
      ensures |items| == |old(items)| - |old(selected)|
      ensures selected == {} && !actionModeActive
      ensures |items| < |old(items)| ==> lblNuevoAlumnoVisible == (|items| == 0)
      ensures |items| == |old(items)| ==> lblNuevoAlumnoVisible == old(lblNuevoAlumnoVisible)
      ensures title == old(title)
    {
      var lista := items;
      var sel := selected;
      assert forall k :: 0 <= k < |order| ==> order[k] in sel;
      var i := 0;
      while i < |order|
        invariant 0 <= i <= |order|
        invariant forall k :: 0 <= k < |order| ==> order[k] < |lista|
        invariant items == lista && selected == sel && actionModeActive
        invariant title == old(title) && lblNuevoAlumnoVisible == old(lblNuevoAlumnoVisible)
        invariant dao.Valid() && dao.alumnoChanges == old(dao.alumnoChanges) && dao.nextId == old(dao.nextId)
        invariant dao.table == old(dao.table) - (set k | 0 <= k < i :: lista[order[k]].id)
      {
        var alu := lista[order[i]];
        var _ := dao.DeleteAlumno(alu.id);
        i := i + 1;
      }
      VisitedIdsAreSelectedIds(lista, sel, order);
      assert InRange(sel, |lista|) == sel;
      DropPositionsLength(lista, sel);
      items := DropPositions(lista, sel);
      selected := {};
      if |items| < |lista| {
        CheckAdapterIsEmpty();
      }
      OnDestroyActionMode();
    }

    /** onLoadFinished: a non-null cursor replaces the data, one record per
        row in cursor order, and the label is checked; a null one is ignored. */
    method OnLoadFinished(data: Option<seq<Row>>)
      requires Valid()
      modifies this
      ensures Valid()
      ensures data.None? ==>
        (items == old(items) && selected == old(selected) && lblNuevoAlumnoVisible == old(lblNuevoAlumnoVisible))
      ensures data.Some? ==>
        (&& |items| == |data.value|
         && (forall i :: 0 <= i < |items| ==> items[i] == CursorToAlumno(data.value[i]))
         && selected == InRange(old(selected), |items|)
         && lblNuevoAlumnoVisible == (|items| == 0))
      ensures actionModeActive == old(actionModeActive) && title == old(title)
    {
      if data.Some? {
        var lista := CursorToAlumnos(data.value);
        forall i | 0 <= i < |lista|
          ensures lista[i] == CursorToAlumno(data.value[i])
        {
          AlumnoRowRoundTrip(lista[i]);
        }
        items := lista;
        selected := InRange(selected, |items|);
        CheckAdapterIsEmpty();
      }
    }

    /** cargarAlumnos: every record is read through the Dao and handed to the
        adapter's swapData, which keeps the selected positions that still
        exist and fires no range notification, so the label is not checked. */
    method CargarAlumnos()
      requires Valid()
      modifies this
      ensures Valid()
      ensures forall i :: 0 <= i < |items| ==>
        items[i].id in dao.table && dao.table[items[i].id] == ToContentValues(items[i])
      ensures forall id :: id in dao.table ==> CursorToAlumno(Row(id, dao.table[id])) in items
      ensures forall i, j :: 0 <= i < j < |items| ==> items[i].id != items[j].id
      ensures forall i, j :: 0 <= i < j < |items| ==> NameLe(items[i].nombre, items[j].nombre)
      ensures selected == InRange(old(selected), |items|)
      ensures actionModeActive == old(actionModeActive) && title == old(title)
      ensures lblNuevoAlumnoVisible == old(lblNuevoAlumnoVisible)
    {
      var alumnos := dao.GetAllAlumnos();
      items := alumnos;
      selected := InRange(selected, |items|);
    }

    /** onLoaderReset: the data is dropped; the label is not checked again. */
    method OnLoaderReset()
      requires Valid()
      modifies this
      ensures Valid()
      ensures items == [] && selected == {}
      ensures lblNuevoAlumnoVisible == old(lblNuevoAlumnoVisible)
      ensures actionModeActive == old(actionModeActive) && title == old(title)
    {
      items := [];
      selected := InRange(selected, 0);
    }
  }
}
