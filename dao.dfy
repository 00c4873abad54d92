/** Data access object over table alumnos (PR196). The SQLite database is
    the map `table` from _ID to the other columns; opening and closing it
    and building SQL text are not modelled. Each notifyChange on the Alumno
    URI increments `alumnoChanges`. */
module Persistence {
  import opened Alumnos

  /** The rows whose _ID equals id, as SELECT ... WHERE _ID = id returns them. */
  function RowsWithId(table: map<int, Values>, id: int): seq<Row>
  {
    if id in table then [Row(id, table[id])] else []
  }

  /** What queryAlumno yields, or that it throws. */
  datatype QueryOutcome = Returned(alumno: Option<Alumno>) | Raised

  /** Lines 147-151 as written: a null cursor gives null; otherwise the
      cursor is moved to its first row, whose success is not checked, and
      the row under it is read. On an empty cursor there is no such row and
      the read throws. */
  function QueryAlumnoAsWritten(cursor: Option<seq<Row>>): (out: QueryOutcome)
    ensures cursor.None? ==> out == Returned(None)
    ensures cursor == Some([]) ==> out == Raised
  {
    match cursor
    case None => Returned(None)
    case Some(rows) => if rows == [] then Raised else Returned(Some(CursorToAlumno(rows[0])))
  }

  /** queryAlumno as its comment promises: the record, or null if no row has that id. */
  function AlumnoFromCursor(cursor: Option<seq<Row>>): (a: Option<Alumno>)
    ensures cursor.None? || cursor == Some([]) <==> a.None?
    ensures cursor.Some? && cursor.value != [] ==> a == Some(CursorToAlumno(cursor.value[0]))
  {
    match cursor
    case None => None
    case Some(rows) => if rows == [] then None else Some(CursorToAlumno(rows[0]))
  }

  /** The discrepancy: for an id the table does not hold, the code as
      written throws instead of returning null. */
  lemma QueryMissingIdRaises(table: map<int, Values>, id: int)
    requires id !in table
    ensures QueryAlumnoAsWritten(Some(RowsWithId(table, id))) == Raised
    ensures AlumnoFromCursor(Some(RowsWithId(table, id))) == None
  {
  }

  /** The two agree whenever the id is present. */
  lemma QueryPresentIdAgrees(table: map<int, Values>, id: int)
    requires id in table
    ensures QueryAlumnoAsWritten(Some(RowsWithId(table, id)))
         == Returned(AlumnoFromCursor(Some(RowsWithId(table, id))))
    ensures AlumnoFromCursor(Some(RowsWithId(table, id))) == Some(CursorToAlumno(Row(id, table[id])))
  {
  }

  /** cursorToAlumnos: one Alumno per cursor row, in cursor order. */
  method CursorToAlumnos(cursor: seq<Row>) returns (lista: seq<Alumno>)
    ensures |lista| == |cursor|
    ensures forall i :: 0 <= i < |cursor| ==> lista[i].id == cursor[i].id && ToContentValues(lista[i]) == cursor[i].values
  {
    lista := [];
    var position := 0;
    while position < |cursor|
      invariant 0 <= position <= |cursor|
      invariant |lista| == position
      invariant forall i :: 0 <= i < position ==> lista[i] == CursorToAlumno(cursor[i])
    {
      var alumno := CursorToAlumno(cursor[position]);
      lista := lista + [alumno];
      position := position + 1;
    }
  }

  /** The list getAllAlumnos builds from the cursor it obtained: empty for a
      null cursor, otherwise one Alumno per row. */
  method AlumnosOfCursor(cursor: Option<seq<Row>>) returns (lista: seq<Alumno>)
    ensures cursor.None? ==> lista == []
    ensures cursor.Some? ==> |lista| == |cursor.value|
    ensures cursor.Some? ==> forall i :: 0 <= i < |lista| ==>
      lista[i].id == cursor.value[i].id && ToContentValues(lista[i]) == cursor.value[i].values
  {
    lista := [];
    if cursor.Some? {
      lista := CursorToAlumnos(cursor.value);
    }
  }

  /** The rows of `table`, each exactly once, in name order. */
  predicate ListsTableByName(rows: seq<Row>, table: map<int, Values>)
  {
    && SortedByName(rows)
    && DistinctIds(rows)
    && (forall i :: 0 <= i < |rows| ==> rows[i].id in table && table[rows[i].id] == rows[i].values)
    && (forall id :: id in table ==> Row(id, table[id]) in rows)
  }

  /** The point query on _ID agrees with the full listing of the table: it
      yields exactly the listed rows that carry that id. */
  lemma PointQueryAgreesWithListing(table: map<int, Values>, rows: seq<Row>, id: int)
    requires ListsTableByName(rows, table)
    ensures |RowsWithId(table, id)| <= 1
    ensures forall r :: r in RowsWithId(table, id) <==> r in rows && r.id == id
  {
  }

  class Dao {
    /** Table alumnos: _ID to the other columns. */
    var table: map<int, Values>
    /** The _ID the next successful insert receives. */
    var nextId: int
    /** notifyChange calls made on the Alumno URI. */
    var alumnoChanges: nat

    ghost predicate Valid()
      reads this
    {
      1 <= nextId && forall id :: id in table ==> 1 <= id < nextId
    }

    /** A Dao over the database as it is found on opening. */
    constructor (stored: map<int, Values>, next: int)
      requires 1 <= next && forall id :: id in stored ==> 1 <= id < next
      ensures Valid() && table == stored && nextId == next && alumnoChanges == 0
    {
      table := stored;
      nextId := next;
      alumnoChanges := 0;
    }

    /** createAlumno: inserts the record and returns its new _ID, or -1 when
        the insert fails (`insertFails` is the database's answer). The change
        is notified in both cases. */
    method CreateAlumno(alumno: Alumno, insertFails: bool) returns (id: int)
      requires Valid()
      modifies this
      ensures Valid()
      ensures (id == -1) == insertFails
      ensures insertFails ==> table == old(table)
      ensures !insertFails ==> 1 <= id && id !in old(table) && table == old(table)[id := ToContentValues(alumno)]
      ensures alumnoChanges == old(alumnoChanges) + 1
    {
      var resultado: int;
      if insertFails {
        resultado := -1;
      } else {
        resultado := nextId;
        table := table[resultado := ToContentValues(alumno)];
        nextId := nextId + 1;
      }
      alumnoChanges := alumnoChanges + 1;
      id := resultado;
    }

    /** deleteAlumno: true iff a row with that _ID was deleted. No change is
        notified (the call is commented out in the source). */
    method DeleteAlumno(id: int) returns (deleted: bool)
      requires Valid()
      modifies this
      ensures Valid()
      ensures deleted == (id in old(table))
      ensures table == old(table) - {id}
      ensures nextId == old(nextId) && alumnoChanges == old(alumnoChanges)
    {
      var resultado := if id in table then 1 else 0;
      table := table - {id};
      deleted := resultado > 0;
    }

    /** updateAlumno: true iff a row with the record's _ID was updated. The
        change is notified whether or not a row was affected. */
    method UpdateAlumno(alumno: Alumno) returns (updated: bool)
      requires Valid()
      modifies this
      ensures Valid()
      ensures updated == (alumno.id in old(table))
      ensures table == if updated then old(table)[alumno.id := ToContentValues(alumno)] else old(table)
      ensures nextId == old(nextId) && alumnoChanges == old(alumnoChanges) + 1
    {
      var resultado := if alumno.id in table then 1 else 0;
      if resultado > 0 {
        table := table[alumno.id := ToContentValues(alumno)];
      }
      alumnoChanges := alumnoChanges + 1;
      updated := resultado > 0;
    }

    /** queryAlumno: the record with that _ID, or None when there is none. */
    method QueryAlumno(id: int) returns (alumno: Option<Alumno>)
      requires Valid()
      ensures alumno.None? <==> id !in table
      ensures alumno.Some? ==> alumno.value.id == id && ToContentValues(alumno.value) == table[id]
    {
      var cursor := RowsWithId(table, id);
      alumno := AlumnoFromCursor(Some(cursor));
    }

    /** queryAllAlumnos: every row of the table, ordered by NOMBRE. The
        database scans the rows in _ID order and places each one in name
        order; the contract leaves the order among equal names open. */
    method QueryAllAlumnos() returns (cursor: seq<Row>)
      requires Valid()
      ensures ListsTableByName(cursor, table)
    {
      cursor := [];
      var rowid := 1;
      while rowid < nextId
        invariant 1 <= rowid <= nextId
        invariant SortedByName(cursor) && DistinctIds(cursor)
        invariant forall r :: r in cursor ==> r.id in table && r.id < rowid && table[r.id] == r.values
        invariant forall id :: id in table && id < rowid ==> Row(id, table[id]) in cursor
      {
        if rowid in table {
          InsertByNameElements(Row(rowid, table[rowid]), cursor);
          InsertByNameSorted(Row(rowid, table[rowid]), cursor);
          InsertByNameDistinct(Row(rowid, table[rowid]), cursor);
          cursor := InsertByName(Row(rowid, table[rowid]), cursor);
        }
        rowid := rowid + 1;
      }
      assert forall i :: 0 <= i < |cursor| ==> cursor[i] in cursor;
    }

    /** getAllAlumnos: the table as a list of Alumno, ordered by NOMBRE. */
    method GetAllAlumnos() returns (lista: seq<Alumno>)
      requires Valid()
      ensures forall i :: 0 <= i < |lista| ==> lista[i].id in table && table[lista[i].id] == ToContentValues(lista[i])
      ensures forall id :: id in table ==> CursorToAlumno(Row(id, table[id])) in lista
      ensures forall i, j :: 0 <= i < j < |lista| ==> lista[i].id != lista[j].id
      ensures forall i, j :: 0 <= i < j < |lista| ==> NameLe(lista[i].nombre, lista[j].nombre)
    {
      var cursor := QueryAllAlumnos();
      lista := AlumnosOfCursor(Some(cursor));
      forall id | id in table
        ensures CursorToAlumno(Row(id, table[id])) in lista
      {
        var i :| 0 <= i < |cursor| && cursor[i] == Row(id, table[id]);
        assert lista[i] == CursorToAlumno(cursor[i]);
      }
    }
  }

  /** The static field Dao.sInstance. */
  class DaoSingleton {
    var sInstance: Dao?

    constructor ()
      ensures sInstance == null
    {
      sInstance := null;
    }

    /** getInstance: makes the Dao on the first call and returns that same
        object on every later one; later arguments are ignored. */
    method GetInstance(stored: map<int, Values>, next: int) returns (dao: Dao)
      requires 1 <= next && forall id :: id in stored ==> 1 <= id < next
      modifies this
      ensures sInstance == dao
      ensures old(sInstance) != null ==> dao == old(sInstance)
      ensures old(sInstance) == null ==> fresh(dao) && dao.Valid() && dao.table == stored && dao.alumnoChanges == 0
    {
      if sInstance == null {
        sInstance := new Dao(stored, next);
      }
      dao := sInstance;
    }
  }
}
