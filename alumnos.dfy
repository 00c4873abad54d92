/** The Alumno record, the rows of table alumnos that hold it, and the name
    order in which the table is read back. */
module Alumnos {

  datatype Option<T> = None | Some(value: T)

  /** The non-key columns of table alumnos (NOMBRE, CURSO, TELEFONO,
      DIRECCION): what an Alumno contributes to an insert or an update. */
  datatype Values = Values(nombre: string, curso: string, telefono: string, direccion: string)

  /** One row of a cursor over table alumnos: column _ID and the other columns. */
  datatype Row = Row(id: int, values: Values)

  /** The Alumno model object. */
  datatype Alumno = Alumno(id: int, nombre: string, curso: string, telefono: string, direccion: string)

  /** The column values an Alumno is stored with (its id is the row key). */
  function ToContentValues(a: Alumno): Values
  {
    Values(a.nombre, a.curso, a.telefono, a.direccion)
  }

  /** The Alumno read from the current row of a cursor: the _ID, NOMBRE,
      CURSO, TELEFONO and DIRECCION columns copied into a new record. */
  function CursorToAlumno(row: Row): (a: Alumno)
    ensures a.id == row.id && ToContentValues(a) == row.values
  {
    Alumno(row.id, row.values.nombre, row.values.curso, row.values.telefono, row.values.direccion)
  }

  /** Reading back the row an Alumno is stored as gives the same Alumno. */
  lemma AlumnoRowRoundTrip(a: Alumno)
    ensures CursorToAlumno(Row(a.id, ToContentValues(a))) == a
  {
  }

  /** SQLite's BINARY collation on names: code-point lexicographic order,
      a proper prefix sorting first. */
  predicate NameLe(a: string, b: string)
  {
    a == [] || (b != [] && (a[0] < b[0] || (a[0] == b[0] && NameLe(a[1..], b[1..]))))
  }

  lemma {:induction false} NameLeTotal(a: string, b: string)
    ensures NameLe(a, b) || NameLe(b, a)
  {
    if a != [] && b != [] && a[0] == b[0] {
      NameLeTotal(a[1..], b[1..]);
    }
  }

  lemma {:induction false} NameLeTransitive(a: string, b: string, c: string)
    requires NameLe(a, b) && NameLe(b, c)
    ensures NameLe(a, c)
  {
    if a != [] && b != [] && c != [] && a[0] == b[0] == c[0] {
      NameLeTransitive(a[1..], b[1..], c[1..]);
    }
  }

  lemma {:induction false} NameLeAntisymmetric(a: string, b: string)
    requires NameLe(a, b) && NameLe(b, a)
    ensures a == b
  {
    if a != [] && b != [] {
      NameLeAntisymmetric(a[1..], b[1..]);
      assert a == [a[0]] + a[1..] && b == [b[0]] + b[1..];
    }
  }

  /** ORDER BY NOMBRE holds of a sequence of rows. */
  predicate SortedByName(rows: seq<Row>)
  {
    forall i, j :: 0 <= i < j < |rows| ==> NameLe(rows[i].values.nombre, rows[j].values.nombre)
  }

  /** No _ID occurs twice. */
  predicate DistinctIds(rows: seq<Row>)
  {
    forall i, j :: 0 <= i < j < |rows| ==> rows[i].id != rows[j].id
  }

  /** Places a row before the first row whose name is not smaller than its own. */
  function InsertByName(r: Row, rows: seq<Row>): seq<Row>
  {
    if rows == [] || NameLe(r.values.nombre, rows[0].values.nombre) then [r] + rows
    else [rows[0]] + InsertByName(r, rows[1..])
  }

  /** Inserting adds exactly the one row. */
  lemma {:induction false} InsertByNameElements(r: Row, rows: seq<Row>)
    ensures multiset(InsertByName(r, rows)) == multiset(rows) + multiset{r}
    ensures |InsertByName(r, rows)| == |rows| + 1
    ensures forall x :: x in InsertByName(r, rows) <==> x == r || x in rows
  {
    if rows != [] && !NameLe(r.values.nombre, rows[0].values.nombre) {
      InsertByNameElements(r, rows[1..]);
      assert rows == [rows[0]] + rows[1..];
    }
  }

  lemma {:induction false} InsertByNameSorted(r: Row, rows: seq<Row>)
    requires SortedByName(rows)
    ensures SortedByName(InsertByName(r, rows))
  {
    InsertByNameElements(r, rows);
    if rows == [] || NameLe(r.values.nombre, rows[0].values.nombre) {
      var out := [r] + rows;
      forall i, j | 0 <= i < j < |out|
        ensures NameLe(out[i].values.nombre, out[j].values.nombre)
      {
        if i == 0 && j > 1 {
          NameLeTransitive(r.values.nombre, rows[0].values.nombre, out[j].values.nombre);
        }
      }
    } else {
      var tail := InsertByName(r, rows[1..]);
      InsertByNameSorted(r, rows[1..]);
      InsertByNameElements(r, rows[1..]);
      NameLeTotal(r.values.nombre, rows[0].values.nombre);
      var out := [rows[0]] + tail;
      forall i, j | 0 <= i < j < |out|
        ensures NameLe(out[i].values.nombre, out[j].values.nombre)
      {
        if i == 0 && out[j] != r {
          assert out[j] in tail;
          assert out[j] in rows[1..];
          var k :| 0 <= k < |rows[1..]| && rows[1..][k] == out[j];
          assert rows[k + 1] == out[j];
        }
      }
    }
  }

  lemma {:induction false} InsertByNameDistinct(r: Row, rows: seq<Row>)
    requires DistinctIds(rows)
    requires forall x :: x in rows ==> x.id != r.id
    ensures DistinctIds(InsertByName(r, rows))
  {
    if rows != [] && !NameLe(r.values.nombre, rows[0].values.nombre) {
      InsertByNameDistinct(r, rows[1..]);
      InsertByNameElements(r, rows[1..]);
      var out := InsertByName(r, rows);
      forall i, j | 0 <= i < j < |out|
        ensures out[i].id != out[j].id
      {
        if i == 0 && out[j] != r {
          assert out[j] in InsertByName(r, rows[1..]);
          assert out[j] in rows[1..];
          var k :| 0 <= k < |rows[1..]| && rows[1..][k] == out[j];
          assert rows[k + 1] == out[j];
        }
      }
    }
  }
}
