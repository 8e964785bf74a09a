/** A relational table as the services see it through the ORM: rows keyed by
    their primary key, plus a scan order. PostgreSQL promises no order for a
    scan without `ORDER BY`; the model fixes one admissible order
    (insertion order, deletions closing the gap, updates keeping a row's
    place) and uses it wherever the database's choice is unspecified. */
module Tables {
  import opened Seqs
  import opened Results

  /** Primary keys are the UUID strings the database generates. */
  type Id = string

  datatype Table<V> = Table(rows: seq<Id>, byId: map<Id, V>) {

    /** Every key appears exactly once in the scan order and nothing else does. */
    predicate Valid() {
      && Distinct(rows)
      && (forall i :: 0 <= i < |rows| ==> rows[i] in byId)
      && (forall k :: k in byId ==> k in rows)
    }

    /** The row stored under `id`, if any (`db.First(&row, "id = ?", id)`). */
    function Get(id: Id): (r: Option<V>)
      ensures r.Some? <==> id in byId
      ensures r.Some? ==> r.value == byId[id]
    {
      if id in byId then Some(byId[id]) else None
    }

    /** `INSERT` of a row under a key not yet used. */
    function Insert(id: Id, v: V): (t: Table<V>)
      requires id !in byId
      ensures t.byId == byId[id := v]
      ensures t.rows == rows + [id]
      ensures Valid() ==> t.Valid()
    {
      var t := Table(rows + [id], byId[id := v]);
      assert Valid() ==> Distinct(t.rows) by {
        if Valid() {
          forall i, j | 0 <= i < j < |t.rows| ensures t.rows[i] != t.rows[j] {
            if j == |rows| {
              assert t.rows[i] == rows[i];
            }
          }
        }
      }
      t
    }

    /** `UPDATE` (gorm `Save`) of an existing row. The model keeps its place
        in the scan order; the database may move the new row version. */
    function Put(id: Id, v: V): (t: Table<V>)
      requires id in byId
      ensures t.byId == byId[id := v]
      ensures t.rows == rows
      ensures Valid() ==> t.Valid()
    {
      Table(rows, byId[id := v])
    }

    /** `DELETE` of the row under `id`. */
    function Remove(id: Id): (t: Table<V>)
      ensures t.byId == byId - {id}
      ensures forall k :: k in t.rows <==> k in rows && k != id
      ensures Valid() ==> t.Valid()
    {
      var t := Table(Without(rows, id), byId - {id});
      assert Valid() ==> forall i :: 0 <= i < |t.rows| ==> t.rows[i] in t.byId by {
        if Valid() {
          forall i | 0 <= i < |t.rows| ensures t.rows[i] in t.byId {
            assert t.rows[i] in t.rows;
          }
        }
      }
      t
    }

    /** A row that satisfies `p`: the first in scan order. It stands for
        `db.Where(...).First(&row)`, which orders by primary key instead;
        the two agree whenever at most one row satisfies `p`, as the
        uniqueness invariants ensure for the lookups the services make. */
    function Find(p: V -> bool): (r: Option<Id>)
      ensures r.Some? ==> r.value in byId && p(byId[r.value])
      ensures r.None? && Valid() ==> forall k :: k in byId ==> !p(byId[k])
    {
      FindIn(rows, byId, p)
    }

    /** The rows with their keys, in scan order. */
    function Entries(): (es: seq<(Id, V)>)
      ensures forall e :: e in es ==> e.0 in byId && e.1 == byId[e.0]
      ensures Valid() ==> |es| == |rows|
      ensures Valid() ==> forall i :: 0 <= i < |es| ==> es[i].0 == rows[i]
    {
      EntriesOf(rows, byId)
    }
  }

  function FindIn<V>(rows: seq<Id>, m: map<Id, V>, p: V -> bool): (r: Option<Id>)
    ensures r.Some? ==> r.value in m && p(m[r.value])
    ensures r.None? ==> forall i :: 0 <= i < |rows| && rows[i] in m ==> !p(m[rows[i]])
  {
    if rows == [] then None
    else if rows[0] in m && p(m[rows[0]]) then Some(rows[0])
    else
      var r := FindIn(rows[1..], m, p);
      assert r.None? ==> forall i :: 1 <= i < |rows| && rows[i] in m ==> !p(m[rows[i]]) by {
        if r.None? {
          forall i | 1 <= i < |rows| && rows[i] in m ensures !p(m[rows[i]]) {
            assert rows[1..][i - 1] == rows[i];
          }
        }
      }
      r
  }

  function EntriesOf<V>(rows: seq<Id>, m: map<Id, V>): (es: seq<(Id, V)>)
    ensures |es| <= |rows|
    ensures forall e :: e in es ==> e.0 in m && e.1 == m[e.0]
    ensures (forall i :: 0 <= i < |rows| ==> rows[i] in m) ==>
      |es| == |rows| && forall i :: 0 <= i < |es| ==> es[i].0 == rows[i]
  {
    if rows == [] then []
    else
      var tail := EntriesOf(rows[1..], m);
      if rows[0] in m then [(rows[0], m[rows[0]])] + tail else tail
  }

  /** The keys of a valid table's entries are distinct. */
  lemma EntriesDistinctKeys<V>(t: Table<V>)
    requires t.Valid()
    ensures forall i, j :: 0 <= i < j < |t.Entries()| ==> t.Entries()[i].0 != t.Entries()[j].0
  {
  }

  /** In a valid table the j-th entry is the j-th scanned key with its row. */
  lemma EntryAt<V>(t: Table<V>, j: nat)
    requires t.Valid() && j < |t.rows|
    ensures j < |t.Entries()| && t.Entries()[j] == (t.rows[j], t.byId[t.rows[j]])
  {
    var es := t.Entries();
    assert es[j] in es;
  }

  /** A valid table scans exactly as many rows as it holds keys. */
  lemma RowCount<V>(t: Table<V>)
    requires t.Valid()
    ensures |t.rows| == |t.byId|
  {
    ElemsCard(t.rows);
    assert Elems(t.rows) == t.byId.Keys;
  }
}
