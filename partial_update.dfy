/**
 * The "update only provided fields" step of the PUT handlers for surgeries,
 * pathology reports, treatments and follow-up visits: the request body's
 * fields that were actually sent (`dict(exclude_unset=True)`) are written onto
 * the stored record one by one with `setattr`; a missing record is a 404.
 * A stored record is an object with an id and a mutable map from column name
 * to value.
 */
module PartialUpdate {
  import opened ClinicalTypes

  /** A column value; enumeration members are held as their stored strings. */
  datatype FieldValue = NullValue | IntValue(i: int) | RealValue(r: real) | TextValue(s: string) | DateValue(d: Day)

  /** `update_data.items()`: the sent fields in request order. */
  type UpdateData = seq<(string, FieldValue)>

  /** A dictionary's items have distinct names. */
  predicate DistinctNames(u: UpdateData)
  {
    forall i, j :: 0 <= i < j < |u| ==> u[i].0 != u[j].0
  }

  /** The request's fields as a dictionary. */
  function AsMap(u: UpdateData): (d: map<string, FieldValue>)
    ensures forall f :: f in d <==> exists i :: 0 <= i < |u| && u[i].0 == f
  {
    if u == [] then map[]
    else
      var n := |u| - 1;
      AsMap(u[..n])[u[n].0 := u[n].1]
  }

  /** The fields after `setattr` of each sent field in turn. */
  function Overlay(fields: map<string, FieldValue>, u: UpdateData): map<string, FieldValue>
  {
    if u == [] then fields
    else
      var n := |u| - 1;
      Overlay(fields, u[..n])[u[n].0 := u[n].1]
  }

  /** Writing the fields one by one is the dictionary merge `fields | update_data`. */
  lemma {:induction false} OverlayIsMerge(fields: map<string, FieldValue>, u: UpdateData)
    ensures Overlay(fields, u) == fields + AsMap(u)
  {
    if u != [] {
      var n := |u| - 1;
      OverlayIsMerge(fields, u[..n]);
    }
  }

  /** Each sent field holds its sent value afterwards. */
  lemma {:induction false} SentFieldsTakeSentValues(fields: map<string, FieldValue>, u: UpdateData)
    requires DistinctNames(u)
    ensures forall i :: 0 <= i < |u| ==> u[i].0 in Overlay(fields, u) && Overlay(fields, u)[u[i].0] == u[i].1
  {
    if u != [] {
      var n := |u| - 1;
      SentFieldsTakeSentValues(fields, u[..n]);
    }
  }

  /** A field that was not sent keeps its value, and no field appears or disappears unless sent. */
  lemma {:induction false} UnsentFieldsUnchanged(fields: map<string, FieldValue>, u: UpdateData, f: string)
    requires forall i :: 0 <= i < |u| ==> u[i].0 != f
    ensures f in Overlay(fields, u) <==> f in fields
    ensures f in fields ==> Overlay(fields, u)[f] == fields[f]
  {
    if u != [] {
      var n := |u| - 1;
      UnsentFieldsUnchanged(fields, u[..n], f);
    }
  }

  /** Sending the same fields twice has the effect of sending them once. */
  lemma UpdateIdempotent(fields: map<string, FieldValue>, u: UpdateData)
    ensures Overlay(Overlay(fields, u), u) == Overlay(fields, u)
  {
    OverlayIsMerge(fields, u);
    OverlayIsMerge(Overlay(fields, u), u);
  }

  /** A stored surgery, pathology report, treatment or follow-up visit. */
  class Record {
    const id: int
    var fields: map<string, FieldValue>

    constructor (id: int, fields: map<string, FieldValue>)
      ensures this.id == id && this.fields == fields
    {
      this.id := id;
      this.fields := fields;
    }

    /** `for field, value in update_data.items(): setattr(record, field, value)` */
    method ApplyUpdate(u: UpdateData)
      modifies this
      ensures fields == Overlay(old(fields), u)
    {
      for i := 0 to |u|
        invariant fields == Overlay(old(fields), u[..i])
      {
        assert u[..i + 1][..i] == u[..i];
        fields := fields[u[i].0 := u[i].1];
      }
      assert u[..|u|] == u;
    }
  }

  /** `db.query(X).filter(X.id == record_id).first()` */
  function FindRecord(table: seq<Record>, id: int): (r: Option<Record>)
    ensures r.None? <==> forall x :: x in table ==> x.id != id
    ensures r.Some? ==> r.value in table && r.value.id == id
  {
    if table == [] then None
    else if table[0].id == id then Some(table[0])
    else FindRecord(table[1..], id)
  }

  datatype UpdateOutcome = RecordNotFound | Updated

  /**
   * A PUT handler: the record with the id gets the sent fields and nothing
   * else changes; without such a record nothing changes at all.
   */
  method UpdateRecord(table: seq<Record>, id: int, u: UpdateData) returns (outcome: UpdateOutcome)
    modifies set r | r in table
    ensures outcome.RecordNotFound? <==> FindRecord(table, id).None?
    ensures outcome.RecordNotFound? ==> forall r :: r in table ==> r.fields == old(r.fields)
    ensures outcome.Updated? ==>
      var target := FindRecord(table, id).value;
      && target.fields == Overlay(old(target.fields), u)
      && forall r :: r in table && r != target ==> r.fields == old(r.fields)
  {
    var found := FindRecord(table, id);
    if found.None? {
      return RecordNotFound;
    }
    found.value.ApplyUpdate(u);
    outcome := Updated;
  }
}
