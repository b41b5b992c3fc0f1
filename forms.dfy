/** What the client's zod schemas report: a list of issues, each attached to a field,
    in the order the checks run (fields in declaration order, each field's checks in
    order, then the object-level refinements). A form is accepted when the list is empty. */
module Forms {
  /** One validation message on one field; each form names its fields with its own type. */
  datatype Issue<F> = Issue(field: F, message: string)

  /** One check: nothing when it holds, otherwise its message on its field. */
  function Check<F(==)>(ok: bool, field: F, message: string): (r: seq<Issue<F>>)
    ensures r == [] <==> ok
    ensures forall i :: 0 <= i < |r| ==> r[i] == Issue(field, message)
    ensures Fields(r) == if ok then {} else {field}
  {
    if ok then []
    else
      var r := [Issue(field, message)];
      assert r[0].field in Fields(r);
      r
  }

  /** The fields that carry at least one issue. */
  function Fields<F(==)>(issues: seq<Issue<F>>): set<F> {
    set i | 0 <= i < |issues| :: issues[i].field
  }

  /** The issues of consecutive checks are reported on the union of their fields. */
  lemma FieldsConcat<F>(a: seq<Issue<F>>, b: seq<Issue<F>>)
    ensures Fields(a + b) == Fields(a) + Fields(b)
  {
    forall p | p in Fields(a + b)
      ensures p in Fields(a) + Fields(b)
    {
      var i :| 0 <= i < |a + b| && (a + b)[i].field == p;
      if i >= |a| {
        assert b[i - |a|].field == p;
      }
    }
    forall p | p in Fields(b)
      ensures p in Fields(a + b)
    {
      var i :| 0 <= i < |b| && b[i].field == p;
      assert (a + b)[|a| + i].field == p;
    }
    forall p | p in Fields(a)
      ensures p in Fields(a + b)
    {
      var i :| 0 <= i < |a| && a[i].field == p;
      assert (a + b)[i].field == p;
    }
  }
}
