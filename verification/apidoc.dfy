/**
 * The input: apiDoc endpoint entries as realised from `api_data.js`. An
 * absent string is `""`, an absent `optional` flag is `false`, and an absent
 * section or field-group collection is empty.
 */
module ApiDoc {

  /** One declared field: `{ field, type, optional, description }`. */
  datatype Field = Field(name: string, typ: string, optional: bool, description: string)

  /** A named group of fields; for responses the title often encodes a status code (`"200"`, `"Error 4xx"`). */
  datatype FieldGroup = FieldGroup(title: string, fields: seq<Field>)

  /** An example block: a title and free text holding an HTTP status line and a body. */
  datatype ExampleBlock = ExampleBlock(title: string, content: string)

  /** A `success` or `error` section: field groups in `Object.keys` order, then examples. */
  datatype Section = Section(groups: seq<FieldGroup>, examples: seq<ExampleBlock>)

  /** One endpoint entry; `verb` is apiDoc's `type` key (the HTTP method). */
  datatype Entry = Entry(
    verb: string,
    url: string,
    group: string,
    title: string,
    name: string,
    description: string,
    version: string,
    parameter: seq<FieldGroup>,
    header: seq<FieldGroup>,
    success: Section,
    error: Section)

  /** The fields of all groups, in group order then field order (the nested `for` loops). */
  function AllFields(groups: seq<FieldGroup>): (fs: seq<Field>)
    ensures forall g, f :: g in groups && f in g.fields ==> f in fs
    ensures forall f :: f in fs ==> exists g :: g in groups && f in g.fields
  {
    if |groups| == 0 then [] else groups[0].fields + AllFields(groups[1..])
  }

  /** Group order is kept: the fields of a later group come after all fields of the earlier ones. */
  lemma {:induction false} AllFieldsAppend(a: seq<FieldGroup>, b: seq<FieldGroup>)
    ensures AllFields(a + b) == AllFields(a) + AllFields(b)
    decreases |a|
  {
    if |a| == 0 {
      assert a + b == b;
    } else {
      assert (a + b)[0] == a[0];
      assert (a + b)[1..] == a[1..] + b;
      AllFieldsAppend(a[1..], b);
    }
  }

  /** One more group appends its fields, in their own order, at the end. */
  lemma AllFieldsSnoc(groups: seq<FieldGroup>, g: FieldGroup)
    ensures AllFields(groups + [g]) == AllFields(groups) + g.fields
  {
    AllFieldsAppend(groups, [g]);
    assert [g][1..] == [];
  }
}
