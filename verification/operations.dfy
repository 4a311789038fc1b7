/**
 * One OpenAPI operation built from one apiDoc entry: its verb and path,
 * its parameters (path, query, header), its request body and its responses.
 */
module Operations {
  import opened Wrappers
  import opened Text
  import opened ApiDoc
  import opened Schemas
  import opened TextHelpers
  import opened Examples
  import opened Responses

  datatype Location = InPath | InQuery | InHeader

  /** A parameter object: `{ name, in, required, schema, description }`. */
  datatype Parameter = Parameter(name: string, location: Location, required: bool, schema: Schema, description: string)

  /** `requestBody`: a JSON object schema, required when some body field is. */
  datatype RequestBody = RequestBody(required: bool, schema: ObjectSchema)

  /** An operation object; `None` marks a key that is absent from the output. */
  datatype Operation = Operation(
    tags: Option<seq<string>>,
    summary: string,
    description: string,
    operationId: string,
    parameters: Option<seq<Parameter>>,
    requestBody: Option<RequestBody>,
    responses: ResponseMap)

  /** `(entry.type || 'get').toLowerCase()`. */
  function MethodOf(e: Entry): string {
    Lower(if e.verb == "" then "get" else e.verb)
  }

  /** `entry.url || '/unknown'`. */
  function RawPathOf(e: Entry): string {
    if e.url == "" then "/unknown" else e.url
  }

  /** The OpenAPI path key: the raw path with `:name` segments as `{name}`. */
  function PathOf(e: Entry): string {
    NormalizePath(RawPathOf(e))
  }

  /** `entry.name || verb + '_' + normalizedPath`: the base of the operation identifier. */
  function BaseOf(e: Entry): string {
    if e.name != "" then e.name else MethodOf(e) + "_" + PathOf(e)
  }

  /** Methods whose non-path parameters form a JSON request body. */
  predicate IsBodyMethod(verb: string) {
    verb == "post" || verb == "put" || verb == "patch"
  }

  /** `rawPath.includes(':' + name) || normalizedPath.includes('{' + name + '}')`: a plain substring test. */
  predicate InPathTest(name: string, raw: string, normalized: string) {
    Contains(raw, ":" + name) || Contains(normalized, "{" + name + "}")
  }

  /** A declared parameter field that becomes a request-body property. */
  predicate IsBodyField(f: Field, raw: string, normalized: string, verb: string) {
    !InPathTest(f.name, raw, normalized) && IsBodyMethod(verb)
  }

  /** The parameter object of a declared parameter field that is not a body property. */
  function FieldParameter(f: Field, raw: string, normalized: string): Parameter {
    if InPathTest(f.name, raw, normalized) then
      Parameter(f.name, InPath, true, MapTypeToSchema(f.typ), StripHtml(f.description))
    else
      Parameter(f.name, InQuery, !f.optional, MapTypeToSchema(f.typ), StripHtml(f.description))
  }

  /** The declared parameter fields that are not request-body properties, in order. */
  function NonBodyFields(fields: seq<Field>, raw: string, normalized: string, verb: string): (ns: seq<Field>)
    ensures |ns| <= |fields|
    ensures forall f :: f in ns <==> f in fields && !IsBodyField(f, raw, normalized, verb)
    decreases |fields|
  {
    if |fields| == 0 then []
    else
      var rest := NonBodyFields(fields[1..], raw, normalized, verb);
      assert forall f :: f in fields <==> f == fields[0] || f in fields[1..];
      if IsBodyField(fields[0], raw, normalized, verb) then rest else [fields[0]] + rest
  }

  /**
   * The parameter objects of the declared parameter fields, one per non-body
   * field and in field order: a field named in the path is a required path
   * parameter; otherwise, for a method without a body, a query parameter
   * required unless optional; body properties contribute nothing here.
   */
  function PathAndQueryParameters(fields: seq<Field>, raw: string, normalized: string, verb: string): (ps: seq<Parameter>)
    ensures |ps| == |NonBodyFields(fields, raw, normalized, verb)|
    ensures forall i :: 0 <= i < |ps| ==> ps[i] == FieldParameter(NonBodyFields(fields, raw, normalized, verb)[i], raw, normalized)
  {
    FieldParameters(NonBodyFields(fields, raw, normalized, verb), raw, normalized)
  }

  /** The parameter objects of the given fields, one per field and in field order. */
  function FieldParameters(fields: seq<Field>, raw: string, normalized: string): (ps: seq<Parameter>)
    ensures |ps| == |fields|
    ensures forall i :: 0 <= i < |ps| ==> ps[i] == FieldParameter(fields[i], raw, normalized)
    decreases |fields|
  {
    if |fields| == 0 then [] else [FieldParameter(fields[0], raw, normalized)] + FieldParameters(fields[1..], raw, normalized)
  }

  /** The path and query parameters are exactly the parameter objects of the non-body fields. */
  lemma PathAndQueryMembers(fields: seq<Field>, raw: string, normalized: string, verb: string)
    ensures forall p :: p in PathAndQueryParameters(fields, raw, normalized, verb) <==>
              exists f :: f in fields && !IsBodyField(f, raw, normalized, verb) && p == FieldParameter(f, raw, normalized)
  {
    var ps := PathAndQueryParameters(fields, raw, normalized, verb);
    var nb := NonBodyFields(fields, raw, normalized, verb);
    forall p | p in ps
      ensures exists f :: f in fields && !IsBodyField(f, raw, normalized, verb) && p == FieldParameter(f, raw, normalized)
    {
      var i :| 0 <= i < |ps| && ps[i] == p;
      assert nb[i] in nb;
    }
    forall f | f in fields && !IsBodyField(f, raw, normalized, verb)
      ensures FieldParameter(f, raw, normalized) in ps
    {
      var i :| 0 <= i < |nb| && nb[i] == f;
      assert ps[i] == FieldParameter(f, raw, normalized);
    }
  }

  /** The parameter object of a header field: always in `header`, required unless optional. */
  function HeaderParameter(f: Field): Parameter {
    Parameter(f.name, InHeader, !f.optional, MapTypeToSchema(f.typ), StripHtml(f.description))
  }

  lemma HeaderParameterShape(f: Field)
    ensures HeaderParameter(f).location == InHeader && HeaderParameter(f).name == f.name
    ensures HeaderParameter(f).required == !f.optional
  {
  }

  /** The header parameter objects, one per header field and in field order. */
  function HeaderParameters(fields: seq<Field>): (ps: seq<Parameter>)
    ensures |ps| == |fields|
    ensures forall i :: 0 <= i < |ps| ==> ps[i] == HeaderParameter(fields[i])
    decreases |fields|
  {
    if |fields| == 0 then []
    else
      var rest := HeaderParameters(fields[1..]);
      var ps := [HeaderParameter(fields[0])] + rest;
      ps
  }

  /** The declared parameter fields that become request-body properties, in order. */
  function BodyFields(fields: seq<Field>, raw: string, normalized: string, verb: string): (bs: seq<Field>)
    ensures forall f :: f in bs <==> f in fields && IsBodyField(f, raw, normalized, verb)
    decreases |fields|
  {
    if |fields| == 0 then []
    else
      var rest := BodyFields(fields[1..], raw, normalized, verb);
      assert forall f :: f in fields <==> f == fields[0] || f in fields[1..];
      if IsBodyField(fields[0], raw, normalized, verb) then [fields[0]] + rest else rest
  }

  /** A body property: the mapped type, described only when the stripped description is non-empty. */
  function BodyPropertySchema(f: Field): (s: Schema)
    ensures s.(description := MapTypeToSchema(f.typ).description) == MapTypeToSchema(f.typ)
    ensures StripHtml(f.description) != "" ==> s.description == Some(StripHtml(f.description))
    ensures StripHtml(f.description) == "" ==> s == MapTypeToSchema(f.typ)
  {
    var desc := StripHtml(f.description);
    var s := MapTypeToSchema(f.typ);
    if desc != "" then WithDescription(s, desc) else s
  }

  /** The request-body object schema: one property per body field name, the non-optional names required. */
  function BodySchema(bodyFields: seq<Field>): ObjectSchema {
    ObjectSchema(Properties(bodyFields, BodyPropertySchema), RequiredNames(bodyFields))
  }

  /**
   * `op.requestBody`: present exactly when some body property exists;
   * required exactly when some body field is not optional.
   */
  function RequestBodyOf(bodyFields: seq<Field>): (rb: Option<RequestBody>)
    ensures rb.Some? <==> |bodyFields| > 0
    ensures rb.Some? ==> (rb.value.required <==> !forall f :: f in bodyFields ==> f.optional)

    ensures rb.Some? ==> rb.value.schema == BodySchema(bodyFields)
  {
    if |bodyFields| == 0 then None
    else
      var required := RequiredNames(bodyFields);
      Some(RequestBody(|required| > 0, BodySchema(bodyFields)))
  }

  /** `stripHtml(entry.title || entry.name || otherwise)`. */
  function TitleOr(e: Entry, otherwise: string): string {
    StripHtml(if e.title != "" then e.title else if e.name != "" then e.name else otherwise)
  }

  /** The statuses the four passes touch. */
  function TouchedStatuses(e: Entry, parse: JsonParser): set<string> {
    OfferKeys(GroupOffers(e.success.groups, "200")) + OfferKeys(GroupOffers(e.error.groups, "400"))
      + OfferKeys(ExampleOffers(e.success.examples, "200", parse)) + OfferKeys(ExampleOffers(e.error.examples, "400", parse))
  }

  /**
   * The four accumulation passes in the source's order: success fields (fallback
   * `200`), error fields (fallback `400`), success examples, error examples.
   */
  function AccumulatedResponses(e: Entry, parse: JsonParser): (rs: ResponseMap)
    ensures rs.Keys == TouchedStatuses(e, parse)
  {
    var afterSuccess := AddResponsesFromFields(map[], e.success.groups, "200", TitleOr(e, "Success"));
    var afterError := AddResponsesFromFields(afterSuccess, e.error.groups, "400", TitleOr(e, "Error"));
    var withSuccess := AddExamples(afterError, e.success.examples, "200", TitleOr(e, "Success"), parse);
    AddExamples(withSuccess, e.error.examples, "400", "Error", parse)
  }

  /** The four passes over offers: schemas from success then error groups, then success and error example bodies. */
  function Accumulate(succ: seq<Offer<ObjectSchema>>, err: seq<Offer<ObjectSchema>>,
                      succEx: seq<Offer<Json>>, errEx: seq<Offer<Json>>, d: string, dErr: string): ResponseMap {
    AttachExamples(AttachExamples(SetSchemas(SetSchemas(map[], succ, d), err, dErr), succEx, d), errEx, "Error")
  }

  /** The four passes as seen from descriptions; the error examples always offer `Error`. */
  function Passes(succ: seq<Offer<ObjectSchema>>, err: seq<Offer<ObjectSchema>>,
                  succEx: seq<Offer<Json>>, errEx: seq<Offer<Json>>, d: string, dErr: string): seq<Pass> {
    [Pass(OfferKeys(succ), d), Pass(OfferKeys(err), dErr), Pass(OfferKeys(succEx), d), Pass(OfferKeys(errEx), "Error")]
  }

  /** After the four passes, every response carries the first non-empty description offered to its status. */
  lemma AccumulateDescribed(succ: seq<Offer<ObjectSchema>>, err: seq<Offer<ObjectSchema>>,
                            succEx: seq<Offer<Json>>, errEx: seq<Offer<Json>>, d: string, dErr: string)
    ensures DescribedBy(Accumulate(succ, err, succEx, errEx, d, dErr), Passes(succ, err, succEx, errEx, d, dErr))
  {
    var schemaPasses := [Pass(OfferKeys(succ), d), Pass(OfferKeys(err), dErr)];
    SchemaPassesDescribed(succ, err, d, dErr);
    ExamplePassesDescribed(SetSchemas(SetSchemas(map[], succ, d), err, dErr), schemaPasses, succEx, errEx, d);
    AppendTwo(schemaPasses[0], schemaPasses[1], Pass(OfferKeys(succEx), d), Pass(OfferKeys(errEx), "Error"));
  }

  lemma Singletons<T>(a: T, b: T)
    ensures [] + [a] == [a] && [a] + [b] == [a, b]
  {
  }

  lemma AppendTwo<T>(a: T, b: T, x: T, y: T)
    ensures [a, b] + [x] + [y] == [a, b, x, y]
  {
  }

  /** The two schema passes, from no responses at all. */
  lemma SchemaPassesDescribed(succ: seq<Offer<ObjectSchema>>, err: seq<Offer<ObjectSchema>>, d: string, dErr: string)
    ensures DescribedBy(SetSchemas(SetSchemas(map[], succ, d), err, dErr), [Pass(OfferKeys(succ), d), Pass(OfferKeys(err), dErr)])
  {
    var r1 := SetSchemas(map[], succ, d);
    SetSchemasDescribes(map[], succ, d);
    Singletons(Pass(OfferKeys(succ), d), Pass(OfferKeys(err), dErr));
    DescribedStep(map[], r1, [], Pass(OfferKeys(succ), d));
    SetSchemasDescribes(r1, err, dErr);
    DescribedStep(r1, SetSchemas(r1, err, dErr), [Pass(OfferKeys(succ), d)], Pass(OfferKeys(err), dErr));
  }

  /** The two example passes, after any passes that described the responses so far. */
  lemma ExamplePassesDescribed(r: ResponseMap, passes: seq<Pass>, succEx: seq<Offer<Json>>, errEx: seq<Offer<Json>>, d: string)
    requires DescribedBy(r, passes)
    ensures DescribedBy(AttachExamples(AttachExamples(r, succEx, d), errEx, "Error"),
                        passes + [Pass(OfferKeys(succEx), d)] + [Pass(OfferKeys(errEx), "Error")])
  {
    var r3 := AttachExamples(r, succEx, d);
    AttachExamplesDescribes(r, succEx, d);
    DescribedStep(r, r3, passes, Pass(OfferKeys(succEx), d));
    AttachExamplesDescribes(r3, errEx, "Error");
    DescribedStep(r3, AttachExamples(r3, errEx, "Error"), passes + [Pass(OfferKeys(succEx), d)], Pass(OfferKeys(errEx), "Error"));
  }

  /**
   * Precedence among the passes: a status's JSON schema comes from the last
   * error group offering one, else the last success group; its example is the
   * first non-null success body for it, else the first non-null error body;
   * its description is the first non-empty one a pass touching it offered.
   */
  lemma AccumulatePrecedence(succ: seq<Offer<ObjectSchema>>, err: seq<Offer<ObjectSchema>>,
                             succEx: seq<Offer<Json>>, errEx: seq<Offer<Json>>, d: string, dErr: string, k: string)
    requires k in Accumulate(succ, err, succEx, errEx, d, dErr)
    ensures SchemaOf(Accumulate(succ, err, succEx, errEx, d, dErr)[k]) ==
              (if LastSchema(err, k).Some? then LastSchema(err, k) else LastSchema(succ, k))
    ensures ExampleOf(Accumulate(succ, err, succEx, errEx, d, dErr)[k]) ==
              (if FirstBody(succEx, k).Some? then FirstBody(succEx, k) else FirstBody(errEx, k))
    ensures Accumulate(succ, err, succEx, errEx, d, dErr)[k].description == FirstDescription(Passes(succ, err, succEx, errEx, d, dErr), k)
  {
    AccumulateDescribed(succ, err, succEx, errEx, d, dErr);
    var r2 := SetSchemas(SetSchemas(map[], succ, d), err, dErr);
    var r3 := AttachExamples(r2, succEx, d);
    AttachExamplesFirstWins(r3, errEx, "Error", k);
    AttachExamplesKeepSchemas(r3, errEx, "Error", k);
    FirstBodyOffered(succEx, k);
    if k in r3 {
      AttachExamplesFirstWins(r2, succEx, d, k);
      AttachExamplesKeepSchemas(r2, succEx, d, k);
    }
    if k in r2 {
      SchemaPassPrecedence(succ, err, d, dErr, k);
    } else {
      NoSchemaOffered(succ, err, d, dErr, k);
    }
  }

  /** After both schema passes, a status's schema is the last error schema offered to it, else the last success schema. */
  lemma SchemaPassPrecedence(succ: seq<Offer<ObjectSchema>>, err: seq<Offer<ObjectSchema>>, d: string, dErr: string, k: string)
    requires k in SetSchemas(SetSchemas(map[], succ, d), err, dErr)
    ensures SchemaOf(SetSchemas(SetSchemas(map[], succ, d), err, dErr)[k]) ==
              (if LastSchema(err, k).Some? then LastSchema(err, k) else LastSchema(succ, k))
    ensures ExampleOf(SetSchemas(SetSchemas(map[], succ, d), err, dErr)[k]).None?
  {
    var r1 := SetSchemas(map[], succ, d);
    LastSchemaDefined(succ, k);
    SetSchemasLastWins(r1, err, dErr, k);
    SetSchemasKeepExamples(r1, err, dErr, k);
    if k in r1 {
      SetSchemasLastWins(map[], succ, d, k);
      SetSchemasKeepExamples(map[], succ, d, k);
    }
  }

  /** Before the example passes, a status untouched by the schema passes has no schema offered to it. */
  lemma NoSchemaOffered(succ: seq<Offer<ObjectSchema>>, err: seq<Offer<ObjectSchema>>, d: string, dErr: string, k: string)
    ensures k !in SetSchemas(SetSchemas(map[], succ, d), err, dErr) ==> LastSchema(err, k).None? && LastSchema(succ, k).None?
  {
    LastSchemaDefined(succ, k);
    LastSchemaDefined(err, k);
  }

  /** The entry's passes are the passes over its offers. */
  lemma AccumulatedAsOffers(e: Entry, parse: JsonParser)
    ensures AccumulatedResponses(e, parse) ==
              Accumulate(GroupOffers(e.success.groups, "200"), GroupOffers(e.error.groups, "400"),
                         ExampleOffers(e.success.examples, "200", parse), ExampleOffers(e.error.examples, "400", parse),
                         TitleOr(e, "Success"), TitleOr(e, "Error"))
  {
  }

  /**
   * The description of each accumulated response: the first non-empty one
   * among the descriptions offered to its status by the success groups, the
   * error groups, the success examples and the error examples (`null` bodies
   * included), in that order, and empty when all of those are empty. The
   * success and error descriptions are the stripped title, else name, else
   * `Success` or `Error`, and can strip to empty (a title `<br>`); the error
   * examples offer `Error`.
   */
  lemma AccumulatedDescriptions(e: Entry, parse: JsonParser, k: string)
    requires k in AccumulatedResponses(e, parse)
    ensures AccumulatedResponses(e, parse)[k].description ==
              FirstDescription([Pass(OfferKeys(GroupOffers(e.success.groups, "200")), TitleOr(e, "Success")),
                                Pass(OfferKeys(GroupOffers(e.error.groups, "400")), TitleOr(e, "Error")),
                                Pass(OfferKeys(ExampleOffers(e.success.examples, "200", parse)), TitleOr(e, "Success")),
                                Pass(OfferKeys(ExampleOffers(e.error.examples, "400", parse)), "Error")], k)
  {
    AccumulatedAsOffers(e, parse);
    AccumulateDescribed(GroupOffers(e.success.groups, "200"), GroupOffers(e.error.groups, "400"),
                        ExampleOffers(e.success.examples, "200", parse), ExampleOffers(e.error.examples, "400", parse),
                        TitleOr(e, "Success"), TitleOr(e, "Error"));
  }

  /**
   * `op.responses`: the accumulated responses, or a single `200` response
   * described by the success description (`Success` when that is empty)
   * when no pass touched any status.
   */
  function ResponsesOf(e: Entry, parse: JsonParser): (rs: ResponseMap)
    ensures |rs| > 0
    ensures TouchedStatuses(e, parse) != {} ==> rs == AccumulatedResponses(e, parse)
    ensures TouchedStatuses(e, parse) == {} ==>
              rs == map["200" := Response(if TitleOr(e, "Success") == "" then "Success" else TitleOr(e, "Success"), None)]
  {
    WithFallback(AccumulatedResponses(e, parse), TitleOr(e, "Success"))
  }

  /** The accumulated responses, or a lone `200` response described by `d` (`Success` when empty) when there are none. */
  function WithFallback(acc: ResponseMap, d: string): (rs: ResponseMap)
    ensures |rs| > 0
    ensures acc.Keys != {} ==> rs == acc
    ensures acc.Keys == {} ==> rs == map["200" := Response(if d == "" then "Success" else d, None)]
  {
    if acc.Keys == {} then
      map["200" := Response(if d == "" then "Success" else d, None)]
    else
      var k :| k in acc.Keys;
      assert |acc.Keys - {k}| < |acc.Keys|;
      acc
  }

  /** Every header parameter is in `header`, named as the header field at the same position and required unless it is optional. */
  lemma HeaderParametersShape(fields: seq<Field>)
    ensures forall i :: 0 <= i < |fields| ==>
              var p := HeaderParameters(fields)[i];
              p.location == InHeader && p.name == fields[i].name && p.required == !fields[i].optional
  {
    forall i | 0 <= i < |fields|
      ensures HeaderParameters(fields)[i].location == InHeader && HeaderParameters(fields)[i].name == fields[i].name
      ensures HeaderParameters(fields)[i].required == !fields[i].optional
    {
      HeaderParameterShape(fields[i]);
    }
  }

  /** The header parameters are exactly the parameter objects of the header fields. */
  lemma HeaderParametersMembers(fields: seq<Field>)
    ensures forall p :: p in HeaderParameters(fields) <==> exists f :: f in fields && p == HeaderParameter(f)
  {
    var hs := HeaderParameters(fields);
    forall p | p in hs ensures exists f :: f in fields && p == HeaderParameter(f) {
      var i :| 0 <= i < |hs| && hs[i] == p;
      assert fields[i] in fields;
    }
    forall f | f in fields ensures HeaderParameter(f) in hs {
      var i :| 0 <= i < |fields| && fields[i] == f;
      assert hs[i] == HeaderParameter(f);
    }
  }

  /**
   * `op.parameters`: the path and query parameters of the declared parameter
   * fields, then the header parameters; absent when there are none.
   */
  function ParametersOf(e: Entry): (ps: Option<seq<Parameter>>)
    ensures ps.None? <==>
              |NonBodyFields(AllFields(e.parameter), RawPathOf(e), PathOf(e), MethodOf(e))| == 0 && |AllFields(e.header)| == 0
    ensures var nb := NonBodyFields(AllFields(e.parameter), RawPathOf(e), PathOf(e), MethodOf(e));
            var headers := AllFields(e.header);
            ps.Some? ==>
              && |ps.value| == |nb| + |headers|
              && ps.value[..|nb|] == PathAndQueryParameters(AllFields(e.parameter), RawPathOf(e), PathOf(e), MethodOf(e))
              && ps.value[|nb|..] == HeaderParameters(headers)
  {
    var pq := PathAndQueryParameters(AllFields(e.parameter), RawPathOf(e), PathOf(e), MethodOf(e));
    var hs := HeaderParameters(AllFields(e.header));
    assert (pq + hs)[..|pq|] == pq && (pq + hs)[|pq|..] == hs;
    if |pq + hs| == 0 then None else Some(pq + hs)
  }

  /** `parameters` starts with one parameter per non-body parameter field, in field order. */
  lemma ParametersOfFieldOrder(e: Entry)
    ensures var nb := NonBodyFields(AllFields(e.parameter), RawPathOf(e), PathOf(e), MethodOf(e));
            ParametersOf(e).Some? ==>
              forall i :: 0 <= i < |nb| ==> ParametersOf(e).value[i] == FieldParameter(nb[i], RawPathOf(e), PathOf(e))
  {
    var nb := NonBodyFields(AllFields(e.parameter), RawPathOf(e), PathOf(e), MethodOf(e));
    if ParametersOf(e).Some? {
      var ps := ParametersOf(e).value;
      var pq := PathAndQueryParameters(AllFields(e.parameter), RawPathOf(e), PathOf(e), MethodOf(e));
      forall i | 0 <= i < |nb|
        ensures ps[i] == FieldParameter(nb[i], RawPathOf(e), PathOf(e))
      {
        assert ps[i] == ps[..|nb|][i];
      }
    }
  }

  /**
   * After the non-body fields' parameters come the header parameters, in
   * header field order: position `|nb| + i` holds the one for header `i`.
   */
  lemma ParametersOfHeaderOrder(e: Entry)
    ensures var nb := NonBodyFields(AllFields(e.parameter), RawPathOf(e), PathOf(e), MethodOf(e));
            var headers := AllFields(e.header);
            ParametersOf(e).Some? ==>
              forall i :: 0 <= i < |headers| ==> ParametersOf(e).value[|nb|..][i] == HeaderParameter(headers[i])
  {
  }

  /**
   * `parameters` is absent exactly when every declared parameter field is a
   * body property and there is no header field; otherwise it holds every
   * non-body parameter field's parameter and every header parameter.
   */
  lemma ParametersOfMembers(e: Entry)
    ensures ParametersOf(e).None? <==>
              (forall f :: f in AllFields(e.parameter) ==> IsBodyField(f, RawPathOf(e), PathOf(e), MethodOf(e)))
              && |AllFields(e.header)| == 0
    ensures forall f :: f in AllFields(e.parameter) && !IsBodyField(f, RawPathOf(e), PathOf(e), MethodOf(e)) ==>
              ParametersOf(e).Some? && FieldParameter(f, RawPathOf(e), PathOf(e)) in ParametersOf(e).value
    ensures forall f :: f in AllFields(e.header) ==> ParametersOf(e).Some? && HeaderParameter(f) in ParametersOf(e).value
  {
    var fields := AllFields(e.parameter);
    var nb := NonBodyFields(fields, RawPathOf(e), PathOf(e), MethodOf(e));
    var pq := PathAndQueryParameters(fields, RawPathOf(e), PathOf(e), MethodOf(e));
    var hs := HeaderParameters(AllFields(e.header));
    PathAndQueryMembers(fields, RawPathOf(e), PathOf(e), MethodOf(e));
    HeaderParametersMembers(AllFields(e.header));
    assert |nb| > 0 ==> nb[0] in nb;
    if ParametersOf(e).Some? {
      var ps := ParametersOf(e).value;
      assert ps == ps[..|nb|] + ps[|nb|..];
      assert forall p :: p in pq ==> p in ps;
      assert forall p :: p in hs ==> p in ps;
    }
  }

  /** Every parameter comes from a non-body parameter field or from a header field. */
  lemma ParametersOfOnly(e: Entry)
    ensures ParametersOf(e).Some? ==> forall p :: p in ParametersOf(e).value ==>
              (exists f :: f in AllFields(e.parameter) && !IsBodyField(f, RawPathOf(e), PathOf(e), MethodOf(e))
                           && p == FieldParameter(f, RawPathOf(e), PathOf(e)))
              || (exists f :: f in AllFields(e.header) && p == HeaderParameter(f))
  {
    var fields := AllFields(e.parameter);
    var pq := PathAndQueryParameters(fields, RawPathOf(e), PathOf(e), MethodOf(e));
    var hs := HeaderParameters(AllFields(e.header));
    PathAndQueryMembers(fields, RawPathOf(e), PathOf(e), MethodOf(e));
    HeaderParametersMembers(AllFields(e.header));
    if ParametersOf(e).Some? {
      var ps := ParametersOf(e).value;
      var nb := NonBodyFields(fields, RawPathOf(e), PathOf(e), MethodOf(e));
      assert ps == pq + hs by {
        assert ps == ps[..|nb|] + ps[|nb|..];
      }
      assert forall p :: p in ps ==> p in pq || p in hs;
    }
  }

  /**
   * `op.requestBody`: present exactly when some declared parameter field is
   * a body field, so never for a method without a body; required exactly
   * when some body field is not optional.
   */
  function RequestBodyOfEntry(e: Entry): (rb: Option<RequestBody>)
    ensures rb.Some? <==> exists f :: f in AllFields(e.parameter) && IsBodyField(f, RawPathOf(e), PathOf(e), MethodOf(e))
    ensures rb.Some? ==>
              (rb.value.required <==>
                 !forall f :: f in AllFields(e.parameter) && IsBodyField(f, RawPathOf(e), PathOf(e), MethodOf(e)) ==> f.optional)
    ensures !IsBodyMethod(MethodOf(e)) ==> rb.None?
  {
    var bodyFields := BodyFields(AllFields(e.parameter), RawPathOf(e), PathOf(e), MethodOf(e));
    assert |bodyFields| > 0 ==> bodyFields[0] in bodyFields;
    RequestBodyOf(bodyFields)
  }

  /**
   * The operation object for entry `e` with identifier `operationId` (issued
   * by the run-scoped counter): tags from the group, summary from the title
   * or name, stripped description, and the parts above.
   */
  function BuildOperation(e: Entry, operationId: string, parse: JsonParser): (op: Operation)
    ensures op.operationId == operationId
    ensures |op.responses| > 0
    ensures op.tags.Some? <==> e.group != ""
    ensures e.group != "" ==> op.tags == Some([e.group])
    ensures op.summary == (if e.title != "" then e.title else e.name)
    ensures op.description == StripHtml(e.description)
    ensures op.parameters == ParametersOf(e) && op.requestBody == RequestBodyOfEntry(e) && op.responses == ResponsesOf(e, parse)
  {
    Operation(
      if e.group != "" then Some([e.group]) else None,
      if e.title != "" then e.title else e.name,
      StripHtml(e.description),
      operationId,
      ParametersOf(e),
      RequestBodyOfEntry(e),
      ResponsesOf(e, parse))
  }

  /** A path parameter is always required; a query or header parameter is required unless its field is optional. */
  lemma PathParametersRequired(f: Field, raw: string, normalized: string)
    ensures var p := FieldParameter(f, raw, normalized);
      && (p.location == InPath <==> InPathTest(f.name, raw, normalized))
      && (p.location == InPath ==> p.required)
      && (p.location == InQuery ==> p.required == !f.optional)
      && p.location != InHeader
  {
  }

  /**
   * The in-path test is a substring test: a field `id` counts as a path
   * parameter of `/users/:idx`, because `:id` occurs in it.
   */
  lemma PrefixNameCountsAsInPath(raw: string)
    requires raw == "/users/:idx"
    ensures InPathTest("id", raw, NormalizePath(raw))
  {
    assert ":" + "id" == ":id";
    assert raw[7..10] == ":id";
    assert OccursAt(raw, ":id", 7);
  }
}
