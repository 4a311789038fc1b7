/**
 * Response accumulation: per-status response objects built from the field
 * groups and the example blocks of an entry's `success` and `error` sections.
 */
module Responses {
  import opened Wrappers
  import opened Text
  import opened ApiDoc
  import opened Schemas
  import opened TextHelpers
  import opened Examples

  /** The `application/json` media object: a schema from field groups, an example from example blocks. */
  datatype Media = Media(schema: Option<ObjectSchema>, example: Option<Json>)

  /** A response object; `content` is absent until a schema or an example is attached. */
  datatype Response = Response(description: string, content: Option<Media>)

  /** `op.responses`, keyed by status code. */
  type ResponseMap = map<string, Response>

  const NoMedia := Media(None, None)

  function MediaOf(r: Response): Media {
    r.content.GetOr(NoMedia)
  }

  function SchemaOf(r: Response): Option<ObjectSchema> {
    MediaOf(r).schema
  }

  function ExampleOf(r: Response): Option<Json> {
    MediaOf(r).example
  }

  /** `statusCode || '200'`. */
  function StatusKey(statusCode: string): (k: string)
    ensures k != ""
    ensures statusCode != "" ==> k == statusCode
  {
    if statusCode == "" then "200" else statusCode
  }

  /**
   * `ensureResponse`: creates the response for the status with the offered
   * description when it is missing; an existing response keeps its content,
   * and its description is replaced only when it was empty. Nothing else changes.
   */
  function EnsureResponse(rs: ResponseMap, statusCode: string, description: string): (r: ResponseMap)
    ensures r.Keys == rs.Keys + {StatusKey(statusCode)}
    ensures forall j :: j in rs && j != StatusKey(statusCode) ==> r[j] == rs[j]
    ensures StatusKey(statusCode) !in rs ==> r[StatusKey(statusCode)] == Response(description, None)
    ensures StatusKey(statusCode) in rs ==>
              && r[StatusKey(statusCode)].content == rs[StatusKey(statusCode)].content
              && r[StatusKey(statusCode)].description ==
                   (if rs[StatusKey(statusCode)].description == "" then description
                    else rs[StatusKey(statusCode)].description)
  {
    var k := StatusKey(statusCode);
    if k !in rs then rs[k := Response(description, None)]
    else if rs[k].description == "" && description != "" then rs[k := rs[k].(description := description)]
    else rs
  }

  /** Once a response has a non-empty description, no later response-adding step changes it. */
  predicate DescriptionsKept(before: ResponseMap, after: ResponseMap) {
    && before.Keys <= after.Keys
    && forall k :: k in before && before[k].description != "" ==> after[k].description == before[k].description
  }

  /**
   * What one pass over offers does to descriptions: it adds the `statuses`
   * it touches, leaves every other response as it was, gives a touched
   * response that is new or blank the pass's `description`, and keeps every
   * non-empty description.
   */
  predicate PassDescribes(before: ResponseMap, after: ResponseMap, statuses: set<string>, description: string) {
    && after.Keys == before.Keys + statuses
    && (forall k :: k in before && k !in statuses ==> after[k] == before[k])
    && (forall k :: k in statuses && (k !in before || before[k].description == "") ==> after[k].description == description)
    && DescriptionsKept(before, after)
  }

  /** Two passes with the same description, one after the other, act as one pass over both status sets. */
  lemma PassDescribesCompose(a: ResponseMap, b: ResponseMap, c: ResponseMap, s1: set<string>, s2: set<string>, description: string)
    requires PassDescribes(a, b, s1, description) && PassDescribes(b, c, s2, description)
    ensures PassDescribes(a, c, s1 + s2, description)
  {
    forall k | k in s1 + s2 && (k !in a || a[k].description == "")
      ensures c[k].description == description
    {
      if k in s1 && k !in s2 {
        assert c[k] == b[k];
      } else if k !in s1 {
        assert k !in b || b[k].description == "";
      } else if description == "" {
        assert b[k].description == "";
      }
    }
  }

  /** One accumulation pass, seen from descriptions: the statuses it touches and the description it offers. */
  datatype Pass = Pass(statuses: set<string>, description: string)

  /** Reference: the first non-empty description offered by a pass touching `k`, else empty. */
  function FirstDescription(passes: seq<Pass>, k: string): string
    decreases |passes|
  {
    if |passes| == 0 then ""
    else if k in passes[0].statuses && passes[0].description != "" then passes[0].description
    else FirstDescription(passes[1..], k)
  }

  /** One more pass changes the first description only where none was offered yet. */
  lemma {:induction false} FirstDescriptionSnoc(passes: seq<Pass>, p: Pass, k: string)
    ensures FirstDescription(passes + [p], k) ==
              (if FirstDescription(passes, k) != "" then FirstDescription(passes, k)
               else if k in p.statuses then p.description else "")
    decreases |passes|
  {
    if |passes| == 0 {
      assert passes + [p] == [p];
    } else {
      assert (passes + [p])[1..] == passes[1..] + [p];
      FirstDescriptionSnoc(passes[1..], p, k);
    }
  }

  /** Every response carries the first non-empty description the passes offered its status; untouched statuses had none offered. */
  ghost predicate DescribedBy(r: ResponseMap, passes: seq<Pass>) {
    && (forall k :: k in r ==> r[k].description == FirstDescription(passes, k))
    && (forall k :: k !in r ==> FirstDescription(passes, k) == "")
  }

  /** A pass that acts as `PassDescribes` says extends `DescribedBy` by that pass. */
  lemma DescribedStep(r: ResponseMap, r': ResponseMap, passes: seq<Pass>, p: Pass)
    requires DescribedBy(r, passes) && PassDescribes(r, r', p.statuses, p.description)
    ensures DescribedBy(r', passes + [p])
  {
    forall k
      ensures k in r' ==> r'[k].description == FirstDescription(passes + [p], k)
      ensures k !in r' ==> FirstDescription(passes + [p], k) == ""
    {
      FirstDescriptionSnoc(passes, p, k);
    }
  }

  // ---------------------------------------------------------------------------
  // Object schemas from fields
  // ---------------------------------------------------------------------------

  /** No later field has the same name as field `i`. */
  predicate LastWithName(fields: seq<Field>, i: int)
    requires 0 <= i < |fields|
  {
    forall j :: i < j < |fields| ==> fields[j].name != fields[i].name
  }

  /** `properties[f.field] = schemaOf(f)` over the fields in order: one key per field name. */
  function Properties(fields: seq<Field>, schemaOf: Field -> Schema): (props: map<string, Schema>)
    ensures props.Keys == set f | f in fields :: f.name
    decreases |fields|
  {
    if |fields| == 0 then map[]
    else
      var init := fields[..|fields| - 1];
      var last := fields[|fields| - 1];
      assert forall f :: f in fields <==> f in init || f == last;
      Properties(init, schemaOf)[last.name := schemaOf(last)]
  }

  /** Each property holds the schema of the last field with that name: later fields overwrite earlier ones. */
  lemma {:induction false} PropertiesLastWins(fields: seq<Field>, schemaOf: Field -> Schema)
    ensures forall i :: 0 <= i < |fields| && LastWithName(fields, i) ==>
      Properties(fields, schemaOf)[fields[i].name] == schemaOf(fields[i])
    decreases |fields|
  {
    if |fields| > 0 {
      var init := fields[..|fields| - 1];
      var last := fields[|fields| - 1];
      PropertiesLastWins(init, schemaOf);
      forall i | 0 <= i < |fields| && LastWithName(fields, i)
        ensures Properties(fields, schemaOf)[fields[i].name] == schemaOf(fields[i])
      {
        if i < |fields| - 1 {
          assert fields[i].name != last.name;
          assert init[i] == fields[i];
          assert LastWithName(init, i);
        }
      }
    }
  }

  /** `required`: the names of the non-optional fields, in order (repeats included). */
  function RequiredNames(fields: seq<Field>): (names: seq<string>)
    ensures |names| <= |fields|
    ensures forall n :: n in names <==> exists f :: f in fields && !f.optional && f.name == n
    ensures |names| == 0 <==> forall f :: f in fields ==> f.optional
  {
    if |fields| == 0 then []
    else
      var rest := RequiredNames(fields[1..]);
      assert forall f :: f in fields <==> f == fields[0] || f in fields[1..];
      if fields[0].optional then rest else [fields[0].name] + rest
  }

  /** One field contributes its name exactly when it is not optional. */
  lemma RequiredNamesSingle(f: Field)
    ensures RequiredNames([f]) == (if f.optional then [] else [f.name])
  {
    assert [f][1..] == [];
  }

  /** The names of two field lists come in list order, the first list's first; repeats are kept. */
  lemma {:induction false} RequiredNamesAppend(a: seq<Field>, b: seq<Field>)
    ensures RequiredNames(a + b) == RequiredNames(a) + RequiredNames(b)
    decreases |a|
  {
    if |a| == 0 {
      assert a + b == b;
    } else {
      assert (a + b)[0] == a[0];
      assert (a + b)[1..] == a[1..] + b;
      RequiredNamesAppend(a[1..], b);
    }
  }

  /** The schema of a response field: its mapped type, described by its stripped description when it has one. */
  function ResponsePropertySchema(f: Field): (s: Schema)
    ensures s.(description := MapTypeToSchema(f.typ).description) == MapTypeToSchema(f.typ)
    ensures f.description != "" ==> s.description == Some(StripHtml(f.description))
    ensures f.description == "" ==> s == MapTypeToSchema(f.typ)
  {
    var s := MapTypeToSchema(f.typ);
    if f.description != "" then WithDescription(s, StripHtml(f.description)) else s
  }

  /** The object schema of one response field group. */
  function GroupSchema(fields: seq<Field>): ObjectSchema {
    ObjectSchema(Properties(fields, ResponsePropertySchema), RequiredNames(fields))
  }

  // ---------------------------------------------------------------------------
  // Offers: what each field group or example block contributes to one status
  // ---------------------------------------------------------------------------

  /** A value offered to the response of a status code (`""` standing for the default `200`). */
  datatype Offer<T> = Offer(status: string, value: T)

  /** The status a field group contributes to: the first three-digit code in its title, else the fallback. */
  function GroupStatus(g: FieldGroup, fallback: string): string {
    ExtractStatusCode(g.title, fallback)
  }

  /** Each field group offers its object schema to its status. */
  function GroupOffers(groups: seq<FieldGroup>, fallback: string): (offers: seq<Offer<ObjectSchema>>)
    ensures |offers| == |groups|
    ensures forall i :: 0 <= i < |groups| ==>
              offers[i] == Offer(GroupStatus(groups[i], fallback), GroupSchema(groups[i].fields))
  {
    seq(|groups|, i requires 0 <= i < |groups| => Offer(GroupStatus(groups[i], fallback), GroupSchema(groups[i].fields)))
  }

  /**
   * `parsed.status || extractStatusCode(ex.title, fallback) || fallback`: the
   * code of the leftmost status line of the content; without one, the leftmost
   * word-bounded three-digit code of the title; without that, the fallback.
   */
  function ExampleStatus(ex: ExampleBlock, fallback: string, parse: JsonParser): (status: string)
    ensures forall i :: StatusLineAt(ex.content, i) && (forall j :: 0 <= j < i ==> !StatusLineAt(ex.content, j))
              ==> status == StatusLineCode(ex.content, i)
    ensures (forall i :: !StatusLineAt(ex.content, i)) ==>
              forall i :: StatusAt(ex.title, i) && (forall j :: 0 <= j < i ==> !StatusAt(ex.title, j))
                ==> status == ex.title[i..i + 3]
    ensures (forall i :: !StatusLineAt(ex.content, i)) && (forall i :: !StatusAt(ex.title, i)) ==> status == fallback
  {
    var parsed := ParseExample(ex.content, parse);
    var fromTitle := ExtractStatusCode(ex.title, fallback);
    if parsed.status.Some? then parsed.status.value else if fromTitle != "" then fromTitle else fallback
  }

  /** Each example block offers its parsed body (possibly `null`) to its status, in block order. */
  function ExampleOffers(exs: seq<ExampleBlock>, fallback: string, parse: JsonParser): (offers: seq<Offer<Json>>)
    ensures |offers| == |exs|
    ensures forall i :: 0 <= i < |exs| ==> offers[i].status == ExampleStatus(exs[i], fallback, parse)
    ensures forall i :: 0 <= i < |exs| ==> offers[i].value == ParseExample(exs[i].content, parse).body
  {
    seq(|exs|, i requires 0 <= i < |exs| => Offer(ExampleStatus(exs[i], fallback, parse), ParseExample(exs[i].content, parse).body))
  }

  /** The statuses a sequence of offers touches. */
  function OfferKeys<T(==)>(offers: seq<Offer<T>>): (keys: set<string>)
    ensures forall o :: o in offers ==> StatusKey(o.status) in keys
    ensures forall k :: k in keys ==> exists o :: o in offers && StatusKey(o.status) == k
  {
    set o | o in offers :: StatusKey(o.status)
  }

  /** The statuses of a non-empty offer sequence: its first offer's, then the rest's. */
  lemma OfferKeysCons<T>(offers: seq<Offer<T>>)
    requires |offers| > 0
    ensures OfferKeys(offers) == {StatusKey(offers[0].status)} + OfferKeys(offers[1..])
  {
    assert forall o :: o in offers <==> o == offers[0] || o in offers[1..];
  }

  // ---------------------------------------------------------------------------
  // addResponsesFromFields
  // ---------------------------------------------------------------------------

  /** Reference: the last schema (in order) offered to status `k`. */
  function LastSchema(offers: seq<Offer<ObjectSchema>>, k: string): Option<ObjectSchema>
    decreases |offers|
  {
    if |offers| == 0 then None
    else match LastSchema(offers[1..], k)
      case Some(s) => Some(s)
      case None => if StatusKey(offers[0].status) == k then Some(offers[0].value) else None
  }

  /** Some schema is offered to `k` exactly when `k` is among the offered statuses. */
  lemma {:induction false} LastSchemaDefined(offers: seq<Offer<ObjectSchema>>, k: string)
    ensures LastSchema(offers, k).Some? <==> k in OfferKeys(offers)
    decreases |offers|
  {
    if |offers| > 0 {
      LastSchemaDefined(offers[1..], k);
      assert forall o :: o in offers <==> o == offers[0] || o in offers[1..];
    }
  }

  /** One iteration of `addResponsesFromFields`: ensure the response, then overwrite its JSON schema. */
  function SetSchema(rs: ResponseMap, o: Offer<ObjectSchema>, description: string): (r: ResponseMap)
    ensures r.Keys == rs.Keys + {StatusKey(o.status)}
    ensures forall j :: j in rs && j != StatusKey(o.status) ==> r[j] == rs[j]
    ensures SchemaOf(r[StatusKey(o.status)]) == Some(o.value)
    ensures StatusKey(o.status) in rs ==> ExampleOf(r[StatusKey(o.status)]) == ExampleOf(rs[StatusKey(o.status)])
    ensures StatusKey(o.status) !in rs ==> ExampleOf(r[StatusKey(o.status)]).None?
    ensures DescriptionsKept(rs, r)
    ensures PassDescribes(rs, r, {StatusKey(o.status)}, description)
  {
    var k := StatusKey(o.status);
    var ensured := EnsureResponse(rs, o.status, description);
    var resp := ensured[k];
    ensured[k := resp.(content := Some(MediaOf(resp).(schema := Some(o.value))))]
  }

  /** The loop of `addResponsesFromFields` over offered schemas: every offered status gets a response. */
  function SetSchemas(rs: ResponseMap, offers: seq<Offer<ObjectSchema>>, description: string): (r: ResponseMap)
    ensures r.Keys == rs.Keys + OfferKeys(offers)
    decreases |offers|
  {
    if |offers| == 0 then rs
    else
      OfferKeysCons(offers);
      SetSchemas(SetSchema(rs, offers[0], description), offers[1..], description)
  }

  /** The JSON schema of a response is the last schema offered to its status; an unoffered response is untouched. */
  lemma {:induction false} SetSchemasLastWins(rs: ResponseMap, offers: seq<Offer<ObjectSchema>>, description: string, k: string)
    requires k in SetSchemas(rs, offers, description)
    ensures LastSchema(offers, k).Some? ==> SchemaOf(SetSchemas(rs, offers, description)[k]) == LastSchema(offers, k)
    ensures LastSchema(offers, k).None? ==> k in rs && SetSchemas(rs, offers, description)[k] == rs[k]
    decreases |offers|
  {
    if |offers| > 0 {
      var next := SetSchema(rs, offers[0], description);
      SetSchemasLastWins(next, offers[1..], description, k);
    }
  }

  /** Setting schemas never changes an example, and a response it creates has none. */
  lemma {:induction false} SetSchemasKeepExamples(rs: ResponseMap, offers: seq<Offer<ObjectSchema>>, description: string, k: string)
    requires k in SetSchemas(rs, offers, description)
    ensures ExampleOf(SetSchemas(rs, offers, description)[k]) == (if k in rs then ExampleOf(rs[k]) else None)
    decreases |offers|
  {
    if |offers| > 0 {
      var next := SetSchema(rs, offers[0], description);
      SetSchemasKeepExamples(next, offers[1..], description, k);
    }
  }

  /** The loop of `addResponsesFromFields` is one pass over the offered statuses. */
  lemma {:induction false} SetSchemasDescribes(rs: ResponseMap, offers: seq<Offer<ObjectSchema>>, description: string)
    ensures PassDescribes(rs, SetSchemas(rs, offers, description), OfferKeys(offers), description)
    decreases |offers|
  {
    if |offers| == 0 {
      assert OfferKeys(offers) == {};
    } else {
      var next := SetSchema(rs, offers[0], description);
      SetSchemasDescribes(next, offers[1..], description);
      OfferKeysCons(offers);
      PassDescribesCompose(rs, next, SetSchemas(next, offers[1..], description),
                           {StatusKey(offers[0].status)}, OfferKeys(offers[1..]), description);
    }
  }

  /** The per-status facts about `SetSchemas`, for all statuses at once. */
  lemma SetSchemasAll(rs: ResponseMap, offers: seq<Offer<ObjectSchema>>, description: string)
    ensures var r := SetSchemas(rs, offers, description);
      && (forall k :: k in r && LastSchema(offers, k).Some? ==> SchemaOf(r[k]) == LastSchema(offers, k))
      && (forall k :: k in r ==> ExampleOf(r[k]) == (if k in rs then ExampleOf(rs[k]) else None))
  {
    var r := SetSchemas(rs, offers, description);
    forall k | k in r
      ensures LastSchema(offers, k).Some? ==> SchemaOf(r[k]) == LastSchema(offers, k)
      ensures ExampleOf(r[k]) == (if k in rs then ExampleOf(rs[k]) else None)
    {
      SetSchemasLastWins(rs, offers, description, k);
      SetSchemasKeepExamples(rs, offers, description, k);
    }
  }

  /**
   * `addResponsesFromFields`: each group's status (from its title, else the
   * fallback) gets a response, whose JSON schema is that of the last group
   * with that status; examples and non-empty descriptions are untouched.
   */
  function AddResponsesFromFields(rs: ResponseMap, groups: seq<FieldGroup>, fallback: string, description: string): (r: ResponseMap)
    ensures r.Keys == rs.Keys + OfferKeys(GroupOffers(groups, fallback))
    ensures forall k :: k in r && LastSchema(GroupOffers(groups, fallback), k).Some? ==>
              SchemaOf(r[k]) == LastSchema(GroupOffers(groups, fallback), k)
    ensures forall k :: k in r ==> ExampleOf(r[k]) == (if k in rs then ExampleOf(rs[k]) else None)
    ensures forall k :: k in rs && k !in OfferKeys(GroupOffers(groups, fallback)) ==> r[k] == rs[k]
    ensures forall k :: k in OfferKeys(GroupOffers(groups, fallback)) && (k !in rs || rs[k].description == "") ==>
              r[k].description == description
    ensures DescriptionsKept(rs, r)
  {
    var offers := GroupOffers(groups, fallback);
    SetSchemasSummary(rs, offers, description);
    SetSchemas(rs, offers, description)
  }

  /** Everything `AddResponsesFromFields` promises, for any offer sequence. */
  lemma SetSchemasSummary(rs: ResponseMap, offers: seq<Offer<ObjectSchema>>, description: string)
    ensures var r := SetSchemas(rs, offers, description);
      && r.Keys == rs.Keys + OfferKeys(offers)
      && (forall k :: k in r && LastSchema(offers, k).Some? ==> SchemaOf(r[k]) == LastSchema(offers, k))
      && (forall k :: k in r ==> ExampleOf(r[k]) == (if k in rs then ExampleOf(rs[k]) else None))
      && (forall k :: k in rs && k !in OfferKeys(offers) ==> r[k] == rs[k])
      && (forall k :: k in OfferKeys(offers) && (k !in rs || rs[k].description == "") ==> r[k].description == description)
      && DescriptionsKept(rs, r)
  {
    SetSchemasAll(rs, offers, description);
    SetSchemasDescribes(rs, offers, description);
  }

  // ---------------------------------------------------------------------------
  // addExamples
  // ---------------------------------------------------------------------------

  /** Reference: the first non-null body (in order) offered to status `k`. */
  function FirstBody(offers: seq<Offer<Json>>, k: string): Option<Json>
    decreases |offers|
  {
    if |offers| == 0 then None
    else if StatusKey(offers[0].status) == k && offers[0].value != JNull then Some(offers[0].value)
    else FirstBody(offers[1..], k)
  }

  /** A body offered to `k` was offered by one of the offers for `k`. */
  lemma {:induction false} FirstBodyOffered(offers: seq<Offer<Json>>, k: string)
    ensures FirstBody(offers, k).Some? ==> k in OfferKeys(offers) && FirstBody(offers, k).value != JNull
    decreases |offers|
  {
    if |offers| > 0 {
      FirstBodyOffered(offers[1..], k);
      assert forall o :: o in offers <==> o == offers[0] || o in offers[1..];
    }
  }

  /** One iteration of `addExamples`: ensure the response; attach a non-null body unless an example is already there. */
  function AttachExample(rs: ResponseMap, o: Offer<Json>, description: string): (r: ResponseMap)
    ensures r.Keys == rs.Keys + {StatusKey(o.status)}
    ensures forall j :: j in rs && j != StatusKey(o.status) ==> r[j] == rs[j]
    ensures forall j :: j in rs ==> SchemaOf(r[j]) == SchemaOf(rs[j])
    ensures StatusKey(o.status) !in rs ==> SchemaOf(r[StatusKey(o.status)]).None?
    ensures var k := StatusKey(o.status);
            var before := if k in rs then ExampleOf(rs[k]) else None;
            ExampleOf(r[k]) == (if before.Some? then before else if o.value != JNull then Some(o.value) else None)
    ensures DescriptionsKept(rs, r)
    ensures PassDescribes(rs, r, {StatusKey(o.status)}, description)
  {
    var k := StatusKey(o.status);
    var ensured := EnsureResponse(rs, o.status, description);
    if o.value == JNull then ensured
    else
      var resp := ensured[k];
      var media := MediaOf(resp);
      var media' := if media.example.None? then media.(example := Some(o.value)) else media;
      ensured[k := resp.(content := Some(media'))]
  }

  /** The loop of `addExamples` over offered bodies: every offered status gets a response, even for a `null` body. */
  function AttachExamples(rs: ResponseMap, offers: seq<Offer<Json>>, description: string): (r: ResponseMap)
    ensures r.Keys == rs.Keys + OfferKeys(offers)
    decreases |offers|
  {
    if |offers| == 0 then rs
    else
      OfferKeysCons(offers);
      AttachExamples(AttachExample(rs, offers[0], description), offers[1..], description)
  }

  /** A response's example is the one it already had, else the first non-null body offered to its status. */
  lemma {:induction false} AttachExamplesFirstWins(rs: ResponseMap, offers: seq<Offer<Json>>, description: string, k: string)
    requires k in AttachExamples(rs, offers, description)
    ensures ExampleOf(AttachExamples(rs, offers, description)[k]) ==
              (if k in rs && ExampleOf(rs[k]).Some? then ExampleOf(rs[k]) else FirstBody(offers, k))
    decreases |offers|
  {
    if |offers| > 0 {
      var next := AttachExample(rs, offers[0], description);
      AttachExamplesFirstWins(next, offers[1..], description, k);
      AttachExampleStep(rs, offers[0], description, k, FirstBody(offers[1..], k));
    }
  }

  /** One attachment step, seen from status `k`, in front of the body `later` the remaining offers would give. */
  lemma AttachExampleStep(rs: ResponseMap, o: Offer<Json>, description: string, k: string, later: Option<Json>)
    ensures var next := AttachExample(rs, o, description);
      (if k in next && ExampleOf(next[k]).Some? then ExampleOf(next[k]) else later) ==
      (if k in rs && ExampleOf(rs[k]).Some? then ExampleOf(rs[k])
       else if StatusKey(o.status) == k && o.value != JNull then Some(o.value) else later)
  {
  }

  /** Attaching examples never changes a schema, and a response it creates has none. */
  lemma {:induction false} AttachExamplesKeepSchemas(rs: ResponseMap, offers: seq<Offer<Json>>, description: string, k: string)
    requires k in AttachExamples(rs, offers, description)
    ensures SchemaOf(AttachExamples(rs, offers, description)[k]) == (if k in rs then SchemaOf(rs[k]) else None)
    decreases |offers|
  {
    if |offers| > 0 {
      var next := AttachExample(rs, offers[0], description);
      AttachExamplesKeepSchemas(next, offers[1..], description, k);
    }
  }

  /** The loop of `addExamples` is one pass over the offered statuses, `null` bodies included. */
  lemma {:induction false} AttachExamplesDescribes(rs: ResponseMap, offers: seq<Offer<Json>>, description: string)
    ensures PassDescribes(rs, AttachExamples(rs, offers, description), OfferKeys(offers), description)
    decreases |offers|
  {
    if |offers| == 0 {
      assert OfferKeys(offers) == {};
    } else {
      var next := AttachExample(rs, offers[0], description);
      AttachExamplesDescribes(next, offers[1..], description);
      OfferKeysCons(offers);
      PassDescribesCompose(rs, next, AttachExamples(next, offers[1..], description),
                           {StatusKey(offers[0].status)}, OfferKeys(offers[1..]), description);
    }
  }

  /** The per-status facts about `AttachExamples`, for all statuses at once. */
  lemma AttachExamplesAll(rs: ResponseMap, offers: seq<Offer<Json>>, description: string)
    ensures var r := AttachExamples(rs, offers, description);
      && (forall k :: k in r ==>
            ExampleOf(r[k]) == (if k in rs && ExampleOf(rs[k]).Some? then ExampleOf(rs[k]) else FirstBody(offers, k)))
      && (forall k :: k in r ==> SchemaOf(r[k]) == (if k in rs then SchemaOf(rs[k]) else None))
  {
    var r := AttachExamples(rs, offers, description);
    forall k | k in r
      ensures ExampleOf(r[k]) == (if k in rs && ExampleOf(rs[k]).Some? then ExampleOf(rs[k]) else FirstBody(offers, k))
      ensures SchemaOf(r[k]) == (if k in rs then SchemaOf(rs[k]) else None)
    {
      AttachExamplesFirstWins(rs, offers, description, k);
      AttachExamplesKeepSchemas(rs, offers, description, k);
    }
  }

  /**
   * `addExamples`: each block's status (from its status line, else its
   * title, else the fallback) gets a response; its example is the one it
   * already had, else the first non-null parsed body for that status;
   * schemas and non-empty descriptions are untouched.
   */
  function AddExamples(rs: ResponseMap, exs: seq<ExampleBlock>, fallback: string, description: string, parse: JsonParser): (r: ResponseMap)
    ensures r.Keys == rs.Keys + OfferKeys(ExampleOffers(exs, fallback, parse))
    ensures forall k :: k in r ==> SchemaOf(r[k]) == (if k in rs then SchemaOf(rs[k]) else None)
    ensures forall k :: k in r ==>
              ExampleOf(r[k]) == (if k in rs && ExampleOf(rs[k]).Some? then ExampleOf(rs[k])
                                  else FirstBody(ExampleOffers(exs, fallback, parse), k))
    ensures forall k :: k in rs && k !in OfferKeys(ExampleOffers(exs, fallback, parse)) ==> r[k] == rs[k]
    ensures forall k :: k in OfferKeys(ExampleOffers(exs, fallback, parse)) && (k !in rs || rs[k].description == "") ==>
              r[k].description == description
    ensures DescriptionsKept(rs, r)
  {
    var offers := ExampleOffers(exs, fallback, parse);
    AttachExamplesSummary(rs, offers, description);
    AttachExamples(rs, offers, description)
  }

  /** Everything `AddExamples` promises, for any offer sequence. */
  lemma AttachExamplesSummary(rs: ResponseMap, offers: seq<Offer<Json>>, description: string)
    ensures var r := AttachExamples(rs, offers, description);
      && r.Keys == rs.Keys + OfferKeys(offers)
      && (forall k :: k in r ==> SchemaOf(r[k]) == (if k in rs then SchemaOf(rs[k]) else None))
      && (forall k :: k in r ==>
            ExampleOf(r[k]) == (if k in rs && ExampleOf(rs[k]).Some? then ExampleOf(rs[k]) else FirstBody(offers, k)))
      && (forall k :: k in rs && k !in OfferKeys(offers) ==> r[k] == rs[k])
      && (forall k :: k in OfferKeys(offers) && (k !in rs || rs[k].description == "") ==> r[k].description == description)
      && DescriptionsKept(rs, r)
  {
    AttachExamplesAll(rs, offers, description);
    AttachExamplesDescribes(rs, offers, description);
  }
}
