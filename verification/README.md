# apiDoc to OpenAPI conversion, modelled in Dafny

This project models the conversion engine of `apidoc-to-openapi-converter`.
The engine takes the endpoint entries that apiDoc writes to `api_data.js`
and turns them into an OpenAPI 3.0.3 document:

- each entry becomes one operation under its normalised path and method;
- declared parameters become path, query or header parameters, or
  request-body properties;
- success and error field groups and examples become responses with JSON
  schemas and examples;
- every operation gets an identifier from a run-wide counter.

The modules follow the pieces of `src/index.js`:

| module | file | what it holds |
|---|---|---|
| `Wrappers` | `wrappers.dfy` | `Option` and `Result` |
| `Text` | `text.dfy` | ASCII character classes, trimming, case folding, split and join, literal replacement, decimal numerals |
| `TextHelpers` | `helpers.dfy` | `normalizePath`, `stripHtml`, `extractStatusCode` |
| `Schemas` | `schema.dfy` | the schema datatype, `mapSingleType`, `mapTypeToSchema` and worked annotations |
| `Versions` | `version.dfy` | the numeric version order and `latestVersion` |
| `Examples` | `example.dfy` | `parseExample`, with `JSON.parse` as a parameter |
| `ApiDoc` | `apidoc.dfy` | the input entries: fields, field groups, example blocks, sections |
| `Responses` | `responses.dfy` | `ensureResponse`, `addResponsesFromFields`, `addExamples` |
| `OperationIds` | `operation_id.dfy` | `sanitizeOperationId` and its counter |
| `Operations` | `operations.dfy` | building one operation from one entry: parameters, request body, responses |
| `Documents` | `document.dfy` | the loop over all entries and the resulting document |

The accumulation passes over field groups and examples are modelled as folds
over *offers*. An offer is a (status, value) pair that a field group or an
example block contributes. Each fold is related to an independent reference
definition:

- `LastSchema`: the schema of the last group offering one for a status;
- `FirstBody`: the first non-null example body for a status.

The loop over entries is modelled generically (`RunWith`), over any entry
type together with its (path, method, sanitised base) key and an operation
builder. The converter's loop `Run` is one instance of it.

Two properties of the identifier scheme are worth knowing:

- The default base `operation` replaces an empty base before sanitising, so a
  base made only of symbols yields the empty identifier
  (`OperationIds.SymbolsOnlyGiveEmptyId`).
- Identifiers are unique only for bases without a `_<digits>` ending
  (`Documents.OperationIdsDistinct`): an explicit `get_user_2` collides with
  the second `get_user` (`OperationIds.ExplicitSuffixCollides`).

## Model

| member | source | states |
|---|---|---|
| Versions.Compare | src/index.js:10-18 | the comparison is -1, 0 or 1, with a missing component counting as 0 |
| Versions.CompareAntisymmetric | src/index.js:13-18 | swapping the two versions negates the comparison, so the sort comparator is consistent |
| Versions.CompareTransitive | src/index.js:13-18 | the version order is transitive, and strict when either step is strict, so sorting has a well-defined first element |
| Versions.CompareDecidedAt | src/index.js:13-18 | two versions compare equal exactly when every component agrees, a missing one read as 0; one is below the other exactly when, at the first component where they differ, its component is the smaller |
| Versions.CompareZeroPadding | src/index.js:14-15 | a trailing `.0` does not change a version's rank |
| Versions.LatestIndex | src/index.js:8-19 | the index the stable sort puts first: none exactly when no version is declared; otherwise a declared version at least every declared one and above every declared one before it |
| Versions.LatestVersion | src/index.js:7-20 | `1.0.0` when no entry declares a version; otherwise a declared version that no declared version exceeds, and the earliest such in input order |
| Versions.NumericNotLexicographic | src/index.js:11-16 | `1.9.3` ranks below `1.10.0`: components compare as numbers, not text |
| TextHelpers.NormalizePath | src/index.js:22-24 | the result is empty exactly when the input is, and its first character is a word character exactly when the input's is |
| TextHelpers.NormalizePathNoColon | src/index.js:22-24 | the result has no `:` followed by a word character: every colon parameter is rewritten |
| TextHelpers.NormalizePathParam | src/index.js:22-24 | for every prefix, every name of word characters and every rest not starting with a word character, `:name` becomes `{name}` and prefix and rest are normalised on their own |
| TextHelpers.NormalizePathAppend | src/index.js:22-24 | a path can be normalised piecewise at any point where the second piece does not start with a word character |
| TextHelpers.NormalizeTwoParams | src/index.js:22-24 | `/users/:id/:name` becomes `/users/{id}/{name}` |
| TextHelpers.NormalizePathIdentity | src/index.js:22-24 | a path with no `:name` segment is left unchanged |
| TextHelpers.NormalizePathIdempotent | src/index.js:22-24 | normalising twice is the same as normalising once |
| TextHelpers.StripTags | src/index.js:29 | after tag replacement no `<` is followed by a `>`, and only a space is introduced |
| TextHelpers.StripTagsTag | src/index.js:29 | a tag `<x>` at the front, with no `>` inside `x`, becomes one space and the rest is stripped on its own |
| TextHelpers.StripTagsPlainPrefix | src/index.js:29 | text before the first `<` passes the tag stage unchanged |
| TextHelpers.StripTagsNoClose | src/index.js:29 | text without any `>` passes the tag stage unchanged, so a `<` that is never closed stays |
| TextHelpers.UnclosedLessThanKept | src/index.js:29 | a `<` followed by text without `>` is kept together with that text |
| TextHelpers.CollapseSpace | src/index.js:32 | whitespace runs become one plain space: no two adjacent whitespace characters and no whitespace other than the plain space remain; empty exactly when the input is, and starting with whitespace exactly when the input does |
| TextHelpers.SpaceRunBecomesSpace | src/index.js:32 | a whole whitespace run, followed by a non-space or by nothing, becomes one plain space in its place |
| TextHelpers.NonSpaceKept | src/index.js:32 | a character other than whitespace is kept in its place |
| TextHelpers.CollapseSpaceRun | src/index.js:32 | whatever precedes and follows it, a whitespace run collapses exactly as one plain space would |
| TextHelpers.CollapseSpaceChars | src/index.js:32 | collapsing introduces no character other than the plain space |
| TextHelpers.CollapseSpaceTagFree | src/index.js:29-32 | collapsing whitespace keeps a tag-free text tag-free |
| TextHelpers.StripHtml | src/index.js:26-34 | empty stays empty; the result is trimmed, tag-free, and has single plain spaces only |
| TextHelpers.TagBecomesSpace | src/index.js:29 | the first tag, from `<` to the next `>`, strips exactly as one space in its place would |
| TextHelpers.WhitespaceBecomesSpace | src/index.js:29-32 | after a start without `<` or `&`, any whitespace run strips exactly as one plain space would |
| TextHelpers.ParagraphExample | src/index.js:26-34 | `<p>` + newline + ` Hi</p>` strips to `Hi` |
| TextHelpers.QuotDecoded | src/index.js:30 | in text without tags or other entities, `&quot;` strips exactly as a double quote would |
| TextHelpers.AmpDecoded | src/index.js:31 | in text without tags or other entities, `&amp;` not followed by `quot;` or `amp;` strips exactly as `&` would |
| TextHelpers.AmpNotDecodedTwice | src/index.js:30-31 | `&quot;` is decoded before `&amp;`, so `&amp;quot;` strips to `&quot;`, not to a double quote |
| TextHelpers.PlainTextUnchanged | src/index.js:26-34 | text without `<`, `&`, edge whitespace or doubled whitespace passes through unchanged |
| TextHelpers.ExtractStatusCode | src/index.js:36-40 | the leftmost three-digit run bounded by non-word characters, or the fallback when there is none |
| Schemas.MapSingleType | src/index.js:42-84 | every mapping has a `type`, no `oneOf`, is not nullable, has `items` exactly for arrays, length and format only on strings, a description only on objects |
| Schemas.TrimFirst | src/index.js:44 | a text with a non-whitespace character maps exactly as its trimmed form, so every branch, the description of the default one included, sees the trimmed text |
| Schemas.BlankAnnotation | src/index.js:43-81 | a non-empty whitespace-only text is not caught by the empty test and maps to an object described as `Original type: ` with nothing after it |
| Schemas.ArraySuffix | src/index.js:44-49 | for every prefix, a trailing `[]` wraps in an array the mapping of the prefix with its leading whitespace trimmed (its trailing whitespace is trimmed by the recursive call); a trimmed prefix maps as itself |
| Schemas.SpacedArraySuffix | src/index.js:44-49 | a space between a trimmed element type and `[]` is dropped: `x []` maps as an array of `x`'s mapping |
| Schemas.SpacedStringArray | src/index.js:44-49 | `String []` is an array of strings |
| Schemas.SlashDiscards | src/index.js:44-54 | for every slash-free `a` whose text with `/b` does not end in `[]`, `a/b` maps as `a` with its leading whitespace trimmed: everything from the first `/` on is discarded |
| Schemas.LiteralIgnoresCase | src/index.js:61-83 | known type words match in any letter case |
| Schemas.MapTypeToSchema | src/index.js:86-101 | nullable exactly when the word `null` occurs; a `oneOf` exactly when more than one non-null alternative remains, holding their mappings in order; otherwise the single alternative, or the whole annotation when none remains |
| Schemas.StringArrayAnnotation | src/index.js:45-49 | `String[]` is an array of strings |
| Schemas.FindStringLength | src/index.js:56 | the search finds the leftmost `string[N]` occurrence (any letter case, at least one digit, closing `]`) at or after the start position, and reports none only when there is none |
| Schemas.BoundedAt | src/index.js:56-59 | a trimmed annotation without `/` and without a trailing `[]` that holds `string[N]` anywhere maps to a string whose maxLength is the value of the leftmost such N |
| Schemas.EmptyAnnotation | src/index.js:43 | the empty annotation maps to a plain string, has no union alternative and no `null` word |
| Schemas.BoundedStringAnnotation | src/index.js:56-59 | `String[64]` is a string of at most 64 characters |
| Schemas.StringLengthUnanchored | src/index.js:56-59 | the length pattern is not anchored: `Substring[8]` is a string of at most 8 characters |
| Schemas.ArrayAnnotation | src/index.js:86-101 | an `elem[]` annotation without union or `null` is an array of the element's mapping |
| Schemas.NullableAnnotation | src/index.js:88-100 | the union of a type `T` with `null` is the mapping of `T`, made nullable |
| Schemas.NullableStringAnnotation | src/index.js:88-100 | `String` united with `null` is a nullable string |
| Schemas.TwoWayUnion | src/index.js:89-95 | a union of two non-null alternatives is a `oneOf` of both mappings, without a `type` |
| Schemas.BooleanIntegerUnion | src/index.js:89-95 | `Boolean|Integer` is a `oneOf` of a boolean and an integer |
| Schemas.BooleanArrayAnnotation | src/index.js:45-49 | `Boolean[]` is an array of booleans |
| Schemas.UnionAnnotation | src/index.js:89-95 | the union of `String` and `Number` is a `oneOf` of a string and a number |
| Schemas.UnknownWord | src/index.js:80-81 | a trimmed text that ends in no `[]`, has no `/`, no `string[N]` and is no known type word maps to an object described as `Original type: ` followed by the text |
| Schemas.BracketedUnknown | src/index.js:45-81 | `Object[x]` is no array, no bounded string and no known word, so it is an object described as `Original type: Object[x]` |
| Schemas.AllNullUnionMapsWholeText | src/index.js:89-100 | an annotation that is only `null`, in any case, has no alternative left, so the whole text maps to a nullable object described as `Original type: ` followed by that text |
| Examples.ParseExample | src/index.js:103-122 | no status and a null body for empty content; no status exactly when there is no `HTTP/1.1 <code>` match, and otherwise the code of the leftmost one; the first line is dropped only when a status matched and that line starts with `HTTP/1.1`; an empty body text is null, and otherwise the parsed value or the tab-cleaned text |
| Examples.StatusLineRoundTrip | src/index.js:103-122 | an example written as `HTTP/1.1 <code> <reason>` followed by a body parses back to that code and that body's value |
| Examples.LinesOf | src/index.js:108-113 | the first element of the newline split is the first line, and re-joining the rest gives the text after it |
| Responses.EnsureResponse | src/index.js:124-132 | the status key (default `200`) is added; other responses are untouched; a new response gets the description and no content; an existing one keeps its content and gains the description only if it had none |
| Responses.Properties | src/index.js:139-148 | the property names are exactly the field names |
| Responses.PropertiesLastWins | src/index.js:139-146 | a later field with the same name overwrites an earlier one: the last field with a name decides its schema |
| Responses.RequiredNames | src/index.js:147 | a name is required exactly when some non-optional field has it, and the list is empty exactly when every field is optional |
| Responses.RequiredNamesSingle | src/index.js:147 | one field contributes its name exactly when it is not optional |
| Responses.RequiredNamesAppend | src/index.js:140-147 | the names for two field lists one after the other are the first list's names followed by the second's, repeats kept |
| Responses.ResponsePropertySchema | src/index.js:143-146 | a field's schema with its HTML-stripped description added exactly when the field has a description |
| Responses.LastSchemaDefined | src/index.js:136-158 | a last schema for a status exists exactly when some group offers to that status |
| Responses.SetSchemasLastWins | src/index.js:136-158 | after the schema pass a status has the schema of the last group offering one; a status nobody offers to keeps its response |
| Responses.SetSchemasKeepExamples | src/index.js:151-153 | the schema pass keeps existing examples, and new responses have none |
| Responses.AddResponsesFromFields | src/index.js:134-159 | the statuses are those before plus those the groups offer; each offered status has its last group's schema; a status no group offers to keeps its response; an offered status that was new or had an empty description ends with the pass's description; examples and non-empty descriptions are kept |
| Responses.SetSchemasDescribes | src/index.js:136-158 | the schema loop adds the offered statuses, leaves all other responses alone, gives new or blank offered responses its description and keeps non-empty ones |
| Responses.FirstBodyOffered | src/index.js:163-175 | a first body for a status is a non-null value offered to that status |
| Responses.AttachExamplesFirstWins | src/index.js:167-173 | an existing example is kept; otherwise the first non-null body offered to the status becomes its example |
| Responses.AttachExamplesKeepSchemas | src/index.js:163-175 | attaching examples never changes a schema, and new responses have none |
| Responses.AddExamples | src/index.js:161-176 | the statuses are those before plus those the examples select, `null` bodies included; schemas and non-empty descriptions are kept; a status no example selects keeps its response; a selected status that was new or had an empty description ends with the pass's description; an existing example stays; otherwise the first non-null body for the status becomes the example |
| Responses.AttachExamplesDescribes | src/index.js:163-175 | the example loop adds the selected statuses, `null` bodies included, leaves all other responses alone, gives new or blank selected responses its description and keeps non-empty ones |
| Responses.PassDescribesCompose | src/index.js:124-132 | two loop iterations with one description act as one pass over both statuses |
| Responses.DescribedStep | src/index.js:309-313 | after one more pass every response still carries the first non-empty description offered to its status |
| Responses.FirstDescriptionSnoc | src/index.js:128-129 | a later pass supplies a description only to a status that none was offered to yet |
| Responses.ExampleStatus | src/index.js:164-165 | an example's status is the code of the leftmost status line in its content; without one, the leftmost word-bounded three-digit code in its title; without that, the fallback |
| OperationIds.ReplaceNonWord | src/index.js:205 | only word characters remain; letters and digits are kept in order; the result is empty exactly when the input is; an all-word input is unchanged |
| OperationIds.NonWordRunBecomesUnderscore | src/index.js:205 | a whole run of non-word characters, followed by a word character or by nothing, becomes one `_` in its place |
| OperationIds.WordCharKept | src/index.js:205 | a word character is kept in its place |
| OperationIds.WordPrefixKept | src/index.js:205 | a prefix of word characters is kept as it is |
| OperationIds.ReplaceThreeSegments | src/index.js:205 | three word segments, each followed by a non-word run, become the segments each followed by one `_` |
| OperationIds.CollapseUnderscores | src/index.js:206 | no doubled underscore remains; the result is empty exactly when the input is, and starts with an underscore exactly when the input does |
| OperationIds.UnderscoreRunBecomesOne | src/index.js:206 | a whole run of underscores, followed by another character or by nothing, becomes one `_` in its place |
| OperationIds.NonUnderscoreKept | src/index.js:206 | a character other than `_` is kept in its place |
| OperationIds.NonUnderscorePrefixKept | src/index.js:206 | a prefix without underscores is kept as it is |
| OperationIds.CollapseThreeSegments | src/index.js:206 | three underscore-free segments, each followed by an underscore run, become the segments each followed by one `_` |
| OperationIds.TrimOneTrailing | src/index.js:207 | one trailing underscore after a non-empty identifier without edge underscores is removed |
| OperationIds.CollapseUnderscoresKeeps | src/index.js:206 | collapsing keeps the letters and digits in order, and a string of word characters stays one |
| OperationIds.CollapseUnderscoresIdentity | src/index.js:206 | input without doubled underscores is unchanged |
| OperationIds.TrimUnderscores | src/index.js:207 | no leading or trailing underscore remains, and input without them is unchanged |
| OperationIds.TrimUnderscoresSlice | src/index.js:207 | the trimmed string is a slice of the input with only underscores cut away on either side |
| OperationIds.Sanitize | src/index.js:204-207 | word characters only, no doubled or edge underscores, the same letters and digits in order, and empty exactly when the base has no letter or digit |
| OperationIds.SanitizeClean | src/index.js:204-207 | an already clean identifier is unchanged |
| OperationIds.SanitizeIdempotent | src/index.js:204-207 | sanitising a non-empty result again changes nothing |
| OperationIds.SanitizeRouteExample | src/index.js:204-207 | the base `get_/users/{id}` sanitises to `get_users_id` |
| OperationIds.SuffixedInjective | src/index.js:210 | different (base, count) pairs give different identifiers when no base ends in `_<digits>` |
| OperationIds.Issue | src/index.js:208-210 | the base's count goes up by one, no other count changes, and the identifier carries the new count |
| OperationIds.EmptyBaseIsOperation | src/index.js:204 | an empty base becomes `operation` |
| OperationIds.SymbolsOnlyGiveEmptyId | src/index.js:204-210 | a non-empty base with no letter or digit yields the empty identifier |
| OperationIds.SecondEmptyIdIsUnderscoreTwo | src/index.js:208-210 | the second such base yields `_2` |
| OperationIds.ExplicitSuffixCollides | src/index.js:203-211 | `get_user`, `get_user` and then `get_user_2` yield `get_user`, `get_user_2` and `get_user_2` again |
| ApiDoc.AllFieldsAppend | src/index.js:245-248 | the fields of two group lists one after the other are the first list's fields followed by the second's: group order, then field order |
| ApiDoc.AllFieldsSnoc | src/index.js:245-248 | one more group puts its fields, in their own order, after all earlier fields |
| Operations.NonBodyFields | src/index.js:248-268 | the kept fields are exactly the parameter fields that are not body properties |
| Operations.PathAndQueryMembers | src/index.js:245-275 | the path and query parameters are exactly the parameter objects of the non-body fields |
| Operations.HeaderParametersShape | src/index.js:277-290 | the i-th header parameter is in `header`, carries the i-th header field's name and is required unless that field is optional |
| Operations.HeaderParametersMembers | src/index.js:277-290 | the header parameters are exactly the parameter objects of the header fields |
| Operations.PathParametersRequired | src/index.js:249-268 | a field is a path parameter exactly when the in-path test holds; path parameters are required, and query parameters are required unless optional |
| Operations.PrefixNameCountsAsInPath | src/index.js:249 | the in-path test is a plain substring test: `id` counts as in the path `/users/:idx` |
| Operations.ParametersOf | src/index.js:245-292 | `parameters` is absent exactly when there are no non-body parameter fields and no header fields; otherwise it has one entry per non-body field plus one per header field, the path and query parameters first and the header parameters after them |
| Operations.ParametersOfFieldOrder | src/index.js:245-275 | position `i` of `parameters` holds the parameter object of the `i`-th non-body parameter field |
| Operations.ParametersOfHeaderOrder | src/index.js:277-290 | position `n + i` of `parameters`, where `n` is the number of non-body parameter fields, holds the parameter object of the `i`-th header field |
| Operations.ParametersOfMembers | src/index.js:245-292 | `parameters` is absent exactly when every parameter field went into the body and there are no headers; otherwise it holds every non-body field's parameter and every header parameter |
| Operations.ParametersOfOnly | src/index.js:245-292 | every entry of `parameters` is the parameter object of a non-body parameter field or of a header field |
| Operations.BodyFields | src/index.js:261-272 | the body fields are exactly the parameter fields that are not in the path, for a post, put or patch |
| Operations.BodyPropertySchema | src/index.js:250-270 | a body property is the field's mapped schema with at most its description changed; it carries the stripped description when that is non-empty, and is the mapped schema itself otherwise |
| Operations.RequestBodyOf | src/index.js:294-307 | a request body exists exactly when there is a body field; it is required exactly when some body field is not optional |
| Operations.RequestBodyOfEntry | src/index.js:242-307 | a request body exists exactly when some parameter field is a body field; it is required exactly when one of those is not optional; other methods never have one |
| Operations.AccumulatedResponses | src/index.js:309-313 | the statuses after the four passes are exactly those the groups and examples touch |
| Operations.AccumulatePrecedence | src/index.js:309-313 | a status's schema comes from the last error group offering one, else the last success group; its example is the first non-null success body, else the first non-null error body; its description is the first non-empty one offered by a pass touching it |
| Operations.AccumulateDescribed | src/index.js:309-313 | after the four passes every response carries the first non-empty description offered to its status, the error examples offering `Error` |
| Operations.AccumulatedDescriptions | src/index.js:309-313 | an entry's response carries the first non-empty description among those offered to its status by the success groups, the error groups, the success examples and the error examples, in that order, and is empty when all are empty; the success and error descriptions are the stripped title, else name, else `Success` or `Error`, and the error examples offer `Error` |
| Operations.ResponsesOf | src/index.js:309-317 | at least one response; when nothing is touched, a single `200` with the success description or `Success` |
| Operations.BuildOperation | src/index.js:233-319 | the operation carries the given identifier, the entry's title (else name) as summary and its stripped description, has tags exactly when the entry has a group, and then the single tag naming that group, has at least one response, and has the entry's parameters, request body and responses |
| Documents.StepWith | src/index.js:225-320 | an entry whose path and method are already present changes nothing; otherwise its operation is stored with the next identifier, and no other pair changes |
| Documents.Step | src/index.js:225-320 | one loop iteration: skipped for a taken pair; otherwise the built operation is stored and the counter advanced for the sanitised base |
| Documents.RunPresent | src/index.js:225-231 | after the loop a path and method pair is present exactly when some entry declares it |
| Documents.RunPathKeys | src/index.js:228-230 | the document's paths are exactly the entries' normalised paths |
| Documents.RunCounter | src/index.js:200-211 | after the loop the counter holds, for each name, how many stored entries used it |
| Documents.RunFirstWins | src/index.js:230-231 | the first entry with a pair supplies that pair's operation |
| Documents.RunLastFirst | src/index.js:230-237 | a last entry that is first with its pair is stored under it with the identifier the counter issues to it |
| Documents.RunStoresBuilt | src/index.js:319 | every stored operation was built from some entry |
| Documents.RunIdsDistinct | src/index.js:203-237 | two first entries whose bases do not end in `_<digits>` get different identifiers |
| Documents.PathsAreDeclared | src/index.js:225-231 | the document has an operation for a path and method exactly when some entry has them |
| Documents.FirstEntryWins | src/index.js:230-237 | the first entry with a path and method is built with its issued identifier; later duplicates are ignored |
| Documents.OperationIdsDistinct | src/index.js:203-237 | the stored operations of two such entries carry different identifiers |
| Documents.EveryOperationResponds | src/index.js:315-319 | every operation in the document has at least one response |
| Documents.Convert | src/index.js:195-223 | without an `api` array the result is the error `Cannot find api array in api_data.js`; otherwise an OpenAPI 3.0.3 document whose info is the generated one with the caller's overrides, and whose paths are those of the loop |

## Left out

- Reading `api_data.js` from disk or from a string, the `vm` sandbox and the command-line wrapper: `Convert` receives the already extracted `api` array, or `None` when there is none.
- `JSON.stringify` of the result and the key order of JavaScript objects: documents are Dafny maps.
- `components.schemas`: it is always empty.
- `JSON.parse` is not modelled: it is a parameter `string -> Option<Json>`, and a `JNull` value stands for JSON `null`.
- Unicode: strings are ASCII-only. `\s` and `trim` use the six ASCII whitespace characters, and case folding is ASCII.
- Versions.ComponentValue: a component of decimal digits reads as its exact value and every other component as 0. JavaScript's `Number()` gives an IEEE double instead: components above 2^53 are rounded, so `9007199254740992` and `9007199254740993` compare equal there but not here; `Infinity` reads as Infinity, not 0; signs, surrounding whitespace, hexadecimal and exponent forms are read as numbers. None of this is modelled.
- Schemas.MapSingleType: `maxLength` of `string[N]` is the exact value of N. In JavaScript it is a double: values above 2^53 are rounded, and N with about 309 or more digits becomes Infinity, which `JSON.stringify` writes as `null`. This is not modelled.
- Absent values: an absent string is modelled as `""`, an absent `optional` as `false`, and an absent section or field group as empty. A field without a `field` name is not modelled. Nor are keys that clash with JavaScript object internals, because every lookup here is on a plain `{}` object (src/index.js:230-231): a field name such as `__proto__`; a method such as `constructor` or `__proto__`, which already reads as present, so the source skips the entry where `Documents.StepWith` stores it; and a normalised path such as `constructor` (no leading `/`), whose lookup finds an inherited value, so the source attaches the operation to that value instead of the document where `Documents.StepWith` stores it under the path.
- Overrides of `info`: only the `title`, `version` and `description` overrides are modelled. An override key present with the value `undefined`, and other keys passed through to `info`, are not modelled.
- Field groups are taken in the order `Object.keys` yields them. For integer-like group titles JavaScript would reorder the keys; this is not modelled.
