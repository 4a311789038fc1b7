/**
 * The conversion run: the OpenAPI document built from the apiDoc entries,
 * visiting them in order with one operation-identifier counter for the run.
 */
module Documents {
  import opened Wrappers
  import opened ApiDoc
  import opened Examples
  import opened OperationIds
  import opened Operations
  import opened Versions

  const OpenApiVersion: string := "3.0.3"
  const DefaultTitle: string := "API (converted from apiDoc)"
  const DefaultDescription: string := "This specification is automatically converted from apiDoc (api_data.js)."
  const MissingApiError: string := "Cannot find api array in api_data.js"

  datatype Info = Info(title: string, version: string, description: string)

  /** The caller's `openapiInfo`: a present key replaces the generated value. */
  datatype InfoOverride = InfoOverride(title: Option<string>, version: Option<string>, description: Option<string>)

  /** `paths[path][method]`. */
  type PathMap = map<string, map<string, Operation>>

  /** The document; `components.schemas` is always empty and not represented. */
  datatype Document = Document(openapi: string, info: Info, paths: PathMap)

  /** The loop state: the paths built so far and the operation-identifier counter. */
  datatype State = State(paths: PathMap, counter: map<string, nat>)

  /** What the loop looks at in an entry: its path key, its method, and its sanitised identifier base. */
  datatype Key = Key(path: string, verb: string, name: string)

  function KeyOf(e: Entry): Key {
    Key(PathOf(e), MethodOf(e), Sanitize(BaseOf(e)))
  }

  predicate Present(paths: PathMap, p: string, m: string) {
    p in paths && m in paths[p]
  }

  /** Same (path, method) pair. */
  predicate SameSlot(a: Key, b: Key) {
    a.path == b.path && a.verb == b.verb
  }

  /** Entry `j` is the first with its (path, method) pair. */
  predicate IsFirst<E>(es: seq<E>, key: E -> Key, j: int)
    requires 0 <= j < |es|
  {
    forall i :: 0 <= i < j ==> !SameSlot(key(es[i]), key(es[j]))
  }

  /** Some entry has this (path, method) pair. */
  predicate Declared<E>(es: seq<E>, key: E -> Key, p: string, m: string) {
    exists i :: 0 <= i < |es| && key(es[i]).path == p && key(es[i]).verb == m
  }

  /**
   * One loop iteration: an entry whose (path, method) is already present is
   * skipped without touching the counter; otherwise its operation is built
   * with the next identifier for its sanitised base and stored.
   */
  function StepWith<E>(st: State, e: E, key: E -> Key, build: (E, string) -> Operation): (r: State)
    ensures Present(st.paths, key(e).path, key(e).verb) ==> r == st
    ensures !Present(st.paths, key(e).path, key(e).verb) ==>
              && Present(r.paths, key(e).path, key(e).verb)
              && r.paths[key(e).path][key(e).verb] == build(e, Bump(st.counter, key(e).name).id)
              && r.counter == Bump(st.counter, key(e).name).counter
    ensures r.paths.Keys == st.paths.Keys + {key(e).path}
    ensures forall p, m :: !(p == key(e).path && m == key(e).verb) ==>
              (Present(r.paths, p, m) <==> Present(st.paths, p, m))
              && (Present(st.paths, p, m) ==> r.paths[p][m] == st.paths[p][m])
  {
    var k := key(e);
    if Present(st.paths, k.path, k.verb) then st
    else
      var issued := Bump(st.counter, k.name);
      var ops := if k.path in st.paths then st.paths[k.path] else map[];
      State(st.paths[k.path := ops[k.verb := build(e, issued.id)]], issued.counter)
  }

  /** The loop over the entries, in order, from empty paths and a fresh counter. */
  function RunWith<E>(es: seq<E>, key: E -> Key, build: (E, string) -> Operation): State
    decreases |es|
  {
    if |es| == 0 then State(map[], map[])
    else StepWith(RunWith(es[..|es| - 1], key, build), es[|es| - 1], key, build)
  }

  /** The builder of the loop body: the entry's operation with the issued identifier. */
  function Builder(parse: JsonParser): (Entry, string) -> Operation {
    (e: Entry, id: string) => BuildOperation(e, id, parse)
  }

  /**
   * One iteration of the source's loop. The identifier is
   * `sanitizeOperationId(BaseOf(e))`, issued only for an entry that is stored.
   */
  function Step(st: State, e: Entry, parse: JsonParser): (r: State)
    ensures Present(st.paths, PathOf(e), MethodOf(e)) ==> r == st
    ensures !Present(st.paths, PathOf(e), MethodOf(e)) ==>
              && Present(r.paths, PathOf(e), MethodOf(e))
              && r.paths[PathOf(e)][MethodOf(e)] == BuildOperation(e, Issue(st.counter, BaseOf(e)).id, parse)
              && r.counter == Issue(st.counter, BaseOf(e)).counter
  {
    StepWith(st, e, KeyOf, Builder(parse))
  }

  /** The source's loop over all entries. */
  function Run(es: seq<Entry>, parse: JsonParser): State {
    RunWith(es, KeyOf, Builder(parse))
  }

  /** The sanitised bases of the entries that were materialised, in order: the names the counter has seen. */
  function Issued<E>(es: seq<E>, key: E -> Key): (ss: seq<string>)
    ensures |ss| <= |es|
    decreases |es|
  {
    if |es| == 0 then []
    else Issued(es[..|es| - 1], key) + (if IsFirst(es, key, |es| - 1) then [key(es[|es| - 1]).name] else [])
  }

  lemma IsFirstPrefix<E>(es: seq<E>, key: E -> Key, j: nat, n: nat)
    requires j < n <= |es|
    ensures IsFirst(es[..n], key, j) <==> IsFirst(es, key, j)
  {
    assert forall i :: 0 <= i <= j ==> es[..n][i] == es[i];
  }

  /** The last entry is first with its pair exactly when the earlier entries do not declare the pair. */
  lemma FirstIffUndeclared<E>(es: seq<E>, key: E -> Key)
    requires |es| > 0
    ensures var n := |es| - 1; IsFirst(es, key, n) <==> !Declared(es[..n], key, key(es[n]).path, key(es[n]).verb)
  {
    var n := |es| - 1;
    assert forall i :: 0 <= i < n ==> es[..n][i] == es[i];
  }

  /** A (path, method) pair is present after the run exactly when some entry has it. */
  lemma {:induction false} RunPresent<E>(es: seq<E>, key: E -> Key, build: (E, string) -> Operation, p: string, m: string)
    ensures Present(RunWith(es, key, build).paths, p, m) <==> Declared(es, key, p, m)
    decreases |es|
  {
    if |es| > 0 {
      var n := |es| - 1;
      RunPresent(es[..n], key, build, p, m);
      assert Declared(es[..n], key, p, m) ==> Declared(es, key, p, m) by {
        if Declared(es[..n], key, p, m) {
          var i :| 0 <= i < n && key(es[..n][i]).path == p && key(es[..n][i]).verb == m;
          assert es[..n][i] == es[i];
        }
      }
      assert Declared(es, key, p, m) && !(key(es[n]).path == p && key(es[n]).verb == m) ==> Declared(es[..n], key, p, m) by {
        if Declared(es, key, p, m) && !(key(es[n]).path == p && key(es[n]).verb == m) {
          var i :| 0 <= i < |es| && key(es[i]).path == p && key(es[i]).verb == m;
          assert es[..n][i] == es[i];
        }
      }
    }
  }

  /** The path keys after the run are exactly the entries' path keys. */
  lemma {:induction false} RunPathKeys<E>(es: seq<E>, key: E -> Key, build: (E, string) -> Operation)
    ensures RunWith(es, key, build).paths.Keys == set i | 0 <= i < |es| :: key(es[i]).path
    decreases |es|
  {
    if |es| > 0 {
      var n := |es| - 1;
      RunPathKeys(es[..n], key, build);
      assert forall i :: 0 <= i < n ==> es[..n][i] == es[i];
      assert (set i | 0 <= i < |es| :: key(es[i]).path) == (set i | 0 <= i < n :: key(es[..n][i]).path) + {key(es[n]).path};
    }
  }

  /** The counter holds, for every name, how many materialised entries had that sanitised base. */
  lemma {:induction false} RunCounter<E>(es: seq<E>, key: E -> Key, build: (E, string) -> Operation, x: string)
    ensures Get(RunWith(es, key, build).counter, x) == CountOf(Issued(es, key), x)
    decreases |es|
  {
    if |es| > 0 {
      var n := |es| - 1;
      RunCounter(es[..n], key, build, x);
      RunPresent(es[..n], key, build, key(es[n]).path, key(es[n]).verb);
      FirstIffUndeclared(es, key);
      var ss := Issued(es[..n], key);
      if IsFirst(es, key, n) {
        assert Issued(es, key) == ss + [key(es[n]).name];
        assert (ss + [key(es[n]).name])[..|ss|] == ss;
      } else {
        assert Issued(es, key) == ss;
      }
    }
  }

  /** The identifier the counter gives entry `j`: its sanitised base, numbered by the materialised uses so far. */
  function IdOf<E>(es: seq<E>, key: E -> Key, j: nat): string
    requires j < |es|
  {
    Suffixed(key(es[j]).name, CountOf(Issued(es[..j + 1], key), key(es[j]).name))
  }

  /** Entry `j`, when first with its pair, adds its name to the names seen so far. */
  lemma IssuedAtFirst<E>(es: seq<E>, key: E -> Key, j: nat)
    requires j < |es| && IsFirst(es, key, j)
    ensures Issued(es[..j + 1], key) == Issued(es[..j], key) + [key(es[j]).name]
  {
    IsFirstPrefix(es, key, j, j + 1);
    assert es[..j + 1][..j] == es[..j];
    assert es[..j + 1][j] == es[j];
  }

  /**
   * First wins: the operation stored under an entry's (path, method) is the
   * one built from the first entry with that pair, carrying the identifier
   * the counter gave it.
   */
  lemma {:induction false} RunFirstWins<E>(es: seq<E>, key: E -> Key, build: (E, string) -> Operation, j: nat)
    requires j < |es| && IsFirst(es, key, j)
    ensures Present(RunWith(es, key, build).paths, key(es[j]).path, key(es[j]).verb)
    ensures RunWith(es, key, build).paths[key(es[j]).path][key(es[j]).verb] == build(es[j], IdOf(es, key, j))
    decreases |es|
  {
    var n := |es| - 1;
    if j < n {
      IsFirstPrefix(es, key, j, n);
      assert es[..n][j] == es[j];
      assert es[..n][..j + 1] == es[..j + 1];
      RunFirstWins(es[..n], key, build, j);
    } else {
      RunLastFirst(es, key, build);
    }
  }

  /** The last entry, when it is the first with its pair, is stored with the identifier the counter gives it. */
  lemma RunLastFirst<E>(es: seq<E>, key: E -> Key, build: (E, string) -> Operation)
    requires |es| > 0 && IsFirst(es, key, |es| - 1)
    ensures Present(RunWith(es, key, build).paths, key(es[|es| - 1]).path, key(es[|es| - 1]).verb)
    ensures RunWith(es, key, build).paths[key(es[|es| - 1]).path][key(es[|es| - 1]).verb] == build(es[|es| - 1], IdOf(es, key, |es| - 1))
  {
    var n := |es| - 1;
    var k := key(es[n]);
    var prev := RunWith(es[..n], key, build);
    assert RunWith(es, key, build) == StepWith(prev, es[n], key, build);
    FirstIffUndeclared(es, key);
    RunPresent(es[..n], key, build, k.path, k.verb);
    assert !Present(prev.paths, k.path, k.verb);
    RunCounter(es[..n], key, build, k.name);
    LastIdCount(es, key, n);
  }

  /** The count in the identifier of a first entry is one more than the materialised uses of its name before it. */
  lemma LastIdCount<E>(es: seq<E>, key: E -> Key, n: nat)
    requires n == |es| - 1 && IsFirst(es, key, n)
    ensures CountOf(Issued(es[..n + 1], key), key(es[n]).name) == CountOf(Issued(es[..n], key), key(es[n]).name) + 1
  {
    IssuedAtFirst(es, key, n);
    var ss := Issued(es[..n], key);
    assert (ss + [key(es[n]).name])[..|ss|] == ss;
  }

  /** Every operation the run stores comes from some entry's builder. */
  lemma {:induction false} RunStoresBuilt<E>(es: seq<E>, key: E -> Key, build: (E, string) -> Operation, p: string, m: string)
    requires Present(RunWith(es, key, build).paths, p, m)
    ensures exists i, id :: 0 <= i < |es| && RunWith(es, key, build).paths[p][m] == build(es[i], id)
    decreases |es|
  {
    var n := |es| - 1;
    var prev := RunWith(es[..n], key, build);
    if Present(prev.paths, p, m) {
      RunStoresBuilt(es[..n], key, build, p, m);
      var i, id :| 0 <= i < n && prev.paths[p][m] == build(es[..n][i], id);
      assert es[..n][i] == es[i];
    } else {
      var id := Bump(prev.counter, key(es[n]).name).id;
      assert RunWith(es, key, build).paths[p][m] == build(es[n], id);
    }
  }

  /** `Issued` only grows: the names seen up to `a` are a prefix of those seen up to `b`. */
  lemma {:induction false} IssuedPrefix<E>(es: seq<E>, key: E -> Key, a: nat, b: nat)
    requires a <= b <= |es|
    ensures |Issued(es[..a], key)| <= |Issued(es[..b], key)|
    ensures Issued(es[..b], key)[..|Issued(es[..a], key)|] == Issued(es[..a], key)
    decreases b - a
  {
    if a < b {
      IssuedPrefix(es, key, a, b - 1);
      var s := Issued(es[..b - 1], key);
      assert es[..b][..b - 1] == es[..b - 1];
      assert Issued(es[..b], key)[..|s|] == s;
    }
  }

  /**
   * Identifiers are unique across the document when no materialised entry's
   * sanitised base itself ends in `_<digits>`.
   */
  lemma RunIdsDistinct<E>(es: seq<E>, key: E -> Key, i: nat, j: nat)
    requires i < j < |es| && IsFirst(es, key, i) && IsFirst(es, key, j)
    requires !NumberSuffixed(key(es[i]).name) && !NumberSuffixed(key(es[j]).name)
    ensures IdOf(es, key, i) != IdOf(es, key, j)
  {
    var si := key(es[i]).name;
    var sj := key(es[j]).name;
    IssuedAtFirst(es, key, i);
    IssuedAtFirst(es, key, j);
    var small := Issued(es[..i + 1], key);
    var before := Issued(es[..j], key);
    assert small == Issued(es[..i], key) + [si];
    assert (Issued(es[..i], key) + [si])[..|Issued(es[..i], key)|] == Issued(es[..i], key);
    assert (before + [sj])[..|before|] == before;
    if si == sj {
      IssuedPrefix(es, key, i + 1, j);
      CountOfMonotone(before, |small|, |before|, si);
      assert before[..|small|] == small;
      assert before[..|before|] == before;
    }
    if IdOf(es, key, i) == IdOf(es, key, j) {
      SuffixedInjective(si, CountOf(small, si), sj, CountOf(before + [sj], sj));
    }
  }

  // ---------------------------------------------------------------------------
  // The properties for the converter's own loop
  // ---------------------------------------------------------------------------

  /** The document has an operation for a (path, method) pair exactly when some entry has that pair. */
  lemma PathsAreDeclared(es: seq<Entry>, parse: JsonParser, p: string, m: string)
    ensures Present(Run(es, parse).paths, p, m) <==> exists i :: 0 <= i < |es| && PathOf(es[i]) == p && MethodOf(es[i]) == m
  {
    RunPresent(es, KeyOf, Builder(parse), p, m);
  }

  /** The first entry with a (path, method) pair supplies its operation; later duplicates are ignored. */
  lemma FirstEntryWins(es: seq<Entry>, parse: JsonParser, j: nat)
    requires j < |es|
    requires forall i :: 0 <= i < j ==> !(PathOf(es[i]) == PathOf(es[j]) && MethodOf(es[i]) == MethodOf(es[j]))
    ensures Present(Run(es, parse).paths, PathOf(es[j]), MethodOf(es[j]))
    ensures Run(es, parse).paths[PathOf(es[j])][MethodOf(es[j])] == BuildOperation(es[j], IdOf(es, KeyOf, j), parse)
  {
    RunFirstWins(es, KeyOf, Builder(parse), j);
  }

  /**
   * Two first entries whose sanitised bases carry no `_<digits>` suffix get
   * different operation identifiers, even when the bases coincide.
   */
  lemma OperationIdsDistinct(es: seq<Entry>, parse: JsonParser, i: nat, j: nat)
    requires i < j < |es|
    requires forall k :: 0 <= k < i ==> !(PathOf(es[k]) == PathOf(es[i]) && MethodOf(es[k]) == MethodOf(es[i]))
    requires forall k :: 0 <= k < j ==> !(PathOf(es[k]) == PathOf(es[j]) && MethodOf(es[k]) == MethodOf(es[j]))
    requires !NumberSuffixed(Sanitize(BaseOf(es[i]))) && !NumberSuffixed(Sanitize(BaseOf(es[j])))
    ensures Present(Run(es, parse).paths, PathOf(es[i]), MethodOf(es[i]))
    ensures Present(Run(es, parse).paths, PathOf(es[j]), MethodOf(es[j]))
    ensures Run(es, parse).paths[PathOf(es[i])][MethodOf(es[i])].operationId
         != Run(es, parse).paths[PathOf(es[j])][MethodOf(es[j])].operationId
  {
    FirstEntryWins(es, parse, i);
    FirstEntryWins(es, parse, j);
    RunIdsDistinct(es, KeyOf, i, j);
  }

  /** Every operation in the document has at least one response. */
  lemma EveryOperationResponds(es: seq<Entry>, parse: JsonParser, p: string, m: string)
    requires Present(Run(es, parse).paths, p, m)
    ensures |Run(es, parse).paths[p][m].responses| > 0
  {
    RunStoresBuilt(es, KeyOf, Builder(parse), p, m);
  }

  /** `{ ...generated, ...openapiInfo }` for the three keys the generated info has. */
  function ApplyOverride(base: Info, o: InfoOverride): Info {
    Info(o.title.GetOr(base.title), o.version.GetOr(base.version), o.description.GetOr(base.description))
  }

  /** The declared versions, one per entry (`""` when absent). */
  function VersionsOf(es: seq<Entry>): (vs: seq<string>)
    ensures |vs| == |es|
    ensures forall i :: 0 <= i < |es| ==> vs[i] == es[i].version
  {
    seq(|es|, i requires 0 <= i < |es| => es[i].version)
  }

  /**
   * `convertApiDocToOpenApi` after loading: fails when there is no `api`
   * array; otherwise the OpenAPI 3.0.3 document whose info is the generated
   * one with the caller's overrides and whose paths are those of the run.
   */
  function Convert(api: Option<seq<Entry>>, o: InfoOverride, parse: JsonParser): (r: Result<Document>)
    ensures api.None? <==> r.Failure?
    ensures r.Failure? ==> r.error == MissingApiError
    ensures r.Success? ==>
              && r.value.openapi == OpenApiVersion
              && r.value.info == ApplyOverride(Info(DefaultTitle, LatestVersion(VersionsOf(api.value)), DefaultDescription), o)
              && r.value.paths == Run(api.value, parse).paths
  {
    match api
    case None => Failure(MissingApiError)
    case Some(es) =>
      Success(Document(OpenApiVersion,
                       ApplyOverride(Info(DefaultTitle, LatestVersion(VersionsOf(es)), DefaultDescription), o),
                       Run(es, parse).paths))
  }
}
