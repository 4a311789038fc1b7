/**
 * Schema nodes and the type mapper: turning an apiDoc type annotation
 * (`String`, `Number[]`, `String[64]`, `String|null`, ...) into a minimal
 * JSON-Schema node.
 */
module Schemas {
  import opened Text
  import opened Wrappers

  datatype JsonType = StringType | IntegerType | NumberType | BooleanType | ObjectType | ArrayType

  /**
   * A schema node; an absent key is `None` (or `false` for `nullable`, which
   * the source only ever sets to `true`).
   */
  datatype Schema = Schema(
    typ: Option<JsonType>,
    items: Option<Schema>,
    oneOf: Option<seq<Schema>>,
    nullable: bool,
    maxLength: Option<nat>,
    format: Option<string>,
    description: Option<string>)

  /** The schema `{}`. */
  const EmptySchema := Schema(None, None, None, false, None, None, None)

  function Typed(t: JsonType): Schema {
    EmptySchema.(typ := Some(t))
  }

  function ArrayOf(items: Schema): Schema {
    Typed(ArrayType).(items := Some(items))
  }

  /** `{ ...schema, description }`: a later `description` key replaces an earlier one. */
  function WithDescription(s: Schema, d: string): (r: Schema)
    ensures r.description == Some(d)
    ensures r.(description := s.description) == s
  {
    s.(description := Some(d))
  }

  /** An object schema built from a list of fields: `required` is absent when empty. */
  datatype ObjectSchema = ObjectSchema(properties: map<string, Schema>, required: seq<string>)

  const UnknownPrefix: string := "Original type: "

  /**
   * The shape every single-type mapping has: a `type`, no `oneOf`, not
   * nullable, `items` exactly for arrays (each either `{}` or again of this
   * shape), `maxLength`/`format` only on strings, a description only on objects.
   */
  predicate SingleShape(s: Schema) {
    && s.typ.Some? && s.oneOf.None? && !s.nullable
    && (s.items.Some? <==> s.typ == Some(ArrayType))
    && (s.maxLength.Some? || s.format.Some? ==> s.typ == Some(StringType))
    && (s.description.Some? ==> s.typ == Some(ObjectType))
    && (s.items.Some? ==> s.items.value == EmptySchema || SingleShape(s.items.value))
  }

  /** `string[N]` at `i`, any letter case, `N` a non-empty digit run closed by `]`. */
  predicate StringLengthAt(t: string, i: int) {
    && 0 <= i && i + 7 <= |t|
    && EqualsIgnoreCase(t[i..i + 6], "string") && t[i + 6] == '['
    && var n := DigitRunLength(t[i + 7..]);
       n > 0 && i + 7 + n < |t| && t[i + 7 + n] == ']'
  }

  /** The digits of the `string[N]` occurrence at `i`. */
  function StringLengthDigits(t: string, i: int): (d: string)
    requires StringLengthAt(t, i)
    ensures |d| > 0 && AllDigits(d)
  {
    var n := DigitRunLength(t[i + 7..]);
    assert t[i + 7..][..n] == t[i + 7..i + 7 + n];
    t[i + 7..i + 7 + n]
  }

  /** Leftmost match of `/string\[(\d+)\]/i` at or after `from`. */
  function FindStringLength(t: string, from: nat): (r: Option<nat>)
    ensures r.Some? ==> from <= r.value && StringLengthAt(t, r.value)
    ensures r.Some? ==> forall j :: from <= j < r.value ==> !StringLengthAt(t, j)
    ensures r.None? ==> forall j :: from <= j ==> !StringLengthAt(t, j)
    decreases |t| - from
  {
    if from + 7 > |t| then None
    else if StringLengthAt(t, from) then Some(from)
    else FindStringLength(t, from + 1)
  }

  /** The `switch` on the lower-cased annotation; `None` for the default branch. */
  function KnownLiteral(lower: string): (r: Option<Schema>)
    ensures r.Some? ==> SingleShape(r.value)
  {
    if lower == "string" then Some(Typed(StringType))
    else if lower == "integer" then Some(Typed(IntegerType))
    else if lower == "number" || lower == "float" || lower == "double" then Some(Typed(NumberType))
    else if lower == "boolean" || lower == "bool" then Some(Typed(BooleanType))
    else if lower == "object" then Some(Typed(ObjectType))
    else if lower == "array" then Some(ArrayOf(EmptySchema))
    else if lower == "buffer" then Some(Typed(StringType).(format := Some("binary")))
    else None
  }

  /**
   * `mapSingleType`: total, and every recursive call is on a strictly shorter
   * string. Empty maps to `string`; after trimming, a trailing `[]` maps to an
   * array of the prefix; otherwise everything from the first `/` on is
   * discarded; otherwise a `string[N]` anywhere gives a bounded string;
   * otherwise a known literal (any case) gives its type; anything else is an
   * object annotated with the trimmed text.
   */
  function MapSingleType(t: string): (r: Schema)
    ensures SingleShape(r)
    decreases |t|
  {
    if t == "" then Typed(StringType)
    else
      var trimmed := Trim(t);
      if EndsWith(trimmed, "[]") then ArrayOf(MapSingleType(trimmed[..|trimmed| - 2]))
      else if '/' in trimmed then MapSingleType(trimmed[..IndexOf(trimmed, '/')])
      else match FindStringLength(trimmed, 0)
        case Some(i) => Typed(StringType).(maxLength := Some(DigitsValue(StringLengthDigits(trimmed, i))))
        case None =>
          match KnownLiteral(Lower(trimmed))
          case Some(s) => s
          case None => Typed(ObjectType).(description := Some(UnknownPrefix + trimmed))
  }

  /**
   * `type.trim()` comes first: a text with something besides whitespace maps
   * as its trimmed form does, so the default branch describes the trimmed text.
   */
  lemma TrimFirst(t: string)
    requires Trim(t) != ""
    ensures MapSingleType(t) == MapSingleType(Trim(t))
  {
    TrimTrimmed(Trim(t));
  }

  /** Whitespace alone is truthy but trims to nothing, so it falls to the default branch with an empty description text. */
  lemma BlankAnnotation(t: string)
    requires t != "" && Trim(t) == ""
    ensures MapSingleType(t) == Typed(ObjectType).(description := Some(UnknownPrefix))
  {
    assert Lower("") == "";
    assert UnknownPrefix + "" == UnknownPrefix;
  }

  /**
   * A trailing `[]` wraps the mapping of what precedes it in an array, to any
   * depth; only the front of the prefix is trimmed before it is mapped.
   */
  lemma ArraySuffix(t: string)
    ensures MapSingleType(t + "[]") == ArrayOf(MapSingleType(TrimStart(t)))
    ensures Trimmed(t) ==> MapSingleType(t + "[]") == ArrayOf(MapSingleType(t))
  {
    var u := t + "[]";
    TrimBeforeWord(t, "[]");
    var trimmed := TrimStart(t) + "[]";
    assert trimmed[..|trimmed| - 2] == TrimStart(t);
    if Trimmed(t) {
      TrimStartKeeps(t);
    }
  }

  /** Trimming `a/b` for a slash-free `a` leaves the front-trimmed `a` and the `/` in front. */
  lemma TrimAroundSlash(a: string, b: string)
    requires '/' !in a
    ensures var trimmed := Trim(a + "/" + b); var a' := TrimStart(a);
      |trimmed| > |a'| && trimmed[..|a'|] == a' && trimmed[|a'|] == '/' && '/' !in a'
  {
    var a' := TrimStart(a);
    var v := a' + ("/" + b);
    TrimSlashFront(a, b);
    assert v[|a'|] == '/';
    TrimEndKeepsNonSpace(v, |a'|);
    PrefixUpTo(TrimEnd(v), v, |a'|);
    assert v[..|a'|] == a';
    SliceKeepsOut(a, |a| - |a'|, |a|, '/');
  }

  lemma TrimSlashFront(a: string, b: string)
    ensures Trim(a + "/" + b) == TrimEnd(TrimStart(a) + ("/" + b))
  {
    assert a + "/" + b == a + ("/" + b);
    TrimStartBefore(a, "/" + b);
  }

  lemma PrefixUpTo(x: string, v: string, k: nat)
    requires k < |x| && k < |v| && x[..k + 1] == v[..k + 1]
    ensures x[..k] == v[..k] && x[k] == v[k]
  {
    assert x[..k] == x[..k + 1][..k];
    assert v[..k] == v[..k + 1][..k];
    assert x[k] == x[..k + 1][k];
    assert v[k] == v[..k + 1][k];
  }

  /** Everything from the first `/` on is discarded: `Number/String` maps as `Number`. */
  lemma SlashDiscards(a: string, b: string)
    requires '/' !in a
    requires !EndsWith(Trim(a + "/" + b), "[]")
    ensures MapSingleType(a + "/" + b) == MapSingleType(TrimStart(a))
    ensures Trimmed(a) ==> MapSingleType(a + "/" + b) == MapSingleType(a)
  {
    var trimmed := Trim(a + "/" + b);
    var a' := TrimStart(a);
    TrimAroundSlash(a, b);
    assert '/' in trimmed;
    assert IndexOf(trimmed, '/') == |a'| by {
      assert '/' !in trimmed[..|a'|];
    }
    if Trimmed(a) {
      TrimStartKeeps(a);
    }
  }

  /** A space between the element type and `[]` is trimmed off the element type. */
  lemma SpacedArraySuffix(x: string)
    requires x != "" && Trimmed(x)
    ensures MapSingleType(x + " []") == ArrayOf(MapSingleType(x))
  {
    var w := x + " ";
    assert x + " []" == w + "[]";
    OneTrailingSpace(x);
    ArraySuffix(w);
    TrimFirst(w);
  }

  lemma OneTrailingSpace(x: string)
    requires x != "" && Trimmed(x)
    ensures TrimStart(x + " ") == x + " " && Trim(x + " ") == x
  {
    var w := x + " ";
    assert w[0] == x[0];
    TrimStartKeeps(w);
    PadEnd(x);
  }

  /** `String []` is an array of strings. */
  lemma SpacedStringArray(t: string)
    requires t == "String []"
    ensures MapSingleType(t) == ArrayOf(Typed(StringType))
  {
    assert t == "String" + " []";
    SpacedArraySuffix("String");
    StringWord("String");
  }

  /** A known literal maps to its type whatever its letter case. */
  lemma LiteralIgnoresCase(t: string)
    requires Trimmed(t) && t != ""
    requires KnownLiteral(Lower(t)).Some?
    ensures MapSingleType(t) == KnownLiteral(Lower(t)).value
  {
    TrimTrimmed(t);
    KnownLiteralChars(Lower(t));
    LowerKeepsAbsent(t, '[');
    LowerKeepsAbsent(t, '/');
    NoBracketNoLength(t);
  }

  /** No known type word contains `[` or `/`. */
  lemma KnownLiteralChars(l: string)
    requires KnownLiteral(l).Some?
    ensures '[' !in l && '/' !in l
  {
  }

  /** A character that is not an upper-case letter and is absent from the lower-cased text is absent from the text. */
  lemma LowerKeepsAbsent(t: string, c: char)
    requires !IsUpper(c) && c !in Lower(t)
    ensures c !in t
  {
    forall i | 0 <= i < |t| ensures t[i] != c {
      assert Lower(t)[i] == ToLowerChar(t[i]);
      assert Lower(t)[i] in Lower(t);
    }
  }

  /** Without `[` there is neither an array suffix nor a `string[N]`. */
  lemma NoBracketNoLength(t: string)
    requires '[' !in t
    ensures !EndsWith(t, "[]") && FindStringLength(t, 0).None?
  {
    if |t| >= 2 { assert t[|t| - 2] in t; }
    forall j | 0 <= j ensures !StringLengthAt(t, j) {
      if j + 7 <= |t| { assert t[j + 6] in t; }
    }
  }

  // ---------------------------------------------------------------------------
  // mapTypeToSchema: unions and `null`
  // ---------------------------------------------------------------------------

  /** The word `null`, in any letter case, with a word boundary on both sides, at `i`. */
  predicate NullWordAt(t: string, i: int) {
    && 0 <= i && i + 4 <= |t|
    && EqualsIgnoreCase(t[i..i + 4], "null")
    && (i == 0 || !IsWordChar(t[i - 1]))
    && (i + 4 == |t| || !IsWordChar(t[i + 4]))
  }

  /** `/\bnull\b/i.test(t)` restricted to positions at or after `from`. */
  function HasNullWordFrom(t: string, from: nat): (b: bool)
    ensures b <==> exists i :: from <= i && NullWordAt(t, i)
    decreases |t| - from
  {
    if from + 4 > |t| then false
    else NullWordAt(t, from) || HasNullWordFrom(t, from + 1)
  }

  /** `parts.map(p => p.trim())`. */
  function TrimAll(parts: seq<string>): (r: seq<string>)
    ensures |r| == |parts| && forall i :: 0 <= i < |parts| ==> r[i] == Trim(parts[i])
  {
    seq(|parts|, i requires 0 <= i < |parts| => Trim(parts[i]))
  }

  /** `filter(Boolean)`: the non-empty strings, in order. */
  function NonEmpty(ps: seq<string>): (r: seq<string>)
    ensures forall k :: 0 <= k < |r| ==> r[k] in ps && r[k] != ""
    ensures forall p :: p in ps && p != "" ==> p in r
  {
    if |ps| == 0 then []
    else
      var rest := NonEmpty(ps[1..]);
      if ps[0] == "" then rest else [ps[0]] + rest
  }

  /** `filter(p => !/^null$/i.test(p))`. */
  function NonNull(ps: seq<string>): (r: seq<string>)
    ensures forall k :: 0 <= k < |r| ==> r[k] in ps && !EqualsIgnoreCase(r[k], "null")
    ensures forall p :: p in ps && !EqualsIgnoreCase(p, "null") ==> p in r
  {
    if |ps| == 0 then []
    else
      var rest := NonNull(ps[1..]);
      if EqualsIgnoreCase(ps[0], "null") then rest else [ps[0]] + rest
  }

  /** The non-empty, non-`null` alternatives of a `|`-union, trimmed, in order. */
  function Alternatives(t: string): (alts: seq<string>)
    ensures forall k :: 0 <= k < |alts| ==> alts[k] != "" && Trimmed(alts[k]) && '|' !in alts[k]
    ensures forall k :: 0 <= k < |alts| ==> !EqualsIgnoreCase(alts[k], "null")
  {
    var parts := Split(t, '|');
    TrimmedPieces(parts, '|');
    KeptAlternatives(TrimAll(parts));
    NonNull(NonEmpty(TrimAll(parts)))
  }

  /** Trimmed pieces free of `c` are trimmed and still free of `c`. */
  lemma TrimmedPieces(parts: seq<string>, c: char)
    requires forall k :: 0 <= k < |parts| ==> c !in parts[k]
    ensures forall a :: a in TrimAll(parts) ==> Trimmed(a) && c !in a
  {
    forall a | a in TrimAll(parts)
      ensures Trimmed(a) && c !in a
    {
      var j :| 0 <= j < |parts| && TrimAll(parts)[j] == a;
      TrimKeepsOut(parts[j], c);
    }
  }

  /** What survives both filters is a non-empty, non-`null` member of the input. */
  lemma KeptAlternatives(ps: seq<string>)
    ensures forall a :: a in NonNull(NonEmpty(ps)) ==> a in ps && a != "" && !EqualsIgnoreCase(a, "null")
  {
    var ne := NonEmpty(ps);
    var nn := NonNull(ne);
    forall a | a in nn
      ensures a in ps && a != "" && !EqualsIgnoreCase(a, "null")
    {
      var k :| 0 <= k < |nn| && nn[k] == a;
      var j :| 0 <= j < |ne| && ne[j] == a;
    }
  }

  /** An empty annotation has no alternative and no `null`, and maps as a string. */
  lemma EmptyAnnotation(t: string)
    requires t == ""
    ensures Alternatives(t) == [] && MapSingleType(t) == Typed(StringType)
    ensures forall i :: !NullWordAt(t, i)
  {
    SplitWithoutSeparator(t, '|');
    assert TrimAll([t]) == [t];
    assert NonEmpty([t]) == [];
  }

  /**
   * `mapTypeToSchema`: `nullable` is set exactly when the word `null` occurs in
   * the annotation; a union with more than one non-null alternative becomes a
   * `oneOf` of the alternatives mapped one by one (and then has no `type`);
   * with one alternative that alternative is mapped; with none, the whole
   * annotation is.
   */
  function MapTypeToSchema(t: string): (r: Schema)
    ensures r.nullable <==> exists i :: NullWordAt(t, i)
    ensures r.typ.Some? <==> r.oneOf.None?
    ensures var alts := Alternatives(t);
      && (r.oneOf.Some? <==> |alts| > 1)
      && (r.oneOf.Some? ==> r.oneOf.value == seq(|alts|, k requires 0 <= k < |alts| => MapSingleType(alts[k])))
      && (|alts| == 1 ==> r.(nullable := false) == MapSingleType(alts[0]))
      && (|alts| == 0 ==> r.(nullable := false) == MapSingleType(t))
  {
    var alts := Alternatives(t);
    if t == "" then
      EmptyAnnotation(t);
      Typed(StringType)
    else
      FromAlternatives(t, alts, HasNullWordFrom(t, 0))
  }

  /** The schema for the alternatives `alts` of annotation `t`, with `nullable` as given. */
  function FromAlternatives(t: string, alts: seq<string>, nullable: bool): (r: Schema)
    ensures r.nullable == nullable
    ensures r.typ.Some? <==> r.oneOf.None?
    ensures r.oneOf.Some? <==> |alts| > 1
    ensures r.oneOf.Some? ==> r.oneOf.value == seq(|alts|, k requires 0 <= k < |alts| => MapSingleType(alts[k]))
    ensures |alts| == 1 ==> r.(nullable := false) == MapSingleType(alts[0])
    ensures |alts| == 0 ==> r.(nullable := false) == MapSingleType(t)
  {
    if |alts| > 1 then
      EmptySchema.(oneOf := Some(seq(|alts|, k requires 0 <= k < |alts| => MapSingleType(alts[k]))), nullable := nullable)
    else
      var single := MapSingleType(if |alts| == 1 then alts[0] else t);
      single.(nullable := nullable)
  }

  // ---------------------------------------------------------------------------
  // Worked annotations
  // ---------------------------------------------------------------------------

  /** Without an `l` there is no `null` word. */
  lemma NoNullWordWithoutL(t: string)
    requires 'l' !in t && 'L' !in t
    ensures forall i :: !NullWordAt(t, i)
  {
    forall i ensures !NullWordAt(t, i) {
      if 0 <= i && i + 4 <= |t| {
        assert t[i + 2] in t;
        assert Lower(t[i..i + 4])[2] == ToLowerChar(t[i + 2]);
      }
    }
  }

  /** Without a `u` there is no `null` word either. */
  lemma NoNullWordWithoutU(t: string)
    requires 'u' !in t && 'U' !in t
    ensures forall i :: !NullWordAt(t, i)
  {
    forall i ensures !NullWordAt(t, i) {
      if 0 <= i && i + 4 <= |t| {
        assert t[i + 1] in t;
        assert Lower(t[i..i + 4])[1] == ToLowerChar(t[i + 1]);
      }
    }
  }

  /** A trimmed annotation with no `|` and no `null` word maps as a single type. */
  lemma PlainAnnotation(t: string)
    requires t != "" && Trimmed(t) && '|' !in t && forall i :: !NullWordAt(t, i)
    ensures MapTypeToSchema(t) == MapSingleType(t)
  {
    SplitWithoutSeparator(t, '|');
    TrimTrimmed(t);
    assert TrimAll([t]) == [t];
    assert NonEmpty([t]) == [t];
    assert !EqualsIgnoreCase(t, "null") by { assert !NullWordAt(t, 0); }
    assert NonNull([t]) == [t];
  }

  /** `String` maps to `string`. */
  lemma StringWord(t: string)
    requires t == "String"
    ensures MapSingleType(t) == Typed(StringType)
  {
    assert Lower(t) == "string";
    LiteralIgnoresCase(t);
  }

  /** An annotation `elem[]` with no `|` and no `null` is an array of `elem`'s mapping. */
  lemma ArrayAnnotation(t: string, elem: string)
    requires t == elem + "[]" && elem != "" && Trimmed(elem)
    requires '|' !in t && forall i :: !NullWordAt(t, i)
    ensures MapTypeToSchema(t) == ArrayOf(MapSingleType(elem))
  {
    PlainAnnotation(t);
    ArraySuffix(elem);
  }

  /** `String[]` is an array of strings. */
  lemma StringArrayAnnotation(t: string)
    requires t == "String[]"
    ensures MapTypeToSchema(t) == ArrayOf(Typed(StringType))
  {
    NoNullWordWithoutL(t);
    ArrayAnnotation(t, "String");
    StringWord("String");
  }

  /** A trimmed annotation without `/` or `[]` ending whose first `string[N]` is at `i` is a string bounded by `N`. */
  lemma BoundedAt(t: string, i: nat, d: string)
    requires t != "" && Trimmed(t) && '/' !in t && !EndsWith(t, "[]")
    requires FindStringLength(t, 0) == Some(i) && StringLengthDigits(t, i) == d
    ensures MapSingleType(t) == Typed(StringType).(maxLength := Some(DigitsValue(d)))
  {
    TrimTrimmed(t);
  }

  /** The value of a two-digit numeral. */
  lemma TwoDigitValue(d: string)
    requires |d| == 2 && AllDigits(d)
    ensures DigitsValue(d) == 10 * DigitValue(d[0]) + DigitValue(d[1])
  {
    var h := d[..1];
    assert h[..0] == [] && h[0] == d[0];
    assert DigitsValue(h) == DigitValue(d[0]);
  }

  /** The first `string[N]` of `String[64]` is at 0, with digits `64`. */
  lemma BoundedStringMatch(t: string)
    requires t == "String[64]"
    ensures FindStringLength(t, 0) == Some(0) && StringLengthDigits(t, 0) == "64"
  {
    assert Lower(t[0..6]) == "string";
    assert t[7..] == "64]";
    assert DigitRunLength("]") == 0;
    assert DigitRunLength("4]") == 1 by { assert "4]"[1..] == "]"; }
    assert DigitRunLength("64]") == 2 by { assert "64]"[1..] == "4]"; }
  }

  /** `String[64]` maps, as a single type, to a string bounded by 64. */
  lemma BoundedStringSingle(t: string)
    requires t == "String[64]"
    ensures MapSingleType(t) == Typed(StringType).(maxLength := Some(64))
  {
    assert Trimmed(t) && '/' !in t;
    assert !EndsWith(t, "[]") by { assert t[8..] == "4]"; }
    BoundedStringMatch(t);
    BoundedAt(t, 0, "64");
    TwoDigitValue("64");
  }

  /** `String[64]` is a string of at most 64 characters. */
  lemma BoundedStringAnnotation(t: string)
    requires t == "String[64]"
    ensures MapTypeToSchema(t) == Typed(StringType).(maxLength := Some(64))
  {
    NoNullWordWithoutL(t);
    PlainAnnotation(t);
    BoundedStringSingle(t);
  }

  /** The first `string[N]` of `Substring[8]` is at 3, inside the word, with digit `8`. */
  lemma SubstringMatch(t: string)
    requires t == "Substring[8]"
    ensures FindStringLength(t, 0) == Some(3) && StringLengthDigits(t, 3) == "8"
  {
    assert !StringLengthAt(t, 0) by { assert t[6] != '['; }
    assert !StringLengthAt(t, 1) by { assert t[7] != '['; }
    assert !StringLengthAt(t, 2) by { assert t[8] != '['; }
    assert Lower(t[3..9]) == "string";
    assert t[10..] == "8]";
    assert DigitRunLength("]") == 0;
    assert DigitRunLength("8]") == 1 by { assert "8]"[1..] == "]"; }
    assert StringLengthAt(t, 3);
  }

  /** `Substring[8]` maps, as a single type, to a string bounded by 8. */
  lemma SubstringSingle(t: string)
    requires t == "Substring[8]"
    ensures MapSingleType(t) == Typed(StringType).(maxLength := Some(8))
  {
    assert Trimmed(t) && '/' !in t;
    assert !EndsWith(t, "[]") by { assert t[10..] == "8]"; }
    SubstringMatch(t);
    BoundedAt(t, 3, "8");
    assert DigitsValue("8") == 8 by { assert "8"[..0] == ""; }
  }

  /** The `string[N]` pattern is not anchored: `Substring[8]` is a string bounded by 8. */
  lemma StringLengthUnanchored(t: string)
    requires t == "Substring[8]"
    ensures MapTypeToSchema(t) == Typed(StringType).(maxLength := Some(8))
  {
    NoNullWordWithoutL(t);
    PlainAnnotation(t);
    SubstringSingle(t);
  }

  /** The pieces of `a|b` for `|`-free, trimmed, non-empty `a` and `b`. */
  lemma SplitTwo(t: string, a: string, b: string)
    requires t == a + "|" + b && a != "" && b != "" && Trimmed(a) && Trimmed(b)
    requires '|' !in a && '|' !in b
    ensures TrimAll(Split(t, '|')) == [a, b]
    ensures NonEmpty(TrimAll(Split(t, '|'))) == [a, b]
  {
    SplitPair(t, a, b);
    TrimPair(a, b);
    NonEmptyPair(a, b);
  }

  lemma SplitPair(t: string, a: string, b: string)
    requires t == a + "|" + b && '|' !in a && '|' !in b
    ensures Split(t, '|') == [a, b]
  {
    SplitFirst(a, '|', b);
    SplitWithoutSeparator(b, '|');
  }

  lemma TrimPair(a: string, b: string)
    requires Trimmed(a) && Trimmed(b)
    ensures TrimAll([a, b]) == [a, b]
  {
    TrimTrimmed(a);
    TrimTrimmed(b);
  }

  lemma NonEmptyPair(a: string, b: string)
    requires a != "" && b != ""
    ensures NonEmpty([a, b]) == [a, b]
  {
    assert [a, b][1..] == [b];
    assert [b][1..] == [];
    assert NonEmpty([b]) == [b] + NonEmpty([]);
    assert NonEmpty([a, b]) == [a] + NonEmpty([b]);
  }

  /** A trailing `null` piece is filtered out. */
  lemma DropTrailingNull(a: string, n: string)
    requires n == "null" && !EqualsIgnoreCase(a, "null")
    ensures NonNull([a, n]) == [a]
  {
    assert Lower(n) == "null";
    assert [n][1..] == [];
    assert NonNull([n]) == [];
    assert [n] == [a, n][1..];
  }

  /** Two non-null pieces are both kept. */
  lemma KeepNonNullPair(a: string, b: string)
    requires !EqualsIgnoreCase(a, "null") && !EqualsIgnoreCase(b, "null")
    ensures NonNull([a, b]) == [a, b]
  {
    assert [b][1..] == [];
    assert NonNull([b]) == [b];
    assert [b] == [a, b][1..];
  }

  /** The alternatives of `a|null`. */
  lemma NullableAlternatives(t: string, a: string)
    requires t == a + "|null" && a != "" && Trimmed(a) && '|' !in a
    requires !EqualsIgnoreCase(a, "null")
    ensures Alternatives(t) == [a] && HasNullWordFrom(t, 0)
  {
    assert t == a + "|" + "null";
    SplitTwo(t, a, "null");
    DropTrailingNull(a, "null");
    TrailingNullWord(t, a);
  }

  /** `a|null` contains the word `null`. */
  lemma TrailingNullWord(t: string, a: string)
    requires t == a + "|null"
    ensures HasNullWordFrom(t, 0)
  {
    assert NullWordAt(t, |a| + 1) by {
      assert t[|a| + 1..|a| + 5] == "null";
      assert Lower("null") == "null";
    }
  }

  /**
   * `T|null`: the `null` alternative is dropped and only sets `nullable`, so
   * the result is the single type's mapping, made nullable.
   */
  lemma NullableAnnotation(t: string, a: string)
    requires t == a + "|null" && a != "" && Trimmed(a) && '|' !in a
    requires !EqualsIgnoreCase(a, "null")
    ensures MapTypeToSchema(t) == MapSingleType(a).(nullable := true)
  {
    NullableAlternatives(t, a);
  }

  /** `String|null` is a nullable string. */
  lemma NullableStringAnnotation(t: string)
    requires t == "String|null"
    ensures MapTypeToSchema(t) == Typed(StringType).(nullable := true)
  {
    assert Lower("String") == "string";
    NullableAnnotation(t, "String");
    StringWord("String");
  }

  /** Without a `null` word in `a|b`, neither side is `null`. */
  lemma NoNullInUnion(t: string, a: string, b: string)
    requires t == a + "|" + b && forall i :: !NullWordAt(t, i)
    ensures !HasNullWordFrom(t, 0) && !EqualsIgnoreCase(a, "null") && !EqualsIgnoreCase(b, "null")
  {
    assert !NullWordAt(t, 0);
    assert !NullWordAt(t, |a| + 1);
  }

  /** The alternatives of `a|b` when neither is `null`. */
  lemma UnionAlternatives(t: string, a: string, b: string)
    requires t == a + "|" + b && a != "" && b != "" && Trimmed(a) && Trimmed(b)
    requires '|' !in a && '|' !in b && !EqualsIgnoreCase(a, "null") && !EqualsIgnoreCase(b, "null")
    ensures Alternatives(t) == [a, b]
  {
    SplitTwo(t, a, b);
    KeepNonNullPair(a, b);
  }

  /** Two alternatives and no `null`: a non-nullable `oneOf` of the two mappings. */
  lemma OneOfComprehension(t: string, a: string, b: string)
    requires t != "" && Alternatives(t) == [a, b] && !HasNullWordFrom(t, 0)
    ensures MapTypeToSchema(t) == EmptySchema.(oneOf := Some(seq(2, k requires 0 <= k < 2 => MapSingleType([a, b][k]))))
  {
  }

  /** The mapped pair, as a display. */
  lemma MappedPair(ms: seq<Schema>, a: string, b: string)
    requires ms == seq(2, k requires 0 <= k < 2 => MapSingleType([a, b][k]))
    ensures ms == [MapSingleType(a), MapSingleType(b)]
  {
  }

  /** Two alternatives and no `null`, with the `oneOf` written out. */
  lemma OneOfPair(t: string, a: string, b: string)
    requires t != "" && Alternatives(t) == [a, b] && !HasNullWordFrom(t, 0)
    ensures MapTypeToSchema(t) == EmptySchema.(oneOf := Some([MapSingleType(a), MapSingleType(b)]))
  {
    OneOfComprehension(t, a, b);
    MappedPair(MapTypeToSchema(t).oneOf.value, a, b);
  }

  /** `a|b` with two non-null alternatives is a `oneOf` of their mappings, with no `type`. */
  lemma TwoWayUnion(t: string, a: string, b: string)
    requires t == a + "|" + b && a != "" && b != "" && Trimmed(a) && Trimmed(b)
    requires '|' !in a && '|' !in b && forall i :: !NullWordAt(t, i)
    ensures MapTypeToSchema(t) == EmptySchema.(oneOf := Some([MapSingleType(a), MapSingleType(b)]))
  {
    NoNullInUnion(t, a, b);
    UnionAlternatives(t, a, b);
    OneOfPair(t, a, b);
  }

  /** `Number` maps to `number`. */
  lemma NumberWord(t: string)
    requires t == "Number"
    ensures MapSingleType(t) == Typed(NumberType)
  {
    assert Lower(t) == "number";
    LiteralIgnoresCase(t);
  }

  /** `String|Number` is a `oneOf` of the two, with no `type` of its own. */
  lemma UnionAnnotation(t: string)
    requires t == "String|Number"
    ensures MapTypeToSchema(t) == EmptySchema.(oneOf := Some([Typed(StringType), Typed(NumberType)]))
  {
    NoNullWordWithoutL(t);
    TwoWayUnion(t, "String", "Number");
    StringWord("String");
    NumberWord("Number");
  }

  /** `Boolean` maps to `boolean`. */
  lemma BooleanWord(t: string)
    requires t == "Boolean"
    ensures MapSingleType(t) == Typed(BooleanType)
  {
    assert Lower(t) == "boolean";
    LiteralIgnoresCase(t);
  }

  /** `Integer` maps to `integer`. */
  lemma IntegerWord(t: string)
    requires t == "Integer"
    ensures MapSingleType(t) == Typed(IntegerType)
  {
    assert Lower(t) == "integer";
    LiteralIgnoresCase(t);
  }

  /** `Boolean|Integer`, whose `l` starts no `null` word, is a `oneOf` of boolean and integer. */
  lemma BooleanIntegerUnion(t: string)
    requires t == "Boolean|Integer"
    ensures MapTypeToSchema(t) == EmptySchema.(oneOf := Some([Typed(BooleanType), Typed(IntegerType)]))
  {
    NoNullWordWithoutU(t);
    TwoWayUnion(t, "Boolean", "Integer");
    BooleanWord("Boolean");
    IntegerWord("Integer");
  }

  /** `Boolean[]` is an array of booleans. */
  lemma BooleanArrayAnnotation(t: string)
    requires t == "Boolean[]"
    ensures MapTypeToSchema(t) == ArrayOf(Typed(BooleanType))
  {
    NoNullWordWithoutU(t);
    ArrayAnnotation(t, "Boolean");
    BooleanWord("Boolean");
  }

  /**
   * The default branch: a trimmed text that ends in no `[]`, has no `/`, no
   * `string[N]` and is no known type word is an object described by the text.
   */
  lemma UnknownWord(t: string)
    requires t != "" && Trimmed(t) && '/' !in t && !EndsWith(t, "[]")
    requires FindStringLength(t, 0).None? && KnownLiteral(Lower(t)).None?
    ensures MapSingleType(t) == Typed(ObjectType).(description := Some(UnknownPrefix + t))
  {
    TrimTrimmed(t);
  }

  /** `Object[x]` is no array, no bounded string and no known word: it is described as it is. */
  lemma BracketedUnknown(t: string)
    requires t == "Object[x]"
    ensures MapSingleType(t) == Typed(ObjectType).(description := Some(UnknownPrefix + t))
  {
    assert t[|t| - 2..] == "x]";
    assert |Lower(t)| == 9;
    forall j | 0 <= j ensures !StringLengthAt(t, j) {
      if j + 7 <= |t| {
        if j == 0 {
          assert Lower(t[0..6])[0] == 'o';
        } else {
          assert t[j + 6] != '[';
        }
      }
    }
    UnknownWord(t);
  }

  /** A `null` in any case is trimmed, free of `|`, `/` and `[`, and a `null` word. */
  lemma NullWordShape(t: string)
    requires EqualsIgnoreCase(t, "null")
    ensures t != "" && Trimmed(t) && '|' !in t && '/' !in t && '[' !in t && NullWordAt(t, 0)
  {
    LowerKeepsAbsent(t, '|');
    LowerKeepsAbsent(t, '/');
    LowerKeepsAbsent(t, '[');
    assert Lower(t)[0] == ToLowerChar(t[0]);
    assert Lower(t)[3] == ToLowerChar(t[3]);
  }

  /** A lone `null` leaves no alternative. */
  lemma NullLeavesNoAlternative(t: string)
    requires EqualsIgnoreCase(t, "null") && Trimmed(t) && '|' !in t
    ensures Alternatives(t) == []
  {
    SplitWithoutSeparator(t, '|');
    TrimTrimmed(t);
    assert TrimAll([t]) == [t];
    assert NonEmpty([t]) == [t];
    assert NonNull([t]) == [];
  }

  /** No alternative but a `null` word: the whole annotation's mapping, made nullable. */
  lemma NullableWhole(t: string)
    requires t != "" && Alternatives(t) == [] && HasNullWordFrom(t, 0)
    ensures MapTypeToSchema(t) == MapSingleType(t).(nullable := true)
  {
  }

  /**
   * An annotation that is nothing but `null` (in any case) has no alternative
   * left, so the whole text is mapped: an object described as
   * `Original type: ` followed by that text, and nullable.
   */
  lemma AllNullUnionMapsWholeText(t: string)
    requires EqualsIgnoreCase(t, "null")
    ensures MapTypeToSchema(t) == Typed(ObjectType).(description := Some(UnknownPrefix + t), nullable := true)
  {
    NullWordShape(t);
    NullLeavesNoAlternative(t);
    assert HasNullWordFrom(t, 0) by { assert NullWordAt(t, 0); }
    NullableWhole(t);
    NullIsNoLiteral(t);
    UnknownWord(t);
  }

  lemma NullIsNoLiteral(t: string)
    requires EqualsIgnoreCase(t, "null")
    ensures KnownLiteral(Lower(t)).None?
  {
    assert Lower(t) == "null";
  }
}
