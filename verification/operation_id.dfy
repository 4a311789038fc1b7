/**
 * Operation identifiers: `sanitizeOperationId` turns a base name into an
 * identifier of word characters and numbers repeated identifiers through a
 * counter that lives for one conversion run.
 */
module OperationIds {
  import opened Text

  /** An ASCII letter or digit: a word character other than `_`. */
  predicate IsAlnum(c: char) {
    IsWordChar(c) && c != '_'
  }

  /** The letters and digits of `s`, in order: what sanitising never changes. */
  function AlnumOf(s: string): (r: string)
    ensures |r| <= |s|
    decreases |s|
  {
    if |s| == 0 then []
    else (if IsAlnum(s[0]) then [s[0]] else []) + AlnumOf(s[1..])
  }

  lemma {:induction false} AlnumOfAppend(a: string, b: string)
    ensures AlnumOf(a + b) == AlnumOf(a) + AlnumOf(b)
    decreases |a|
  {
    if |a| > 0 {
      assert (a + b)[0] == a[0];
      assert (a + b)[1..] == a[1..] + b;
      AlnumOfAppend(a[1..], b);
    } else {
      assert a + b == b;
    }
  }

  lemma {:induction false} AlnumOfNone(s: string)
    requires forall i :: 0 <= i < |s| ==> !IsAlnum(s[i])
    ensures AlnumOf(s) == []
    decreases |s|
  {
    if |s| > 0 {
      AlnumOfNone(s[1..]);
    }
  }

  /** Dropping a prefix or suffix without letters or digits keeps the letters and digits. */
  lemma AlnumOfSplit(s: string, n: nat)
    requires n <= |s|
    ensures AlnumOf(s) == AlnumOf(s[..n]) + AlnumOf(s[n..])
  {
    assert s == s[..n] + s[n..];
    AlnumOfAppend(s[..n], s[n..]);
  }

  /** No two adjacent underscores. */
  predicate NoDoubleUnderscore(s: string) {
    forall i :: 0 <= i < |s| - 1 ==> !(s[i] == '_' && s[i + 1] == '_')
  }

  /** Neither starts nor ends with an underscore. */
  predicate NoEdgeUnderscore(s: string) {
    |s| == 0 || (s[0] != '_' && s[|s| - 1] != '_')
  }

  /** An identifier `sanitizeOperationId` leaves as it is. */
  predicate CleanId(s: string) {
    s != "" && AllWordChars(s) && NoDoubleUnderscore(s) && NoEdgeUnderscore(s)
  }

  /** Length of the maximal prefix of non-word characters. */
  function NonWordRunLength(s: string): (n: nat)
    ensures n <= |s|
    ensures forall i :: 0 <= i < n ==> !IsWordChar(s[i])
    ensures n < |s| ==> IsWordChar(s[n])
    decreases |s|
  {
    if |s| == 0 || IsWordChar(s[0]) then 0 else 1 + NonWordRunLength(s[1..])
  }

  /** Length of the maximal prefix of underscores. */
  function UnderscoreRunLength(s: string): (n: nat)
    ensures n <= |s|
    ensures forall i :: 0 <= i < n ==> s[i] == '_'
    ensures n < |s| ==> s[n] != '_'
    decreases |s|
  {
    if |s| == 0 || s[0] != '_' then 0 else 1 + UnderscoreRunLength(s[1..])
  }

  /** Length of the maximal suffix of underscores. */
  function TrailingUnderscoreLength(s: string): (n: nat)
    ensures n <= |s|
    ensures forall i :: |s| - n <= i < |s| ==> s[i] == '_'
    ensures n < |s| ==> s[|s| - n - 1] != '_'
    decreases |s|
  {
    if |s| == 0 || s[|s| - 1] != '_' then 0 else 1 + TrailingUnderscoreLength(s[..|s| - 1])
  }

  /** `.replace(/[^A-Za-z0-9_]+/g, '_')`: each maximal run of non-word characters becomes one underscore. */
  function ReplaceNonWord(s: string): (r: string)
    ensures AllWordChars(r)
    ensures AlnumOf(r) == AlnumOf(s)
    ensures |r| == 0 <==> |s| == 0
    ensures |r| > 0 ==> (r[0] == '_' <==> !IsAlnum(s[0]))
    ensures AllWordChars(s) ==> r == s
    decreases |s|
  {
    if |s| == 0 then ""
    else if IsWordChar(s[0]) then [s[0]] + ReplaceNonWord(s[1..])
    else
      var n := NonWordRunLength(s);
      AlnumOfNone(s[..n]);
      AlnumOfSplit(s, n);
      "_" + ReplaceNonWord(s[n..])
  }

  /** `.replace(/_+/g, '_')`: each maximal run of underscores becomes one. */
  function CollapseUnderscores(s: string): (r: string)
    ensures NoDoubleUnderscore(r)
    ensures |r| == 0 <==> |s| == 0
    ensures |r| > 0 ==> (r[0] == '_' <==> s[0] == '_')
    decreases |s|
  {
    if |s| == 0 then ""
    else if s[0] == '_' then
      var rest := CollapseUnderscores(s[UnderscoreRunLength(s)..]);
      ConsNoDouble('_', rest);
      "_" + rest
    else
      var rest := CollapseUnderscores(s[1..]);
      ConsNoDouble(s[0], rest);
      [s[0]] + rest
  }

  /** Collapsing keeps the letters and digits in order, and keeps a string of word characters one. */
  lemma {:induction false} CollapseUnderscoresKeeps(s: string)
    ensures AlnumOf(CollapseUnderscores(s)) == AlnumOf(s)
    ensures AllWordChars(s) ==> AllWordChars(CollapseUnderscores(s))
    decreases |s|
  {
    if |s| > 0 {
      var r := CollapseUnderscores(s);
      if s[0] == '_' {
        var n := UnderscoreRunLength(s);
        CollapseUnderscoresKeeps(s[n..]);
        AlnumOfNone(s[..n]);
        AlnumOfSplit(s, n);
        AlnumOfCons('_', CollapseUnderscores(s[n..]));
      } else {
        CollapseUnderscoresKeeps(s[1..]);
        AlnumOfCons(s[0], CollapseUnderscores(s[1..]));
        assert s == [s[0]] + s[1..];
        AlnumOfCons(s[0], s[1..]);
      }
    }
  }

  /** A string without doubled underscores is left unchanged. */
  lemma {:induction false} CollapseUnderscoresIdentity(s: string)
    requires NoDoubleUnderscore(s)
    ensures CollapseUnderscores(s) == s
    decreases |s|
  {
    if |s| > 0 {
      NoDoubleUnderscoreTail(s);
      CollapseUnderscoresIdentity(s[1..]);
      if s[0] == '_' {
        if |s| > 1 { assert !(s[0] == '_' && s[1] == '_'); }
        assert UnderscoreRunLength(s) == 1;
      }
      assert s == [s[0]] + s[1..];
    }
  }

  /** Prepending a character keeps the string free of doubled underscores unless both are underscores. */
  lemma ConsNoDouble(c: char, r: string)
    requires NoDoubleUnderscore(r) && (c == '_' ==> |r| == 0 || r[0] != '_')
    ensures NoDoubleUnderscore([c] + r)
  {
    var s := [c] + r;
    forall i | 0 <= i < |s| - 1 ensures !(s[i] == '_' && s[i + 1] == '_') {
      if i > 0 { assert s[i] == r[i - 1] && s[i + 1] == r[i]; }
    }
  }

  lemma NoDoubleUnderscoreTail(s: string)
    requires |s| > 0 && NoDoubleUnderscore(s)
    ensures NoDoubleUnderscore(s[1..])
  {
    forall i | 0 <= i < |s[1..]| - 1 ensures !(s[1..][i] == '_' && s[1..][i + 1] == '_') {
      assert s[1..][i] == s[i + 1] && s[1..][i + 1] == s[i + 2];
    }
  }

  lemma AlnumOfCons(c: char, r: string)
    ensures AlnumOf([c] + r) == (if IsAlnum(c) then [c] else []) + AlnumOf(r)
  {
    assert ([c] + r)[1..] == r;
  }

  /** `.replace(/^_+|_+$/g, '')`: drop the leading and the trailing underscores. */
  function TrimUnderscores(s: string): (r: string)
    ensures NoEdgeUnderscore(r)
    ensures |r| <= |s|
    ensures NoEdgeUnderscore(s) ==> r == s
  {
    var a := UnderscoreRunLength(s);
    var t := s[a..];
    t[..|t| - TrailingUnderscoreLength(t)]
  }

  /** The trimmed identifier is the slice `s[a..b]` between an underscore-only prefix and suffix. */
  lemma TrimUnderscoresSlice(s: string) returns (a: nat, b: nat)
    ensures a <= b <= |s| && TrimUnderscores(s) == s[a..b]
    ensures forall i :: 0 <= i < a ==> s[i] == '_'
    ensures forall i :: b <= i < |s| ==> s[i] == '_'
  {
    a := UnderscoreRunLength(s);
    var t := s[a..];
    b := |s| - TrailingUnderscoreLength(t);
    assert t[..|t| - TrailingUnderscoreLength(t)] == s[a..b];
    forall i | b <= i < |s| ensures s[i] == '_' {
      assert s[i] == t[i - a];
    }
  }

  /** Removing underscore-only edges keeps the letters and digits. */
  lemma TrimUnderscoresAlnum(s: string)
    ensures AlnumOf(TrimUnderscores(s)) == AlnumOf(s)
  {
    var a, b := TrimUnderscoresSlice(s);
    AlnumOfCore(s, a, b);
  }

  lemma AlnumOfCore(s: string, a: nat, b: nat)
    requires a <= b <= |s|
    requires forall i :: 0 <= i < a ==> s[i] == '_'
    requires forall i :: b <= i < |s| ==> s[i] == '_'
    ensures AlnumOf(s[a..b]) == AlnumOf(s)
  {
    AlnumOfDropSuffix(s, b);
    var v := s[..b];
    assert forall i :: 0 <= i < a ==> v[i] == s[i];
    AlnumOfDropPrefix(v, a);
    assert v[a..] == s[a..b];
  }

  lemma AlnumOfDropPrefix(s: string, a: nat)
    requires a <= |s| && forall i :: 0 <= i < a ==> s[i] == '_'
    ensures AlnumOf(s[a..]) == AlnumOf(s)
  {
    AlnumOfSplit(s, a);
    assert forall i :: 0 <= i < a ==> s[..a][i] == s[i];
    AlnumOfNone(s[..a]);
  }

  lemma AlnumOfDropSuffix(s: string, b: nat)
    requires b <= |s| && forall i :: b <= i < |s| ==> s[i] == '_'
    ensures AlnumOf(s[..b]) == AlnumOf(s)
  {
    AlnumOfSplit(s, b);
    assert forall i :: 0 <= i < |s| - b ==> s[b..][i] == s[b + i];
    AlnumOfNone(s[b..]);
  }

  /** A slice keeps word-ness and single underscores. */
  lemma TrimUnderscoresShape(s: string)
    ensures AllWordChars(s) ==> AllWordChars(TrimUnderscores(s))
    ensures NoDoubleUnderscore(s) ==> NoDoubleUnderscore(TrimUnderscores(s))
  {
    var a, b := TrimUnderscoresSlice(s);
    var r := TrimUnderscores(s);
    assert forall i :: 0 <= i < |r| ==> r[i] == s[a + i];
  }

  /** The identifier a run starts from: the base, or `operation` when the base is empty. */
  function BaseOrDefault(base: string): string {
    if base == "" then "operation" else base
  }

  /**
   * `sanitizeOperationId` without its counter: word characters only, no
   * repeated and no edge underscores, the same letters and digits in the
   * same order, and empty exactly when a non-empty base has no letter or digit.
   */
  function Sanitize(base: string): (r: string)
    ensures AllWordChars(r) && NoDoubleUnderscore(r) && NoEdgeUnderscore(r)
    ensures AlnumOf(r) == AlnumOf(BaseOrDefault(base))
    ensures r == "" <==> AlnumOf(BaseOrDefault(base)) == []
  {
    var replaced := ReplaceNonWord(BaseOrDefault(base));
    var collapsed := CollapseUnderscores(replaced);
    CollapseUnderscoresKeeps(replaced);
    var r := TrimUnderscores(collapsed);
    TrimUnderscoresAlnum(collapsed);
    TrimUnderscoresShape(collapsed);
    EdgeHasAlnum(r);
    r
  }

  /** A non-empty word whose first character is not `_` has a letter or digit. */
  lemma EdgeHasAlnum(r: string)
    requires AllWordChars(r) && NoEdgeUnderscore(r)
    ensures r != "" ==> AlnumOf(r) != []
  {
    if r != "" {
      assert IsAlnum(r[0]);
      AlnumOfCons(r[0], r[1..]);
      assert r == [r[0]] + r[1..];
    }
  }

  /** A clean identifier sanitises to itself. */
  lemma SanitizeClean(base: string)
    requires CleanId(base)
    ensures Sanitize(base) == base
  {
    CollapseUnderscoresIdentity(base);
    TrimUnderscoresAlnum(CollapseUnderscores(ReplaceNonWord(base)));
  }

  /** Sanitising is idempotent, except that an empty result turns into `operation` when sanitised again. */
  lemma SanitizeIdempotent(base: string)
    requires Sanitize(base) != ""
    ensures Sanitize(Sanitize(base)) == Sanitize(base)
  {
    SanitizeClean(Sanitize(base));
  }

  // ---------------------------------------------------------------------------
  // What each replacement does in place

  /** A non-word run followed by a word character (or nothing) is exactly as long as itself. */
  lemma {:induction false} NonWordRunOfPrefix(w: string, b: string)
    requires forall i :: 0 <= i < |w| ==> !IsWordChar(w[i])
    requires |b| == 0 || IsWordChar(b[0])
    ensures NonWordRunLength(w + b) == |w|
    decreases |w|
  {
    if |w| == 0 {
      assert w + b == b;
    } else {
      assert (w + b)[1..] == w[1..] + b;
      NonWordRunOfPrefix(w[1..], b);
    }
  }

  /** `/[^A-Za-z0-9_]+/g`: a whole run of non-word characters becomes one `_` in its place. */
  lemma NonWordRunBecomesUnderscore(w: string, b: string)
    requires |w| > 0 && forall i :: 0 <= i < |w| ==> !IsWordChar(w[i])
    requires |b| == 0 || IsWordChar(b[0])
    ensures ReplaceNonWord(w + b) == "_" + ReplaceNonWord(b)
  {
    NonWordRunOfPrefix(w, b);
    assert (w + b)[0] == w[0];
    assert (w + b)[|w|..] == b;
  }

  /** A word character is kept in its place. */
  lemma WordCharKept(c: char, b: string)
    requires IsWordChar(c)
    ensures ReplaceNonWord([c] + b) == [c] + ReplaceNonWord(b)
  {
    assert ([c] + b)[1..] == b;
  }

  /** A prefix of word characters is kept as it is. */
  lemma {:induction false} WordPrefixKept(a: string, b: string)
    requires AllWordChars(a)
    ensures ReplaceNonWord(a + b) == a + ReplaceNonWord(b)
    decreases |a|
  {
    if |a| == 0 {
      assert a + b == b;
    } else {
      var t := a[1..];
      assert AllWordChars(t) by {
        forall i | 0 <= i < |t| ensures IsWordChar(t[i]) { assert t[i] == a[i + 1]; }
      }
      assert a == [a[0]] + t;
      ConsAppend(a[0], t, b);
      WordCharKept(a[0], t + b);
      WordPrefixKept(t, b);
      ConsAppend(a[0], t, ReplaceNonWord(b));
    }
  }

  /** An underscore run followed by another character (or nothing) is exactly as long as itself. */
  lemma {:induction false} UnderscoreRunOfPrefix(w: string, b: string)
    requires forall i :: 0 <= i < |w| ==> w[i] == '_'
    requires |b| == 0 || b[0] != '_'
    ensures UnderscoreRunLength(w + b) == |w|
    decreases |w|
  {
    if |w| == 0 {
      assert w + b == b;
    } else {
      assert (w + b)[1..] == w[1..] + b;
      UnderscoreRunOfPrefix(w[1..], b);
    }
  }

  /** `/_+/g`: a whole run of underscores becomes one `_` in its place. */
  lemma UnderscoreRunBecomesOne(w: string, b: string)
    requires |w| > 0 && forall i :: 0 <= i < |w| ==> w[i] == '_'
    requires |b| == 0 || b[0] != '_'
    ensures CollapseUnderscores(w + b) == "_" + CollapseUnderscores(b)
  {
    UnderscoreRunOfPrefix(w, b);
    assert (w + b)[0] == '_';
    assert (w + b)[|w|..] == b;
  }

  /** A character other than `_` is kept in its place. */
  lemma NonUnderscoreKept(c: char, b: string)
    requires c != '_'
    ensures CollapseUnderscores([c] + b) == [c] + CollapseUnderscores(b)
  {
    assert ([c] + b)[1..] == b;
  }

  /** A prefix without underscores is kept as it is. */
  lemma {:induction false} NonUnderscorePrefixKept(a: string, b: string)
    requires '_' !in a
    ensures CollapseUnderscores(a + b) == a + CollapseUnderscores(b)
    decreases |a|
  {
    if |a| == 0 {
      assert a + b == b;
    } else {
      assert a + b == [a[0]] + (a[1..] + b);
      NonUnderscoreKept(a[0], a[1..] + b);
      NonUnderscorePrefixKept(a[1..], b);
      assert a == [a[0]] + a[1..];
    }
  }

  /** One trailing underscore after a clean identifier is trimmed away. */
  lemma TrimOneTrailing(a: string)
    requires |a| > 0 && NoEdgeUnderscore(a)
    ensures TrimUnderscores(a + "_") == a
  {
    var s := a + "_";
    assert s[0] == a[0];
    assert s[..|s| - 1] == a;
    assert TrailingUnderscoreLength(s) == 1;
  }

  /** Every character of `w` is outside the word class. */
  predicate NoWordChars(w: string) {
    forall i :: 0 <= i < |w| ==> !IsWordChar(w[i])
  }

  /** Three word segments, each followed by a non-word run, become the segments joined and ended by `_`. */
  lemma ReplaceThreeSegments(a: string, w1: string, b: string, w2: string, c: string, w3: string)
    requires AllWordChars(a) && AllWordChars(b) && AllWordChars(c) && |b| > 0 && |c| > 0
    requires |w1| > 0 && |w2| > 0 && |w3| > 0 && NoWordChars(w1) && NoWordChars(w2) && NoWordChars(w3)
    ensures ReplaceNonWord(a + w1 + b + w2 + c + w3) == a + "_" + b + "_" + c + "_"
  {
    var s3 := c + w3;
    var s2 := b + (w2 + s3);
    AppendSixNest(a, w1, b, w2, c, w3);
    assert c + (w3 + "") == s3;
    SegmentThenRun(c, w3, "");
    assert ReplaceNonWord(s3) == c + "_";
    assert s3[0] == c[0];
    SegmentThenRun(b, w2, s3);
    assert s2[0] == b[0];
    SegmentThenRun(a, w1, s2);
    AppendSixNest(a, "_", b, "_", c, "_");
  }

  /** A word segment followed by a non-word run becomes the segment and one `_`. */
  lemma SegmentThenRun(a: string, w: string, rest: string)
    requires AllWordChars(a) && |w| > 0 && NoWordChars(w)
    requires |rest| == 0 || IsWordChar(rest[0])
    ensures ReplaceNonWord(a + (w + rest)) == a + ("_" + ReplaceNonWord(rest))
  {
    NonWordRunBecomesUnderscore(w, rest);
    WordPrefixKept(a, w + rest);
  }

  /** Three segments, each followed by an underscore run, collapse to the segments joined and ended by one `_`. */
  lemma CollapseThreeSegments(a: string, u1: string, b: string, u2: string, c: string, u3: string)
    requires '_' !in a && '_' !in b && '_' !in c && |b| > 0 && |c| > 0
    requires |u1| > 0 && |u2| > 0 && |u3| > 0
    requires forall i :: 0 <= i < |u1| ==> u1[i] == '_'
    requires forall i :: 0 <= i < |u2| ==> u2[i] == '_'
    requires forall i :: 0 <= i < |u3| ==> u3[i] == '_'
    ensures CollapseUnderscores(a + u1 + b + u2 + c + u3) == a + "_" + b + "_" + c + "_"
  {
    var s3 := c + u3;
    var s2 := b + (u2 + s3);
    AppendSixNest(a, u1, b, u2, c, u3);
    SegmentThenUnderscores(c, u3, "");
    assert u3 + "" == u3;
    SegmentThenUnderscores(b, u2, s3);
    SegmentThenUnderscores(a, u1, s2);
    AppendSixNest(a, "_", b, "_", c, "_");
  }

  /** A segment without underscores followed by an underscore run becomes the segment and one `_`. */
  lemma SegmentThenUnderscores(a: string, u: string, rest: string)
    requires '_' !in a && |u| > 0 && forall i :: 0 <= i < |u| ==> u[i] == '_'
    requires |rest| == 0 || rest[0] != '_'
    ensures CollapseUnderscores(a + (u + rest)) == a + ("_" + CollapseUnderscores(rest))
  {
    UnderscoreRunBecomesOne(u, rest);
    NonUnderscorePrefixKept(a, u + rest);
  }

  lemma AppendSixNest(a: string, b: string, c: string, d: string, e: string, f: string)
    ensures a + b + c + d + e + f == a + (b + (c + (d + (e + f))))
  {
  }

  /** The route `get_/users/{id}` sanitises to `get_users_id`. */
  lemma SanitizeRouteExample(base: string)
    requires base == "get_/users/{id}"
    ensures Sanitize(base) == "get_users_id"
  {
    RouteText();
    ReplaceThreeSegments("get_", "/", "users", "/{", "id", "}");
    CollapseThreeSegments("get", "__", "users", "_", "id", "_");
    TrimOneTrailing("get_users_id");
  }

  lemma RouteText()
    ensures "get_/users/{id}" == "get_" + "/" + "users" + "/{" + "id" + "}"
    ensures "get_" + "_" + "users" + "_" + "id" + "_" == "get" + "__" + "users" + "_" + "id" + "_"
    ensures "get" + "_" + "users" + "_" + "id" + "_" == "get_users_id" + "_"
    ensures AllWordChars("get_") && AllWordChars("users") && AllWordChars("id")
    ensures NoWordChars("/") && NoWordChars("/{") && NoWordChars("}")
    ensures '_' !in "get" && '_' !in "users" && '_' !in "id" && NoEdgeUnderscore("get_users_id")
  {
  }

  // ---------------------------------------------------------------------------
  // The run-scoped counter
  // ---------------------------------------------------------------------------

  /** `count === 1 ? normalized : normalized + '_' + count`. */
  function Suffixed(id: string, count: nat): string {
    if count == 1 then id else id + "_" + NatToString(count)
  }

  /** `_` followed by a non-empty run of digits ends `s`: the shape a counter suffix has. */
  predicate NumberSuffixed(s: string) {
    exists k | 0 <= k < |s| - 1 :: s[k] == '_' && AllDigits(s[k + 1..])
  }

  /**
   * Distinct (sanitised base, count) pairs give distinct identifiers, as
   * long as neither base itself looks like it carries a counter suffix.
   */
  lemma SuffixedInjective(s1: string, c1: nat, s2: string, c2: nat)
    requires c1 >= 1 && c2 >= 1
    requires !NumberSuffixed(s1) && !NumberSuffixed(s2)
    requires Suffixed(s1, c1) == Suffixed(s2, c2)
    ensures s1 == s2 && c1 == c2
  {
    if c1 != 1 && c2 != 1 {
      var d1 := NatToString(c1);
      var d2 := NatToString(c2);
      SuffixLengths(s1, d1, s2, d2);
      var x := s1 + "_" + d1;
      assert d1 == x[|x| - |d1|..] == d2;
      assert s1 == x[..|s1|] == s2;
      NatToStringInjective(c1, c2);
    } else if c1 != 1 {
      NumberSuffixedOf(s1, c1);
    } else if c2 != 1 {
      NumberSuffixedOf(s2, c2);
    }
  }

  /** A counter suffix has the `_<digits>` shape. */
  lemma NumberSuffixedOf(s: string, c: nat)
    ensures NumberSuffixed(s + "_" + NatToString(c))
  {
    var x := s + "_" + NatToString(c);
    assert x[|s|] == '_' && x[|s| + 1..] == NatToString(c);
  }

  /** Two `_<digits>` endings of the same string have the same length. */
  lemma SuffixLengths(s1: string, d1: string, s2: string, d2: string)
    requires AllDigits(d1) && AllDigits(d2)
    requires s1 + "_" + d1 == s2 + "_" + d2
    ensures |d1| == |d2|
  {
    TrailingDigitsOf(s1, d1);
    TrailingDigitsOf(s2, d2);
  }

  /** Length of the maximal suffix of digits. */
  function TrailingDigitLength(s: string): (n: nat)
    ensures n <= |s|
    decreases |s|
  {
    if |s| == 0 || !IsDigit(s[|s| - 1]) then 0 else 1 + TrailingDigitLength(s[..|s| - 1])
  }

  /** In `s_<digits>` the trailing digit run is exactly the digits after the last underscore. */
  lemma {:induction false} TrailingDigitsOf(s: string, d: string)
    requires AllDigits(d)
    ensures TrailingDigitLength(s + "_" + d) == |d|
    decreases |d|
  {
    var x := s + "_" + d;
    if |d| > 0 {
      assert x[..|x| - 1] == s + "_" + d[..|d| - 1];
      TrailingDigitsOf(s, d[..|d| - 1]);
    }
  }

  /** How often `x` occurs in `ss`. */
  function CountOf(ss: seq<string>, x: string): (n: nat)
    ensures n <= |ss|
    decreases |ss|
  {
    if |ss| == 0 then 0 else CountOf(ss[..|ss| - 1], x) + (if ss[|ss| - 1] == x then 1 else 0)
  }

  /** The counter's reading for `x`, absent keys reading as 0 (`operationIdCounter[x] || 0`). */
  function Get(counter: map<string, nat>, x: string): nat {
    if x in counter then counter[x] else 0
  }

  /** One call of `sanitizeOperationId`: the identifier and the updated counter. */
  datatype Issued = Issued(id: string, counter: map<string, nat>)

  /** One use of an already sanitised name: its count goes up by one and the identifier carries the new count. */
  function Bump(counter: map<string, nat>, normalized: string): (r: Issued)
    ensures Get(r.counter, normalized) == Get(counter, normalized) + 1
    ensures forall x :: x != normalized ==> Get(r.counter, x) == Get(counter, x)
    ensures r.id == Suffixed(normalized, Get(r.counter, normalized))
  {
    var count := Get(counter, normalized) + 1;
    Issued(if count == 1 then normalized else normalized + "_" + NatToString(count), counter[normalized := count])
  }

  /**
   * `sanitizeOperationId(base)`: the sanitised base on its first use, and the
   * sanitised base with `_<n>` on its n-th use; only that base's count moves.
   */
  function Issue(counter: map<string, nat>, base: string): (r: Issued)
    ensures Get(r.counter, Sanitize(base)) == Get(counter, Sanitize(base)) + 1
    ensures forall x :: x != Sanitize(base) ==> Get(r.counter, x) == Get(counter, x)
    ensures r.id == Suffixed(Sanitize(base), Get(r.counter, Sanitize(base)))
  {
    Bump(counter, Sanitize(base))
  }

  /** Counting over a longer prefix never counts less. */
  lemma {:induction false} CountOfMonotone(ss: seq<string>, a: nat, b: nat, x: string)
    requires a <= b <= |ss|
    ensures CountOf(ss[..a], x) <= CountOf(ss[..b], x)
    decreases b - a
  {
    if a < b {
      CountOfMonotone(ss, a, b - 1, x);
      assert ss[..b][..b - 1] == ss[..b - 1];
    }
  }

  // ---------------------------------------------------------------------------
  // Edge cases of the identifier scheme
  // ---------------------------------------------------------------------------

  /** An empty base falls back to `operation`. */
  lemma EmptyBaseIsOperation()
    ensures Sanitize("") == "operation"
  {
    SanitizeClean("operation");
  }

  /** A non-empty base without letters or digits sanitises to the empty identifier, which is then used as is. */
  lemma SymbolsOnlyGiveEmptyId(base: string)
    requires base != ""
    requires forall i :: 0 <= i < |base| ==> !IsAlnum(base[i])
    ensures Sanitize(base) == ""
    ensures Issue(map[], base).id == ""
  {
    AlnumOfNone(base);
  }

  /** Two symbol-only bases share the empty name: the second one is issued `_2`. */
  lemma SecondEmptyIdIsUnderscoreTwo(a: string, b: string)
    requires a != "" && b != ""
    requires forall i :: 0 <= i < |a| ==> !IsAlnum(a[i])
    requires forall i :: 0 <= i < |b| ==> !IsAlnum(b[i])
    ensures Issue(Issue(map[], a).counter, b).id == "_2"
  {
    AlnumOfNone(a);
    AlnumOfNone(b);
  }

  /**
   * The counter does not see identifiers it has issued: `get_user` twice and
   * then an explicit `get_user_2` yields `get_user_2` twice.
   */
  lemma ExplicitSuffixCollides(u: string, u2: string)
    requires u == "get_user" && u2 == "get_user_2"
    ensures var first := Issue(map[], u);
            var second := Issue(first.counter, u);
            var third := Issue(second.counter, u2);
            first.id == u && second.id == u2 && third.id == u2
  {
    GetUserNames(u, u2);
    SanitizeClean(u);
    SanitizeClean(u2);
    var first := Issue(map[], u);
    var second := Issue(first.counter, u);
    assert Get(second.counter, u) == 2;
    assert Get(second.counter, u2) == 0;
  }

  /** `get_user` and `get_user_2` are clean, distinct, and the second is the first numbered 2. */
  lemma GetUserNames(u: string, u2: string)
    requires u == "get_user" && u2 == "get_user_2"
    ensures CleanId(u) && CleanId(u2) && u != u2 && u2 == u + "_" + NatToString(2)
  {
    assert NatToString(2) == "2";
  }
}
