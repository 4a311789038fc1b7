/**
 * The text helpers of the converter: path-template normalisation, markup
 * stripping and status-code extraction from a group label.
 */
module TextHelpers {
  import opened Text
  import opened Wrappers

  // ---------------------------------------------------------------------------
  // normalizePath: `url.replace(/:([a-zA-Z0-9_]+)/g, '{$1}')`
  // ---------------------------------------------------------------------------

  /** Length of the maximal word-character run at the start of `s`. */
  function WordRunLength(s: string): (n: nat)
    ensures n <= |s|
    ensures forall i :: 0 <= i < n ==> IsWordChar(s[i])
    ensures n < |s| ==> !IsWordChar(s[n])
    decreases |s|
  {
    if |s| > 0 && IsWordChar(s[0]) then 1 + WordRunLength(s[1..]) else 0
  }

  /** A colon-style parameter starts at `i`: a `:` followed by a word character. */
  predicate ColonParamAt(s: string, i: int) {
    0 <= i < |s| - 1 && s[i] == ':' && IsWordChar(s[i + 1])
  }

  /** No `:` is followed by a word character: no colon-style parameter is left. */
  predicate NoColonParam(s: string) {
    forall i | 0 <= i < |s| :: !ColonParamAt(s, i)
  }

  /**
   * Rewrites every `:name` (name a maximal run of word characters) to `{name}`,
   * scanning left to right. The first character of the result is a word
   * character exactly when the first character of the input is one.
   */
  function NormalizePath(url: string): (r: string)
    ensures |r| == 0 <==> |url| == 0
    ensures |url| > 0 ==> (IsWordChar(r[0]) <==> IsWordChar(url[0]))
    decreases |url|
  {
    if |url| == 0 then ""
    else if url[0] == ':' && |url| > 1 && IsWordChar(url[1]) then
      var n := WordRunLength(url[1..]);
      "{" + url[1..1 + n] + "}" + NormalizePath(url[1 + n..])
    else
      [url[0]] + NormalizePath(url[1..])
  }

  /** No colon-style parameter is left after normalising. */
  lemma {:induction false} NormalizePathNoColon(url: string)
    ensures NoColonParam(NormalizePath(url))
    decreases |url|
  {
    if |url| == 0 {
    } else if url[0] == ':' && |url| > 1 && IsWordChar(url[1]) {
      var n := WordRunLength(url[1..]);
      var name := url[1..1 + n];
      NormalizePathNoColon(url[1 + n..]);
      assert forall k :: 0 <= k < n ==> name[k] == url[1..][k];
      BracedNoColon(name, NormalizePath(url[1 + n..]));
    } else {
      NormalizePathNoColon(url[1..]);
      ConsNoColon(url[0], NormalizePath(url[1..]));
    }
  }

  lemma BracedNoColon(name: string, rest: string)
    requires AllWordChars(name) && NoColonParam(rest)
    ensures NoColonParam("{" + name + "}" + rest)
  {
    var r := "{" + name + "}" + rest;
    var n := |name|;
    forall i ensures !ColonParamAt(r, i) {
      if 0 < i < n + 1 {
        assert r[i] == name[i - 1];
      } else if n + 2 <= i < |r| - 1 {
        assert r[i] == rest[i - (n + 2)] && r[i + 1] == rest[i + 1 - (n + 2)];
        assert !ColonParamAt(rest, i - (n + 2));
      }
    }
  }

  lemma ConsNoColon(c: char, rest: string)
    requires NoColonParam(rest)
    requires c == ':' && |rest| > 0 ==> !IsWordChar(rest[0])
    ensures NoColonParam([c] + rest)
  {
    var r := [c] + rest;
    forall i ensures !ColonParamAt(r, i) {
      if 1 <= i < |r| - 1 {
        assert r[i] == rest[i - 1] && r[i + 1] == rest[i];
        assert !ColonParamAt(rest, i - 1);
      }
    }
  }

  /** A path without colon-style parameters is left unchanged. */
  lemma {:induction false} NormalizePathIdentity(url: string)
    requires NoColonParam(url)
    ensures NormalizePath(url) == url
    decreases |url|
  {
    if |url| > 0 {
      assert NoColonParam(url[1..]) by {
        forall i ensures !ColonParamAt(url[1..], i) {
          if 0 <= i < |url| - 2 {
            assert !ColonParamAt(url, i + 1);
          }
        }
      }
      assert !ColonParamAt(url, 0);
      NormalizePathIdentity(url[1..]);
      assert url == [url[0]] + url[1..];
    }
  }

  /** A word-character run stops where a non-word character begins. */
  lemma {:induction false} WordRunAppend(x: string, y: string)
    requires |y| == 0 || !IsWordChar(y[0])
    ensures WordRunLength(x + y) == WordRunLength(x)
    decreases |x|
  {
    if |x| > 0 && IsWordChar(x[0]) {
      assert (x + y)[1..] == x[1..] + y;
      WordRunAppend(x[1..], y);
    } else if |x| == 0 {
      assert x + y == y;
    }
  }

  /** One step of the scan at a colon parameter: its name is braced, and scanning resumes after it. */
  lemma NormalizeColonStep(u: string)
    requires ColonParamAt(u, 0)
    ensures var m := WordRunLength(u[1..]);
      NormalizePath(u) == "{" + u[1..1 + m] + "}" + NormalizePath(u[1 + m..])
  {
  }

  /** One step of the scan at any other character: it is kept. */
  lemma NormalizeCharStep(u: string)
    requires |u| > 0 && !ColonParamAt(u, 0)
    ensures NormalizePath(u) == [u[0]] + NormalizePath(u[1..])
  {
  }

  /**
   * Normalising distributes over concatenation at a point where no word run
   * continues: the second part does not start with a word character.
   */
  lemma {:induction false} NormalizePathAppend(p: string, t: string)
    requires |t| == 0 || !IsWordChar(t[0])
    ensures NormalizePath(p + t) == NormalizePath(p) + NormalizePath(t)
    decreases |p|
  {
    if |p| == 0 {
      assert p + t == t;
    } else if ColonParamAt(p, 0) {
      var m := WordRunLength(p[1..]);
      NormalizePathAppend(p[1 + m..], t);
      AppendAfterColon(p, t);
    } else {
      NormalizePathAppend(p[1..], t);
      AppendAfterChar(p, t);
    }
  }

  /** The colon-parameter step of `NormalizePathAppend`, given the claim for what follows the name. */
  lemma AppendAfterColon(p: string, t: string)
    requires |p| > 0 && ColonParamAt(p, 0)
    requires |t| == 0 || !IsWordChar(t[0])
    requires var m := WordRunLength(p[1..]);
      NormalizePath(p[1 + m..] + t) == NormalizePath(p[1 + m..]) + NormalizePath(t)
    ensures NormalizePath(p + t) == NormalizePath(p) + NormalizePath(t)
  {
    var m := WordRunLength(p[1..]);
    ColonAtAppend(p, t);
    AppendSlices(p, t, 1, 1 + m);
    AppendSlices(p, t, 1 + m, 1 + m);
    WordRunAppend(p[1..], t);
    NormalizeColonStep(p);
    NormalizeColonStep(p + t);
    BracedAppend(p[1..1 + m], NormalizePath(p[1 + m..]), NormalizePath(t));
  }

  /** The plain-character step of `NormalizePathAppend`, given the claim for the rest. */
  lemma AppendAfterChar(p: string, t: string)
    requires |p| > 0 && !ColonParamAt(p, 0)
    requires |t| == 0 || !IsWordChar(t[0])
    requires NormalizePath(p[1..] + t) == NormalizePath(p[1..]) + NormalizePath(t)
    ensures NormalizePath(p + t) == NormalizePath(p) + NormalizePath(t)
  {
    ColonAtAppend(p, t);
    AppendSlices(p, t, 1, 1);
    NormalizeCharStep(p);
    NormalizeCharStep(p + t);
    ConsAppend((p + t)[0], p[0], NormalizePath((p + t)[1..]), NormalizePath(p[1..]), NormalizePath(t));
  }

  /** Appending text that does not start with a word character keeps a leading colon parameter, or its absence. */
  lemma ColonAtAppend(p: string, t: string)
    requires |p| > 0
    requires |t| == 0 || !IsWordChar(t[0])
    ensures (p + t)[0] == p[0]
    ensures ColonParamAt(p + t, 0) <==> ColonParamAt(p, 0)
  {
    if |p| > 1 {
      assert (p + t)[1] == p[1];
    } else if |t| > 0 {
      assert (p + t)[1] == t[0];
    }
  }

  lemma AppendSlices<T>(p: seq<T>, t: seq<T>, i: nat, j: nat)
    requires i <= j <= |p|
    ensures (p + t)[i..] == p[i..] + t
    ensures (p + t)[i..j] == p[i..j]
  {
  }

  /** `[a] + x` is `[b] + y + z` when `a == b` and `x` is `y + z`. */
  lemma ConsAppend<T>(a: T, b: T, x: seq<T>, y: seq<T>, z: seq<T>)
    requires a == b && x == y + z
    ensures [a] + x == [b] + y + z
  {
  }

  lemma AppendAssoc3(a: string, b: string, c: string, d: string)
    ensures a + b + c + d == a + (b + c + d)
  {
  }

  lemma AppendAssoc4(a: string, b: string, c: string, d: string, e: string)
    ensures a + b + c + d + e == a + (b + c + d + e)
  {
  }

  lemma BracedAppend(name: string, x: string, y: string)
    ensures "{" + name + "}" + (x + y) == ("{" + name + "}" + x) + y
  {
  }

  /** An all-word text is one word run. */
  lemma {:induction false} WordRunOfWord(n: string)
    requires AllWordChars(n)
    ensures WordRunLength(n) == |n|
    decreases |n|
  {
    if |n| > 0 {
      WordRunOfWord(n[1..]);
    }
  }

  /** A `:name` at the front, its name a maximal word run, becomes `{name}`. */
  lemma ParamAtFront(n: string, q: string)
    requires |n| > 0 && AllWordChars(n)
    requires |q| == 0 || !IsWordChar(q[0])
    ensures NormalizePath(":" + n + q) == "{" + n + "}" + NormalizePath(q)
  {
    var u := ":" + n + q;
    ConsSlices(":", n, q);
    assert ColonParamAt(u, 0);
    WordRunAppend(n, q);
    WordRunOfWord(n);
    NormalizeColonStep(u);
  }

  /** The slices of `c + n + q` around `n`, for a one-element `c`. */
  lemma ConsSlices<T>(c: seq<T>, n: seq<T>, q: seq<T>)
    requires |c| == 1 && |n| > 0
    ensures (c + n + q)[0] == c[0] && (c + n + q)[1] == n[0]
    ensures (c + n + q)[1..] == n + q
    ensures (c + n + q)[1..1 + |n|] == n
    ensures (c + n + q)[1 + |n|..] == q
  {
  }

  /**
   * The rewrite itself: a `:name` whose name is a maximal word run becomes
   * `{name}`, and the text on either side is normalised on its own. A colon
   * parameter earlier in `p` cannot run into the `:` that follows it.
   */
  lemma {:induction false} NormalizePathParam(p: string, n: string, q: string)
    requires |n| > 0 && AllWordChars(n)
    requires |q| == 0 || !IsWordChar(q[0])
    ensures NormalizePath(p + ":" + n + q) == NormalizePath(p) + "{" + n + "}" + NormalizePath(q)
  {
    var t := ":" + n + q;
    AppendAssoc3(p, ":", n, q);
    NormalizePathAppend(p, t);
    ParamAtFront(n, q);
    AppendAssoc4(NormalizePath(p), "{", n, "}", NormalizePath(q));
  }

  /** `/users/:id/:name` becomes `/users/{id}/{name}`. */
  lemma {:induction false} NormalizeTwoParams(url: string)
    requires url == "/users/:id/:name"
    ensures NormalizePath(url) == "/users/{id}/{name}"
  {
    var tail := "/:name";
    NormalizeNameTail(tail);
    TwoParamsText();
    TwoParamsPieces();
    NormalizePathParam("/users/", "id", tail);
    NormalizePathIdentity("/users/");
  }

  lemma TwoParamsPieces()
    ensures NoColonParam("/users/") && AllWordChars("id") && !IsWordChar("/:name"[0])
  {
  }

  lemma TwoParamsText()
    ensures "/users/" + ":" + "id" + "/:name" == "/users/:id/:name"
    ensures "/users/" + "{" + "id" + "}" + "/{name}" == "/users/{id}/{name}"
  {
  }

  lemma {:induction false} NormalizeNameTail(tail: string)
    requires tail == "/:name"
    ensures NormalizePath(tail) == "/{name}"
  {
    NameTailText();
    NormalizePathParam("/", "name", "");
    NormalizePathIdentity("/");
    assert NormalizePath("") == "";
  }

  lemma NameTailText()
    ensures "/" + ":" + "name" + "" == "/:name"
    ensures "/" + "{" + "name" + "}" + "" == "/{name}"
  {
  }

  /** Normalising twice is the same as normalising once. */
  lemma NormalizePathIdempotent(url: string)
    ensures NormalizePath(NormalizePath(url)) == NormalizePath(url)
  {
    NormalizePathNoColon(url);
    NormalizePathIdentity(NormalizePath(url));
  }

  // ---------------------------------------------------------------------------
  // stripHtml
  // ---------------------------------------------------------------------------

  /** No `<` is followed, anywhere later, by a `>`: the text holds no markup tag. */
  predicate TagFree(s: string) {
    forall i, j :: 0 <= i < j < |s| && s[i] == '<' ==> s[j] != '>'
  }

  /** No two adjacent whitespace characters. */
  predicate NoDoubleSpace(s: string) {
    forall i :: 0 <= i < |s| - 1 ==> !(IsSpace(s[i]) && IsSpace(s[i + 1]))
  }

  /** The only whitespace character present is the plain space. */
  predicate OnlyPlainSpaces(s: string) {
    forall i :: 0 <= i < |s| && IsSpace(s[i]) ==> s[i] == ' '
  }

  lemma TagFreeAppend(p: string, x: string)
    requires TagFree(p) && TagFree(x)
    requires '<' in p ==> '>' !in x
    ensures TagFree(p + x)
  {
    var r := p + x;
    forall i, j | 0 <= i < j < |r| && r[i] == '<'
      ensures r[j] != '>'
    {
      if i < |p| && j >= |p| {
        assert p[i] == '<';
        assert r[j] == x[j - |p|];
      } else if i >= |p| {
        assert r[i] == x[i - |p|] && r[j] == x[j - |p|];
      } else {
        assert r[i] == p[i] && r[j] == p[j];
      }
    }
  }

  lemma TagFreeSlice(s: string, r: string, a: int)
    requires TagFree(s) && OccursAt(s, r, a)
    ensures TagFree(r)
  {
    forall i, j | 0 <= i < j < |r| && r[i] == '<'
      ensures r[j] != '>'
    {
      assert r[i] == s[a..a + |r|][i] == s[a + i];
      assert r[j] == s[a..a + |r|][j] == s[a + j];
    }
  }

  lemma TagFreeSuffix(s: string, k: nat)
    requires TagFree(s) && k <= |s|
    ensures TagFree(s[k..])
  {
    TagFreeSlice(s, s[k..], k);
  }

  /** `text.replace(/<[^>]*>/g, ' ')`: each `<` with a later `>` opens a span up to the first such `>`, replaced by one space. */
  function StripTags(s: string): (r: string)
    ensures forall c :: c in r ==> c in s || c == ' '
    ensures TagFree(r)
    decreases |s|
  {
    if |s| == 0 then ""
    else if s[0] == '<' && '>' in s[1..] then
      var close := IndexOf(s[1..], '>');
      var rest := StripTags(s[1..][close + 1..]);
      TagFreeAppend(" ", rest);
      " " + rest
    else
      var rest := StripTags(s[1..]);
      TagFreeAppend([s[0]], rest);
      [s[0]] + rest
  }

  /** Literal replacement keeps a tag-free text tag-free when neither side of the rule holds `<` or `>`. */
  lemma {:induction false} ReplaceAllTagFree(s: string, pat: string, rep: string)
    requires |pat| > 0 && TagFree(s)
    requires '<' !in rep && '>' !in rep
    ensures TagFree(ReplaceAll(s, pat, rep))
    decreases |s|
  {
    if |s| > 0 {
      if StartsWith(s, pat) {
        TagFreeSuffix(s, |pat|);
        ReplaceAllTagFree(s[|pat|..], pat, rep);
        TagFreeAppend(rep, ReplaceAll(s[|pat|..], pat, rep));
      } else {
        TagFreeSuffix(s, 1);
        ReplaceAllTagFree(s[1..], pat, rep);
        TagFreeAppend([s[0]], ReplaceAll(s[1..], pat, rep));
      }
    }
  }

  /** `text.replace(/\s+/g, ' ')`: every whitespace run becomes one plain space. */
  function CollapseSpace(s: string): (r: string)
    ensures |r| == 0 <==> |s| == 0
    ensures |s| > 0 ==> (IsSpace(r[0]) <==> IsSpace(s[0]))
    ensures NoDoubleSpace(r) && OnlyPlainSpaces(r)
    decreases |s|
  {
    if |s| == 0 then ""
    else
      var tail := if IsSpace(s[0]) then TrimStart(s[1..]) else s[1..];
      var head := if IsSpace(s[0]) then ' ' else s[0];
      var rest := CollapseSpace(tail);
      var r := [head] + rest;
      assert forall i :: 1 <= i < |r| ==> r[i] == rest[i - 1];
      r
  }

  /** Collapsing whitespace introduces no character other than the plain space. */
  lemma {:induction false} CollapseSpaceChars(s: string)
    ensures forall c :: c in CollapseSpace(s) ==> c in s || c == ' '
    decreases |s|
  {
    if |s| > 0 {
      var tail := if IsSpace(s[0]) then TrimStart(s[1..]) else s[1..];
      CollapseSpaceChars(tail);
      assert forall c :: c in tail ==> c in s[1..];
    }
  }

  /** Collapsing whitespace keeps a tag-free text tag-free. */
  lemma {:induction false} CollapseSpaceTagFree(s: string)
    requires TagFree(s)
    ensures TagFree(CollapseSpace(s))
    decreases |s|
  {
    if |s| > 0 {
      var tail := if IsSpace(s[0]) then TrimStart(s[1..]) else s[1..];
      var head := if IsSpace(s[0]) then ' ' else s[0];
      TagFreeSuffix(s, |s| - |tail|);
      CollapseSpaceTagFree(tail);
      CollapseSpaceChars(tail);
      if head == '<' {
        assert '>' !in s[1..];
        assert tail == s[1..];
      }
      TagFreeAppend([head], CollapseSpace(tail));
      assert CollapseSpace(s) == [head] + CollapseSpace(tail);
    }
  }

  lemma NoDoubleSpaceSlice(s: string, r: string, a: int)
    requires NoDoubleSpace(s) && OnlyPlainSpaces(s) && OccursAt(s, r, a)
    ensures NoDoubleSpace(r) && OnlyPlainSpaces(r)
  {
    assert forall i :: 0 <= i < |r| ==> r[i] == s[a + i];
  }

  /** `.replace(/&quot;/g, '"').replace(/&amp;/g, '&')`: the two entities, decoded in that order. */
  function DecodeEntities(s: string): string {
    ReplaceAll(ReplaceAll(s, "&quot;", "\""), "&amp;", "&")
  }

  lemma DecodeEntitiesTagFree(s: string)
    requires TagFree(s)
    ensures TagFree(DecodeEntities(s))
  {
    ReplaceAllTagFree(s, "&quot;", "\"");
    ReplaceAllTagFree(ReplaceAll(s, "&quot;", "\""), "&amp;", "&");
  }

  /**
   * `stripHtml`: empty for empty input; otherwise tags become spaces, `&quot;`
   * and then `&amp;` are decoded, whitespace runs collapse to one space and the
   * ends are trimmed. The result is trimmed, holds no tag, and its only
   * whitespace is isolated plain spaces.
   */
  function StripHtml(text: string): (r: string)
    ensures text == "" ==> r == ""
    ensures Trimmed(r)
    ensures NoDoubleSpace(r) && OnlyPlainSpaces(r)
    ensures TagFree(r)
  {
    if text == "" then ""
    else
      var untagged := StripTags(text);
      var amps := DecodeEntities(untagged);
      var collapsed := CollapseSpace(amps);
      var r := Trim(collapsed);
      DecodeEntitiesTagFree(untagged);
      CollapseSpaceTagFree(amps);
      var a :| OccursAt(collapsed, r, a);
      NoDoubleSpaceSlice(collapsed, r, a);
      TagFreeSlice(collapsed, r, a);
      r
  }

  /** A text that is already clean (no `<`, no `&`, single plain spaces, trimmed) passes through unchanged. */
  lemma PlainTextUnchanged(text: string)
    requires '<' !in text && '&' !in text
    requires Trimmed(text) && NoDoubleSpace(text) && OnlyPlainSpaces(text)
    ensures StripHtml(text) == text
  {
    if text != "" {
      StripTagsIdentity(text);
      ReplaceAllIdentity(text, "&quot;", "\"");
      ReplaceAllIdentity(text, "&amp;", "&");
      CollapseSpaceIdentity(text);
      TrimTrimmed(text);
    }
  }

  /** Text before the first `<` passes through the tag stage unchanged. */
  lemma {:induction false} StripTagsPlainPrefix(a: string, rest: string)
    requires '<' !in a
    ensures StripTags(a + rest) == a + StripTags(rest)
    decreases |a|
  {
    if |a| > 0 {
      var u := a + rest;
      assert u[0] == a[0] && u[1..] == a[1..] + rest;
      StripTagsPlainPrefix(a[1..], rest);
      assert a == [a[0]] + a[1..];
    } else {
      assert a + rest == rest;
    }
  }

  /** A tag `<x>` at the front becomes one space. */
  lemma StripTagsTag(x: string, b: string)
    requires '>' !in x
    ensures StripTags("<" + x + ">" + b) == " " + StripTags(b)
  {
    var u := "<" + x + ">" + b;
    assert u[1..] == x + ">" + b;
    assert u[1..][|x|] == '>';
    assert u[1..][..|x|] == x;
    assert IndexOf(u[1..], '>') == |x|;
    assert u[1..][|x| + 1..] == b;
  }

  /** `/<[^>]*>/g`: a tag, its first `>` included, is replaced by one space. */
  lemma TagBecomesSpace(a: string, x: string, b: string)
    requires '<' !in a && '>' !in x
    ensures StripHtml(a + "<" + x + ">" + b) == StripHtml(a + " " + b)
  {
    assert a + "<" + x + ">" + b == a + ("<" + x + ">" + b);
    StripTagsPlainPrefix(a, "<" + x + ">" + b);
    StripTagsTag(x, b);
    assert a + " " + b == a + (" " + b);
    StripTagsPlainPrefix(a, " " + b);
    StripTagsPlainPrefix(" ", b);
  }

  /** Text without the pattern's first character passes through a literal replacement unchanged. */
  lemma {:induction false} ReplaceAllPlainPrefix(a: string, rest: string, pat: string, rep: string)
    requires |pat| > 0 && pat[0] !in a
    ensures ReplaceAll(a + rest, pat, rep) == a + ReplaceAll(rest, pat, rep)
    decreases |a|
  {
    if |a| > 0 {
      var u := a + rest;
      assert u[0] == a[0] && u[0] != pat[0];
      assert u[1..] == a[1..] + rest;
      ReplaceAllPlainPrefix(a[1..], rest, pat, rep);
      assert a == [a[0]] + a[1..];
    } else {
      assert a + rest == rest;
    }
  }

  /** An occurrence of the pattern at the front is replaced. */
  lemma ReplaceAllAtPattern(pat: string, b: string, rep: string)
    requires |pat| > 0
    ensures ReplaceAll(pat + b, pat, rep) == rep + ReplaceAll(b, pat, rep)
  {
    assert (pat + b)[..|pat|] == pat;
    assert (pat + b)[|pat|..] == b;
  }

  /** With no `<`, the result is the entity-decoded text, whitespace-collapsed and trimmed. */
  lemma StripHtmlUntagged(text: string)
    requires text != "" && '<' !in text
    ensures StripHtml(text) == Trim(CollapseSpace(DecodeEntities(text)))
  {
    StripTagsIdentity(text);
  }

  /** `"&" + b` starts with `"&" + w` exactly when `b` starts with `w`. */
  lemma StartsWithAfterAmp(b: string, w: string)
    ensures StartsWith("&" + b, "&" + w) <==> StartsWith(b, w)
  {
    if |w| <= |b| {
      var x := b[..|w|];
      assert ("&" + b)[..|w| + 1] == "&" + x;
      assert ("&" + x)[1..] == x && ("&" + w)[1..] == w;
    }
  }

  /** A single `&` not followed by `quot;` or `amp;` survives decoding. */
  lemma DecodeLoneAmp(b: string)
    requires '&' !in b && !StartsWith(b, "quot;") && !StartsWith(b, "amp;")
    ensures DecodeEntities("&" + b) == "&" + b
  {
    var u := "&" + b;
    assert u[1..] == b;
    StartsWithAfterAmp(b, "quot;");
    assert "&" + "quot;" == "&quot;";
    ReplaceAllIdentity(b, "&quot;", "\"");
    assert ReplaceAll(u, "&quot;", "\"") == u;
    StartsWithAfterAmp(b, "amp;");
    assert "&" + "amp;" == "&amp;";
    ReplaceAllIdentity(b, "&amp;", "&");
  }

  /** `&amp;` before `&`-free text decodes to `&`, whatever follows. */
  lemma DecodeAmpEntity(b: string)
    requires '&' !in b
    ensures DecodeEntities("&amp;" + b) == "&" + b
  {
    var u := "&amp;" + b;
    assert u[1] == 'a';
    assert !StartsWith(u, "&quot;");
    assert u[1..] == "amp;" + b;
    ReplaceAllIdentity("amp;" + b, "&quot;", "\"");
    assert ReplaceAll(u, "&quot;", "\"") == u;
    ReplaceAllAtPattern("&amp;", b, "&");
    ReplaceAllIdentity(b, "&amp;", "&");
  }

  /** `&quot;` before `&`-free text decodes to `"`. */
  lemma DecodeQuotEntity(b: string)
    requires '&' !in b
    ensures DecodeEntities("&quot;" + b) == "\"" + b
  {
    ReplaceAllAtPattern("&quot;", b, "\"");
    ReplaceAllIdentity(b, "&quot;", "\"");
    ReplaceAllIdentity("\"" + b, "&amp;", "&");
  }

  /** Decoding passes over a `&`-free prefix. */
  lemma DecodePlainPrefix(a: string, rest: string)
    requires '&' !in a
    ensures DecodeEntities(a + rest) == a + DecodeEntities(rest)
  {
    ReplaceAllPlainPrefix(a, rest, "&quot;", "\"");
    ReplaceAllPlainPrefix(a, ReplaceAll(rest, "&quot;", "\""), "&amp;", "&");
  }

  /** Two untagged texts that decode alike strip alike. */
  lemma SameDecoding(l: string, r: string)
    requires l != "" && r != "" && '<' !in l && '<' !in r
    requires DecodeEntities(l) == DecodeEntities(r)
    ensures StripHtml(l) == StripHtml(r)
  {
    StripHtmlUntagged(l);
    StripHtmlUntagged(r);
  }

  /** `<` occurs in `a + m + b` only if it occurs in one of the three. */
  lemma NoLessThan(a: string, m: string, b: string)
    requires '<' !in a && '<' !in m && '<' !in b
    ensures '<' !in a + m + b
  {
  }

  /** `&quot;` decodes to `"`. */
  lemma QuotDecoded(a: string, b: string)
    requires '<' !in a && '<' !in b && '&' !in a && '&' !in b
    ensures StripHtml(a + "&quot;" + b) == StripHtml(a + "\"" + b)
  {
    QuotDecoding(a, b);
    NoLessThan(a, "&quot;", b);
    NoLessThan(a, "\"", b);
    SameDecoding(a + "&quot;" + b, a + "\"" + b);
  }

  lemma QuotDecoding(a: string, b: string)
    requires '&' !in a && '&' !in b
    ensures DecodeEntities(a + "&quot;" + b) == DecodeEntities(a + "\"" + b)
  {
    assert a + "&quot;" + b == a + ("&quot;" + b);
    DecodePlainPrefix(a, "&quot;" + b);
    DecodeQuotEntity(b);
    assert a + "\"" + b == a + ("\"" + b);
    DecodePlainPrefix(a, "\"" + b);
    DecodeNoAmp("\"" + b);
  }

  /** Text without `&` is not changed by decoding. */
  lemma DecodeNoAmp(s: string)
    requires '&' !in s
    ensures DecodeEntities(s) == s
  {
    ReplaceAllIdentity(s, "&quot;", "\"");
    ReplaceAllIdentity(s, "&amp;", "&");
  }

  /**
   * `&amp;` decodes to `&`, unless what follows would then spell an entity
   * again: the decoded `&` is not decoded a second time.
   */
  lemma AmpDecoded(a: string, b: string)
    requires '<' !in a && '<' !in b && '&' !in a && '&' !in b
    requires !StartsWith(b, "quot;") && !StartsWith(b, "amp;")
    ensures StripHtml(a + "&amp;" + b) == StripHtml(a + "&" + b)
  {
    AmpDecoding(a, b);
    NoLessThan(a, "&amp;", b);
    NoLessThan(a, "&", b);
    SameDecoding(a + "&amp;" + b, a + "&" + b);
  }

  lemma AmpDecoding(a: string, b: string)
    requires '&' !in a && '&' !in b
    requires !StartsWith(b, "quot;") && !StartsWith(b, "amp;")
    ensures DecodeEntities(a + "&amp;" + b) == DecodeEntities(a + "&" + b)
  {
    assert a + "&amp;" + b == a + ("&amp;" + b);
    assert a + "&" + b == a + ("&" + b);
    DecodePlainPrefix(a, "&amp;" + b);
    DecodeAmpEntity(b);
    DecodePlainPrefix(a, "&" + b);
    DecodeLoneAmp(b);
  }

  /** `&quot;` is decoded before `&amp;`, so `&amp;quot;` comes out as `&quot;`, not as `"`. */
  lemma AmpNotDecodedTwice(text: string)
    requires text == "&amp;quot;"
    ensures StripHtml(text) == "&quot;"
  {
    assert DecodeEntities(text) == "&quot;" by {
      assert text == "&amp;" + "quot;";
      DecodeAmpEntity("quot;");
      assert "&" + "quot;" == "&quot;";
    }
    assert '<' !in text;
    var d := "&quot;";
    assert forall i :: 0 <= i < |d| ==> !IsSpace(d[i]);
    UntaggedWithoutSpace(text, d);
  }

  /** An untagged text whose decoding holds no whitespace strips to that decoding. */
  lemma UntaggedWithoutSpace(text: string, d: string)
    requires text != "" && '<' !in text && DecodeEntities(text) == d
    requires forall i :: 0 <= i < |d| ==> !IsSpace(d[i])
    ensures StripHtml(text) == d
  {
    StripHtmlUntagged(text);
    PlainCollapsed(d);
  }

  /** Text with no whitespace at all comes out of the last two stages unchanged. */
  lemma PlainCollapsed(s: string)
    requires forall i :: 0 <= i < |s| ==> !IsSpace(s[i])
    ensures Trim(CollapseSpace(s)) == s
  {
    CollapseSpaceIdentity(s);
    TrimTrimmed(s);
  }

  lemma {:induction false} StripTagsIdentity(s: string)
    requires '<' !in s
    ensures StripTags(s) == s
    decreases |s|
  {
    if |s| > 0 {
      assert s == [s[0]] + s[1..];
      StripTagsIdentity(s[1..]);
    }
  }

  lemma {:induction false} ReplaceAllIdentity(s: string, pat: string, rep: string)
    requires |pat| > 0 && pat[0] !in s
    ensures ReplaceAll(s, pat, rep) == s
    decreases |s|
  {
    if |s| > 0 {
      assert s[0] != pat[0];
      assert s == [s[0]] + s[1..];
      ReplaceAllIdentity(s[1..], pat, rep);
    }
  }

  lemma {:induction false} CollapseSpaceIdentity(s: string)
    requires NoDoubleSpace(s) && OnlyPlainSpaces(s)
    ensures CollapseSpace(s) == s
    decreases |s|
  {
    if |s| > 0 {
      assert NoDoubleSpace(s[1..]) && OnlyPlainSpaces(s[1..]) by {
        assert forall i :: 0 <= i < |s| - 1 ==> s[1..][i] == s[i + 1];
      }
      if IsSpace(s[0]) {
        assert |s| > 1 ==> !IsSpace(s[1]);
        assert TrimStart(s[1..]) == s[1..];
      }
      CollapseSpaceIdentity(s[1..]);
      assert s == [s[0]] + s[1..];
    }
  }

  // ---------------------------------------------------------------------------
  // What the tag and whitespace stages do in place

  /** A `<` with no `>` anywhere after it opens no tag, so text without `>` passes the tag stage unchanged. */
  lemma {:induction false} StripTagsNoClose(s: string)
    requires '>' !in s
    ensures StripTags(s) == s
    decreases |s|
  {
    if |s| > 0 {
      assert '>' !in s[1..];
      StripTagsNoClose(s[1..]);
      assert s == [s[0]] + s[1..];
    }
  }

  /** `x < 10`: a `<` that is never closed is kept, and so is everything after it. */
  lemma UnclosedLessThanKept(b: string)
    requires '>' !in b
    ensures StripTags("<" + b) == "<" + b
  {
    StripTagsNoClose("<" + b);
  }

  /** One step of the whitespace stage: a leading run becomes one space, any other first character stays. */
  lemma CollapseSpaceStep(s: string)
    requires |s| > 0
    ensures IsSpace(s[0]) ==> CollapseSpace(s) == " " + CollapseSpace(TrimStart(s[1..]))
    ensures !IsSpace(s[0]) ==> CollapseSpace(s) == [s[0]] + CollapseSpace(s[1..])
  {
  }

  /** A leading whitespace run becomes one space, and the whitespace after it is dropped too. */
  lemma RunThenAny(w: string, b: string)
    requires |w| > 0 && AllSpace(w)
    ensures CollapseSpace(w + b) == " " + CollapseSpace(TrimStart(b))
  {
    var u := w + b;
    assert u[0] == w[0];
    assert u[1..] == w[1..] + b;
    CollapseSpaceStep(u);
    AllSpaceTail(w);
    TrimStartSpaces(w[1..], b);
  }

  /** `/\s+/g`: a whole whitespace run becomes one plain space in its place. */
  lemma SpaceRunBecomesSpace(w: string, b: string)
    requires |w| > 0 && AllSpace(w)
    requires |b| == 0 || !IsSpace(b[0])
    ensures CollapseSpace(w + b) == " " + CollapseSpace(b)
  {
    RunThenAny(w, b);
    TrimStartKeeps(b);
  }

  /** A character other than whitespace is kept in its place. */
  lemma NonSpaceKept(c: char, b: string)
    requires !IsSpace(c)
    ensures CollapseSpace([c] + b) == [c] + CollapseSpace(b)
  {
    assert ([c] + b)[1..] == b;
    CollapseSpaceStep([c] + b);
  }

  /** Whatever surrounds it, a whitespace run collapses exactly as a single space would. */
  lemma {:induction false} CollapseSpaceRun(a: string, w: string, b: string)
    requires |w| > 0 && AllSpace(w)
    ensures CollapseSpace(a + w + b) == CollapseSpace(a + " " + b)
    decreases |a|
  {
    assert AllSpace(" ");
    if |a| == 0 {
      assert a + w + b == w + b && a + " " + b == " " + b;
      RunThenAny(w, b);
      RunThenAny(" ", b);
    } else {
      HeadStep(a, w, b);
      HeadStep(a, " ", b);
      var t := a[1..];
      if !IsSpace(a[0]) {
        CollapseSpaceRun(t, w, b);
      } else if AllSpace(t) {
        TrimStartBothSpaces(t, w, b);
        TrimStartBothSpaces(t, " ", b);
      } else {
        TrimStartPastThree(t, w, b);
        TrimStartPastThree(t, " ", b);
        CollapseSpaceRun(TrimStart(t), w, b);
      }
    }
  }

  /** The first step of collapsing `a + m + b` for a non-empty `a`. */
  lemma HeadStep(a: string, m: string, b: string)
    requires |a| > 0
    ensures IsSpace(a[0]) ==> CollapseSpace(a + m + b) == " " + CollapseSpace(TrimStart(a[1..] + m + b))
    ensures !IsSpace(a[0]) ==> CollapseSpace(a + m + b) == [a[0]] + CollapseSpace(a[1..] + m + b)
  {
    var u := a + m + b;
    assert u[0] == a[0] && u[1..] == a[1..] + m + b;
    CollapseSpaceStep(u);
  }

  lemma TrimStartBothSpaces(t: string, w: string, b: string)
    requires AllSpace(t) && AllSpace(w)
    ensures TrimStart(t + w + b) == TrimStart(b)
  {
    AppendAssoc(t, w, b);
    TrimStartSpaces(t, w + b);
    TrimStartSpaces(w, b);
  }

  lemma TrimStartPastThree(t: string, w: string, b: string)
    requires !AllSpace(t)
    ensures TrimStart(t + w + b) == TrimStart(t) + w + b
  {
    AppendAssoc(t, w, b);
    TrimStartPast(t, w + b);
    AppendAssoc(TrimStart(t), w, b);
  }

  /** Whitespace after the text's untagged, `&`-free start strips as one space would. */
  lemma WhitespaceBecomesSpace(a: string, w: string, b: string)
    requires '<' !in a && '&' !in a && |w| > 0 && AllSpace(w)
    ensures StripHtml(a + w + b) == StripHtml(a + " " + b)
  {
    var aw := a + w;
    var asp := a + " ";
    forall i | 0 <= i < |aw| ensures aw[i] != '<' && aw[i] != '&' {
      if i < |a| { assert aw[i] == a[i]; } else { assert IsSpace(w[i - |a|]); }
    }
    StripTagsPlainPrefix(aw, b);
    StripTagsPlainPrefix(asp, b);
    var t := StripTags(b);
    DecodePlainPrefix(aw, t);
    DecodePlainPrefix(asp, t);
    CollapseSpaceRun(a, w, DecodeEntities(t));
  }

  /** `<p>\n Hi</p>` strips to `Hi`: both tags become spaces, the whitespace run one space, and the ends are trimmed. */
  lemma ParagraphExample(text: string)
    requires text == "<p>\n Hi</p>"
    ensures StripHtml(text) == "Hi"
  {
    ParagraphText();
    var untagged := " " + ("\n Hi" + (" " + ""));
    assert StripTags(text) == untagged by {
      StripTagsTag("p", "\n Hi</p>");
      StripTagsPlainPrefix("\n Hi", "</p>");
      StripTagsTag("/p", "");
    }
    DecodeNoAmp(untagged);
    assert CollapseSpace(untagged) == " Hi " by {
      SpaceRunBecomesSpace(" \n ", "Hi ");
      NonSpaceKept('H', "i ");
      NonSpaceKept('i', " ");
      SpaceRunBecomesSpace(" ", "");
    }
    ParagraphTrim();
  }

  lemma ParagraphText()
    ensures "<p>\n Hi</p>" == "<" + "p" + ">" + "\n Hi</p>"
    ensures "\n Hi</p>" == "\n Hi" + "</p>" && "</p>" == "<" + "/p" + ">" + ""
    ensures " " + ("\n Hi" + (" " + "")) == " \n " + "Hi "
    ensures "Hi " == ['H'] + "i " && "i " == ['i'] + " " && " " == " " + ""
    ensures '<' !in "\n Hi" && '>' !in "p" && '>' !in "/p" && '&' !in " \n Hi "
    ensures AllSpace(" \n ") && AllSpace(" ") && !IsSpace('H') && !IsSpace('i')
    ensures " " + ("H" + ("i" + (" " + ""))) == " Hi "
  {
  }

  lemma ParagraphTrim()
    ensures Trim(" Hi ") == "Hi"
  {
    assert " Hi " == " " + ("Hi" + " ");
    TrimOnePad("Hi");
  }

  /** One space on either side of a trimmed text is trimmed away. */
  lemma TrimOnePad(x: string)
    requires |x| > 0 && Trimmed(x)
    ensures Trim(" " + (x + " ")) == x
  {
    var y := x + " ";
    PadStart(y);
    PadEnd(x);
  }

  lemma PadStart(y: string)
    requires |y| > 0 && !IsSpace(y[0])
    ensures TrimStart(" " + y) == y
  {
    assert (" " + y)[1..] == y;
  }

  // ---------------------------------------------------------------------------
  // extractStatusCode: first match of `/\b(\d{3})\b/`
  // ---------------------------------------------------------------------------

  /** Three digits at `i`, with a word boundary on both sides. */
  predicate StatusAt(s: string, i: int) {
    0 <= i && i + 3 <= |s|
    && IsDigit(s[i]) && IsDigit(s[i + 1]) && IsDigit(s[i + 2])
    && (i == 0 || !IsWordChar(s[i - 1]))
    && (i + 3 == |s| || !IsWordChar(s[i + 3]))
  }

  /** The leftmost position at or after `from` where a bounded three-digit run starts. */
  function FindStatus(s: string, from: nat): (r: Option<nat>)
    ensures r.Some? ==> from <= r.value && StatusAt(s, r.value)
    ensures r.Some? ==> forall j :: from <= j < r.value ==> !StatusAt(s, j)
    ensures r.None? ==> forall j :: from <= j ==> !StatusAt(s, j)
    decreases |s| - from
  {
    if from + 3 > |s| then None
    else if StatusAt(s, from) then Some(from)
    else FindStatus(s, from + 1)
  }

  /**
   * `extractStatusCode`: the first word-bounded run of exactly three digits in
   * the group label `source`, or `fallback` when it holds none (an empty label included).
   */
  function ExtractStatusCode(source: string, fallback: string): (r: string)
    ensures (forall i :: !StatusAt(source, i)) ==> r == fallback
    ensures forall i :: StatusAt(source, i) && (forall j :: 0 <= j < i ==> !StatusAt(source, j))
              ==> r == source[i..i + 3]
  {
    if source == "" then fallback
    else match FindStatus(source, 0)
      case Some(i) => source[i..i + 3]
      case None => fallback
  }
}
