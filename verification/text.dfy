/**
 * ASCII character classes and the string primitives the converter builds on:
 * trimming, case folding, splitting and joining, literal replacement and
 * decimal numerals. Character classes follow JavaScript regular expressions
 * without the `u` flag: `\w` is `[A-Za-z0-9_]`, `\d` is `[0-9]`; `\s` and
 * `String.prototype.trim` are restricted to the six ASCII whitespace characters.
 */
module Text {

  predicate IsSpace(c: char) {
    c == ' ' || c == '\t' || c == '\n' || c == '\r' || c == '\U{0B}' || c == '\U{0C}'
  }

  predicate IsDigit(c: char) {
    '0' <= c <= '9'
  }

  predicate IsUpper(c: char) {
    'A' <= c <= 'Z'
  }

  /** The regular-expression word class `\w`. */
  predicate IsWordChar(c: char) {
    'a' <= c <= 'z' || IsUpper(c) || IsDigit(c) || c == '_'
  }

  predicate AllDigits(s: string) {
    forall i :: 0 <= i < |s| ==> IsDigit(s[i])
  }

  predicate AllWordChars(s: string) {
    forall i :: 0 <= i < |s| ==> IsWordChar(s[i])
  }

  /** No leading and no trailing whitespace. */
  predicate Trimmed(s: string) {
    |s| == 0 || (!IsSpace(s[0]) && !IsSpace(s[|s| - 1]))
  }

  predicate StartsWith(s: string, prefix: string) {
    |prefix| <= |s| && s[..|prefix|] == prefix
  }

  predicate EndsWith(s: string, suffix: string) {
    |suffix| <= |s| && s[|s| - |suffix|..] == suffix
  }

  /** `s.includes(t)`: `t` occurs in `s` at some offset. */
  predicate OccursAt(s: string, t: string, i: int) {
    0 <= i && i + |t| <= |s| && s[i..i + |t|] == t
  }

  predicate Contains(s: string, t: string) {
    exists i | 0 <= i <= |s| - |t| :: OccursAt(s, t, i)
  }

  function ToLowerChar(c: char): (r: char)
    ensures IsUpper(c) ==> r as int == c as int + 32
    ensures !IsUpper(c) ==> r == c
  {
    if IsUpper(c) then (c as int + 32) as char else c
  }

  /** ASCII `toLowerCase`. */
  function Lower(s: string): (r: string)
    ensures |r| == |s|
    ensures forall i :: 0 <= i < |s| ==> r[i] == ToLowerChar(s[i])
  {
    seq(|s|, i requires 0 <= i < |s| => ToLowerChar(s[i]))
  }

  /** `s` equals `lowered` up to ASCII case (the `/i` regular-expression flag). */
  predicate EqualsIgnoreCase(s: string, lowered: string) {
    Lower(s) == lowered
  }

  /** Drops the leading whitespace run. */
  function TrimStart(s: string): (r: string)
    ensures |r| <= |s| && r == s[|s| - |r|..]
    ensures forall i :: 0 <= i < |s| - |r| ==> IsSpace(s[i])
    ensures |r| > 0 ==> !IsSpace(r[0])
    decreases |s|
  {
    if |s| > 0 && IsSpace(s[0]) then TrimStart(s[1..]) else s
  }

  /** Drops the trailing whitespace run. */
  function TrimEnd(s: string): (r: string)
    ensures |r| <= |s| && r == s[..|r|]
    ensures forall i :: |r| <= i < |s| ==> IsSpace(s[i])
    ensures |r| > 0 ==> !IsSpace(r[|r| - 1])
    decreases |s|
  {
    if |s| > 0 && IsSpace(s[|s| - 1]) then TrimEnd(s[..|s| - 1]) else s
  }

  /** `String.prototype.trim`: the result is the slice of `s` between its leading and trailing whitespace. */
  function Trim(s: string): (r: string)
    ensures Trimmed(r)
    ensures |r| <= |s| && Contains(s, r)
    ensures forall i :: 0 <= i < |s| && !IsSpace(s[i]) ==> |r| > 0
  {
    TrimBothTrimmed(s);
    TrimBothContained(s);
    TrimBothNonEmpty(s);
    TrimEnd(TrimStart(s))
  }

  lemma TrimBothTrimmed(s: string)
    ensures Trimmed(TrimEnd(TrimStart(s)))
  {
    var t := TrimStart(s);
    var r := TrimEnd(t);
    if |r| > 0 { assert r[0] == t[0]; }
  }

  lemma TrimBothContained(s: string)
    ensures var r := TrimEnd(TrimStart(s)); |r| <= |s| && Contains(s, r)
  {
    var t := TrimStart(s);
    var r := TrimEnd(t);
    var a := |s| - |t|;
    SuffixPrefix(s, a, |r|);
    assert OccursAt(s, r, a);
  }

  lemma SuffixPrefix<T>(s: seq<T>, a: nat, n: nat)
    requires a + n <= |s|
    ensures s[a..][..n] == s[a..a + n]
  {
  }

  lemma TrimBothNonEmpty(s: string)
    ensures forall i :: 0 <= i < |s| && !IsSpace(s[i]) ==> |TrimEnd(TrimStart(s))| > 0
  {
    var t := TrimStart(s);
    if |t| > 0 {
      assert !IsSpace(t[0]);
      assert |TrimEnd(t)| > 0;
    }
  }

  /** Trimming introduces no character. */
  lemma TrimKeepsOut(s: string, c: char)
    requires c !in s
    ensures c !in Trim(s)
  {
    var t := TrimStart(s);
    SliceKeepsOut(s, |s| - |t|, |s|, c);
    SliceKeepsOut(t, 0, |TrimEnd(t)|, c);
  }

  lemma SliceKeepsOut(s: string, lo: nat, hi: nat, c: char)
    requires lo <= hi <= |s| && c !in s
    ensures c !in s[lo..hi]
  {
    assert forall j :: 0 <= j < hi - lo ==> s[lo..hi][j] == s[lo + j];
  }

  /** Trimming a string that starts with a non-space only drops a trailing run. */
  lemma TrimFromNonSpace(s: string)
    requires |s| > 0 && !IsSpace(s[0])
    ensures Trim(s) == TrimEnd(s)
  {
  }

  /** Trimming the end keeps everything up to a non-space character. */
  lemma TrimEndKeepsNonSpace(s: string, k: nat)
    requires k < |s| && !IsSpace(s[k])
    ensures |TrimEnd(s)| > k && TrimEnd(s)[..k + 1] == s[..k + 1]
  {
    var r := TrimEnd(s);
    assert r == s[..|r|];
  }

  /** A string without surrounding whitespace is its own trim. */
  lemma {:induction false} TrimTrimmed(s: string)
    requires Trimmed(s)
    ensures Trim(s) == s
  {
    TrimStartKeeps(s);
    TrimEndKeeps(s);
  }

  lemma TrimStartKeeps(s: string)
    requires |s| == 0 || !IsSpace(s[0])
    ensures TrimStart(s) == s
  {
  }

  lemma TrimEndKeeps(s: string)
    requires |s| == 0 || !IsSpace(s[|s| - 1])
    ensures TrimEnd(s) == s
  {
  }

  /** Every character of `w` is whitespace. */
  predicate AllSpace(w: string) {
    forall i :: 0 <= i < |w| ==> IsSpace(w[i])
  }

  lemma AllSpaceTail(w: string)
    requires |w| > 0 && AllSpace(w)
    ensures AllSpace(w[1..])
  {
    assert forall i :: 0 <= i < |w| - 1 ==> w[1..][i] == w[i + 1];
  }

  /** Leading whitespace is dropped whatever follows it. */
  lemma {:induction false} TrimStartSpaces(w: string, b: string)
    requires AllSpace(w)
    ensures TrimStart(w + b) == TrimStart(b)
    decreases |w|
  {
    if |w| == 0 {
      assert w + b == b;
    } else {
      assert (w + b)[0] == w[0];
      assert (w + b)[1..] == w[1..] + b;
      AllSpaceTail(w);
      TrimStartSpaces(w[1..], b);
    }
  }

  /** Trimming stops at the first non-space, so what follows it is kept. */
  lemma {:induction false} TrimStartPast(x: string, y: string)
    requires !AllSpace(x)
    ensures TrimStart(x + y) == TrimStart(x) + y
    decreases |x|
  {
    var k :| 0 <= k < |x| && !IsSpace(x[k]);
    assert (x + y)[0] == x[0];
    if IsSpace(x[0]) {
      assert (x + y)[1..] == x[1..] + y;
      assert x[1..][k - 1] == x[k];
      TrimStartPast(x[1..], y);
    }
  }

  lemma PadEnd(x: string)
    requires Trimmed(x)
    ensures TrimEnd(x + " ") == x
  {
    var y := x + " ";
    assert y[..|y| - 1] == x;
    TrimEndKeeps(x);
  }

  /** Trimming the start of `a + b`, when `b` starts with a non-space, only trims `a`. */
  lemma TrimStartBefore(a: string, b: string)
    requires |b| > 0 && !IsSpace(b[0])
    ensures TrimStart(a + b) == TrimStart(a) + b
  {
    if AllSpace(a) {
      TrimStartSpaces(a, b);
      TrimStartSpaces(a, "");
      assert a + "" == a;
    } else {
      TrimStartPast(a, b);
    }
  }

  /** `(a + b).trim()` for a `b` that starts and ends with a non-space: only the front of `a` is trimmed. */
  lemma TrimBeforeWord(a: string, b: string)
    requires |b| > 0 && !IsSpace(b[0]) && !IsSpace(b[|b| - 1])
    ensures Trim(a + b) == TrimStart(a) + b
  {
    TrimStartBefore(a, b);
    var u := TrimStart(a) + b;
    assert u[|u| - 1] == b[|b| - 1];
    TrimEndKeeps(u);
  }

  /** Length of the maximal run of decimal digits at the start of `s`. */
  function DigitRunLength(s: string): (n: nat)
    ensures n <= |s| && AllDigits(s[..n])
    ensures n < |s| ==> !IsDigit(s[n])
    decreases |s|
  {
    if |s| > 0 && IsDigit(s[0]) then
      var n := 1 + DigitRunLength(s[1..]);
      assert s[..n] == [s[0]] + s[1..][..n - 1];
      n
    else 0
  }

  /** Length of the maximal whitespace run at the start of `s`. */
  function SpaceRunLength(s: string): (n: nat)
    ensures n <= |s|
    ensures forall i :: 0 <= i < n ==> IsSpace(s[i])
    ensures n < |s| ==> !IsSpace(s[n])
    decreases |s|
  {
    if |s| > 0 && IsSpace(s[0]) then 1 + SpaceRunLength(s[1..]) else 0
  }

  /** First index of `c` in `s`. */
  function IndexOf(s: string, c: char): (k: nat)
    requires c in s
    ensures k < |s| && s[k] == c && c !in s[..k]
  {
    if s[0] == c then 0 else
      var k := 1 + IndexOf(s[1..], c);
      assert s[..k] == [s[0]] + s[1..][..k - 1];
      k
  }

  /** `parts.join(sep)`. */
  function Join(parts: seq<string>, sep: string): (r: string)
    decreases |parts|
  {
    if |parts| == 0 then ""
    else if |parts| == 1 then parts[0]
    else parts[0] + sep + Join(parts[1..], sep)
  }

  /** `s.split(sep)` for a one-character separator: the maximal `sep`-free pieces, always at least one. */
  function Split(s: string, sep: char): (parts: seq<string>)
    ensures |parts| >= 1
    ensures forall k :: 0 <= k < |parts| ==> sep !in parts[k]
    ensures Join(parts, [sep]) == s
    decreases |s|
  {
    if |s| == 0 then [""]
    else if s[0] == sep then
      var rest := Split(s[1..], sep);
      assert s == [sep] + s[1..];
      [""] + rest
    else
      var rest := Split(s[1..], sep);
      var parts := [[s[0]] + rest[0]] + rest[1..];
      assert parts[1..] == rest[1..];
      assert s == [s[0]] + s[1..];
      parts
  }

  /** Splitting undoes joining when no piece contains the separator. */
  lemma {:induction false} SplitJoin(parts: seq<string>, sep: char)
    requires |parts| >= 1
    requires forall k :: 0 <= k < |parts| ==> sep !in parts[k]
    ensures Split(Join(parts, [sep]), sep) == parts
    decreases |parts|, |parts[0]|
  {
    var head := parts[0];
    if |head| == 0 {
      if |parts| > 1 {
        SplitJoin(parts[1..], sep);
        JoinFirst(parts, sep);
        assert "" + JoinTail(parts[1..], sep) == [sep] + Join(parts[1..], [sep]);
        SplitAtSeparator(Join(parts[1..], [sep]), sep);
        assert parts == [""] + parts[1..];
      }
    } else {
      var shorter := [head[1..]] + parts[1..];
      assert shorter[1..] == parts[1..];
      assert forall k :: 0 <= k < |shorter| ==> sep !in shorter[k] by {
        assert forall c :: c in head[1..] ==> c in head;
      }
      SplitJoin(shorter, sep);
      JoinShorter(parts, sep);
      assert head[0] != sep by { assert head[0] in head; }
      SplitCons(head[0], Join(shorter, [sep]), sep);
      assert [head[0]] + head[1..] == head;
      assert [[head[0]] + shorter[0]] + shorter[1..] == parts;
    }
  }

  /** Joining pieces whose first piece is non-empty: its first character, then the rest joined. */
  lemma JoinShorter(parts: seq<string>, sep: char)
    requires |parts| >= 1 && |parts[0]| > 0
    ensures Join(parts, [sep]) == [parts[0][0]] + Join([parts[0][1..]] + parts[1..], [sep])
  {
    var h := parts[0];
    var shorter := [h[1..]] + parts[1..];
    assert shorter[0] == h[1..] && shorter[1..] == parts[1..];
    JoinFirst(parts, sep);
    JoinFirst(shorter, sep);
    var tail := JoinTail(parts[1..], sep);
    ConsAppend(h[0], h[1..], tail);
    assert [h[0]] + h[1..] == h;
  }

  /** What follows the first piece in a join: nothing, or the separator and the remaining pieces joined. */
  function JoinTail(rest: seq<string>, sep: char): string {
    if |rest| == 0 then "" else [sep] + Join(rest, [sep])
  }

  lemma JoinFirst(parts: seq<string>, sep: char)
    requires |parts| >= 1
    ensures Join(parts, [sep]) == parts[0] + JoinTail(parts[1..], sep)
  {
    if |parts| == 1 {
      assert parts[0] + "" == parts[0];
    } else {
      AppendAssoc(parts[0], [sep], Join(parts[1..], [sep]));
    }
  }

  lemma ConsAppend(c: char, a: string, b: string)
    ensures ([c] + a) + b == [c] + (a + b)
  {
  }

  lemma AppendAssoc(a: string, b: string, c: string)
    ensures (a + b) + c == a + (b + c)
  {
  }

  /** Splitting a text that starts with the separator: an empty first piece. */
  lemma SplitAtSeparator(s: string, sep: char)
    ensures Split([sep] + s, sep) == [""] + Split(s, sep)
  {
    assert ([sep] + s)[1..] == s;
  }

  /** Splitting a text that starts with a non-separator: that character opens the first piece. */
  lemma SplitCons(c: char, s: string, sep: char)
    requires c != sep
    ensures Split([c] + s, sep) == [[c] + Split(s, sep)[0]] + Split(s, sep)[1..]
  {
    assert ([c] + s)[1..] == s;
  }

  /** Splitting at the first separator: the part before it, then the pieces of the rest. */
  lemma SplitFirst(a: string, sep: char, b: string)
    requires sep !in a
    ensures Split(a + [sep] + b, sep) == [a] + Split(b, sep)
  {
    var parts := [a] + Split(b, sep);
    assert parts[1..] == Split(b, sep);
    assert Join(parts, [sep]) == a + [sep] + b;
    SplitJoin(parts, sep);
  }

  /** A text without the separator splits into itself alone. */
  lemma SplitWithoutSeparator(s: string, sep: char)
    requires sep !in s
    ensures Split(s, sep) == [s]
  {
    assert Join([s], [sep]) == s;
    SplitJoin([s], sep);
  }

  /** `s.replace(/pat/g, rep)` for a literal, non-empty pattern: left to right, non-overlapping. */
  function ReplaceAll(s: string, pat: string, rep: string): (r: string)
    requires |pat| > 0
    ensures forall c :: c in r ==> c in s || c in rep
    decreases |s|
  {
    if |s| == 0 then ""
    else if StartsWith(s, pat) then rep + ReplaceAll(s[|pat|..], pat, rep)
    else [s[0]] + ReplaceAll(s[1..], pat, rep)
  }

  function DigitValue(c: char): (d: nat)
    requires IsDigit(c)
    ensures d < 10
  {
    c as int - '0' as int
  }

  function DigitChar(d: nat): (c: char)
    requires d < 10
    ensures IsDigit(c) && DigitValue(c) == d
  {
    ('0' as int + d) as char
  }

  /** `Number(s)` for a string of decimal digits. */
  function DigitsValue(s: string): nat
    requires AllDigits(s)
    decreases |s|
  {
    if |s| == 0 then 0 else 10 * DigitsValue(s[..|s| - 1]) + DigitValue(s[|s| - 1])
  }

  /** The decimal numeral of `n` (template-literal interpolation of an integer). */
  function NatToString(n: nat): (r: string)
    ensures |r| > 0 && AllDigits(r)
    ensures n >= 10 ==> r[0] != '0'
    decreases n
  {
    if n < 10 then [DigitChar(n)] else NatToString(n / 10) + [DigitChar(n % 10)]
  }

  /** Reading a printed numeral gives the number back. */
  lemma {:induction false} NatToStringRoundTrip(n: nat)
    ensures DigitsValue(NatToString(n)) == n
    decreases n
  {
    var r := NatToString(n);
    if n >= 10 {
      NatToStringRoundTrip(n / 10);
      assert r[..|r| - 1] == NatToString(n / 10);
    }
  }

  /** Printing is injective, so distinct counters yield distinct suffixes. */
  lemma NatToStringInjective(m: nat, n: nat)
    requires NatToString(m) == NatToString(n)
    ensures m == n
  {
    NatToStringRoundTrip(m);
    NatToStringRoundTrip(n);
  }
}
