/**
 * Document version resolution: the highest declared entry version under
 * dot-separated numeric comparison, or `1.0.0` when no entry declares one.
 */
module Versions {
  import opened Text
  import opened Wrappers

  const DefaultVersion: string := "1.0.0"

  /**
   * `Number(part) || 0` for one dot-separated component, read exactly: a run
   * of decimal digits reads as its value, an empty component as 0
   * (`Number("")`), and any other component as 0, as `NaN || 0` does.
   */
  function ComponentValue(part: string): nat {
    if AllDigits(part) then DigitsValue(part) else 0
  }

  /** `v.split('.').map(Number)` with `NaN` already read as 0. */
  function Components(v: string): (cs: seq<nat>)
    ensures |cs| == |Split(v, '.')|
  {
    var parts := Split(v, '.');
    seq(|parts|, i requires 0 <= i < |parts| => ComponentValue(parts[i]))
  }

  function HeadOrZero(cs: seq<nat>): nat {
    if |cs| > 0 then cs[0] else 0
  }

  function TailOrEmpty(cs: seq<nat>): seq<nat> {
    if |cs| > 0 then cs[1..] else []
  }

  /**
   * Component-wise numeric comparison, a missing component counting as 0:
   * -1, 0 or 1 as `a` is below, equal to or above `b`. The source's sort
   * comparator `(a, b) => bv - av` has the opposite sign, so the highest
   * version sorts first.
   */
  function Compare(a: seq<nat>, b: seq<nat>): (c: int)
    ensures -1 <= c <= 1
    decreases |a| + |b|
  {
    if |a| == 0 && |b| == 0 then 0
    else if HeadOrZero(a) < HeadOrZero(b) then -1
    else if HeadOrZero(a) > HeadOrZero(b) then 1
    else Compare(TailOrEmpty(a), TailOrEmpty(b))
  }

  lemma {:induction false} CompareAntisymmetric(a: seq<nat>, b: seq<nat>)
    ensures Compare(a, b) == -Compare(b, a)
    decreases |a| + |b|
  {
    if !(|a| == 0 && |b| == 0) && HeadOrZero(a) == HeadOrZero(b) {
      CompareAntisymmetric(TailOrEmpty(a), TailOrEmpty(b));
    }
  }

  lemma {:induction false} CompareTransitive(a: seq<nat>, b: seq<nat>, c: seq<nat>)
    requires Compare(a, b) <= 0 && Compare(b, c) <= 0
    ensures Compare(a, c) <= 0
    ensures Compare(a, b) < 0 || Compare(b, c) < 0 ==> Compare(a, c) < 0
    decreases |a| + |b| + |c|
  {
    if |a| == 0 && |b| == 0 && |c| == 0 {
    } else if HeadOrZero(a) == HeadOrZero(b) == HeadOrZero(c) {
      if |a| == 0 && |b| == 0 {
        assert Compare(TailOrEmpty(b), TailOrEmpty(c)) == Compare(b, c);
        assert Compare(a, c) == Compare(TailOrEmpty(a), TailOrEmpty(c));
        assert Compare(TailOrEmpty(a), TailOrEmpty(b)) == 0;
      }
      if |b| == 0 && |c| == 0 {
        assert Compare(a, b) == Compare(TailOrEmpty(a), TailOrEmpty(b));
        assert Compare(a, c) == Compare(TailOrEmpty(a), TailOrEmpty(c));
        assert Compare(TailOrEmpty(b), TailOrEmpty(c)) == 0;
      }
      if |a| == 0 && |c| == 0 {
        assert Compare(a, c) == 0;
        assert Compare(a, b) == Compare(TailOrEmpty(a), TailOrEmpty(b));
        assert Compare(b, c) == Compare(TailOrEmpty(b), TailOrEmpty(c));
      }
      CompareTransitive(TailOrEmpty(a), TailOrEmpty(b), TailOrEmpty(c));
    }
  }

  /** Trailing zero components change nothing: `1.0` and `1.0.0` compare equal. */
  lemma {:induction false} CompareZeroPadding(a: seq<nat>)
    ensures Compare(a, a + [0]) == 0
    decreases |a|
  {
    if |a| > 0 {
      assert TailOrEmpty(a + [0]) == TailOrEmpty(a) + [0];
      CompareZeroPadding(TailOrEmpty(a));
    }
  }

  /** Component `k` of `cs`, reading a missing one as 0 (`ap[i] || 0`). */
  function At(cs: seq<nat>, k: nat): nat {
    if k < |cs| then cs[k] else 0
  }

  /** `a` and `b` agree on every component before `k`. */
  predicate AgreeBelow(a: seq<nat>, b: seq<nat>, k: nat) {
    forall j: nat :: j < k ==> At(a, j) == At(b, j)
  }

  /** `k` is the first component where `a` and `b` differ, and there `a` is smaller. */
  predicate FirstBelow(a: seq<nat>, b: seq<nat>, k: nat) {
    At(a, k) < At(b, k) && AgreeBelow(a, b, k)
  }

  /**
   * The loop of the sort comparator, characterised: two versions compare
   * equal exactly when all their components agree (missing ones read as 0),
   * and `a` is below `b` exactly when at the first component where they
   * differ, `a`'s is the smaller.
   */
  lemma {:induction false} CompareDecidedAt(a: seq<nat>, b: seq<nat>)
    ensures Compare(a, b) == 0 <==> forall k: nat :: At(a, k) == At(b, k)
    ensures Compare(a, b) == -1 <==> exists k: nat :: FirstBelow(a, b, k)
    ensures Compare(a, b) == 1 <==> exists k: nat :: FirstBelow(b, a, k)
    decreases |a| + |b|
  {
    if |a| == 0 && |b| == 0 {
      assert forall k: nat :: At(a, k) == 0 == At(b, k);
    } else if HeadOrZero(a) != HeadOrZero(b) {
      assert At(a, 0) == HeadOrZero(a) && At(b, 0) == HeadOrZero(b);
      if HeadOrZero(a) < HeadOrZero(b) {
        assert FirstBelow(a, b, 0);
        forall k: nat ensures !FirstBelow(b, a, k) {
          if k > 0 { assert At(b, 0) != At(a, 0); }
        }
      } else {
        assert FirstBelow(b, a, 0);
        forall k: nat ensures !FirstBelow(a, b, k) {
          if k > 0 { assert At(a, 0) != At(b, 0); }
        }
      }
    } else {
      var ta, tb := TailOrEmpty(a), TailOrEmpty(b);
      CompareDecidedAt(ta, tb);
      assert Compare(a, b) == Compare(ta, tb);
      assert At(a, 0) == At(b, 0);
      assert forall k: nat :: At(ta, k) == At(a, k + 1) && At(tb, k) == At(b, k + 1);
      ShiftAgree(a, b, ta, tb);
      ShiftFirst(a, b, ta, tb);
      ShiftFirst(b, a, tb, ta);
    }
  }

  /** With equal first components, the versions agree exactly when their tails do. */
  lemma ShiftAgree(a: seq<nat>, b: seq<nat>, ta: seq<nat>, tb: seq<nat>)
    requires At(a, 0) == At(b, 0)
    requires forall k: nat :: At(ta, k) == At(a, k + 1) && At(tb, k) == At(b, k + 1)
    ensures (forall k: nat :: At(a, k) == At(b, k)) <==> (forall k: nat :: At(ta, k) == At(tb, k))
  {
    if forall k: nat :: At(ta, k) == At(tb, k) {
      forall k: nat ensures At(a, k) == At(b, k) {
        if k > 0 { assert At(ta, k - 1) == At(tb, k - 1); }
      }
    }
  }

  /** With equal first components, the first difference of the versions is one past that of their tails. */
  lemma ShiftFirst(a: seq<nat>, b: seq<nat>, ta: seq<nat>, tb: seq<nat>)
    requires At(a, 0) == At(b, 0)
    requires forall k: nat :: At(ta, k) == At(a, k + 1) && At(tb, k) == At(b, k + 1)
    ensures (exists k: nat :: FirstBelow(a, b, k)) <==> (exists k: nat :: FirstBelow(ta, tb, k))
  {
    if exists k: nat :: FirstBelow(ta, tb, k) {
      var k: nat :| FirstBelow(ta, tb, k);
      assert FirstBelow(a, b, k + 1) by {
        forall j: nat | j < k + 1 ensures At(a, j) == At(b, j) {
          if j > 0 { assert At(ta, j - 1) == At(tb, j - 1); }
        }
      }
    }
    if exists k: nat :: FirstBelow(a, b, k) {
      var k: nat :| FirstBelow(a, b, k);
      assert k > 0;
      assert FirstBelow(ta, tb, k - 1) by {
        forall j: nat | j < k - 1 ensures At(ta, j) == At(tb, j) {
          assert At(a, j + 1) == At(b, j + 1);
        }
      }
    }
  }

  predicate VersionLe(a: string, b: string) {
    Compare(Components(a), Components(b)) <= 0
  }

  predicate VersionLt(a: string, b: string) {
    Compare(Components(a), Components(b)) < 0
  }

  /**
   * The index the sort-and-take-first of `latestVersion` picks among the
   * declared (non-empty) versions: a highest one, and the earliest of the
   * highest since the sort is stable.
   */
  function LatestIndex(vs: seq<string>): (k: Option<nat>)
    ensures k.None? <==> forall i :: 0 <= i < |vs| ==> vs[i] == ""
    ensures k.Some? ==> k.value < |vs| && vs[k.value] != ""
    ensures k.Some? ==> forall j :: 0 <= j < |vs| && vs[j] != "" ==> VersionLe(vs[j], vs[k.value])
    ensures k.Some? ==> forall j :: 0 <= j < k.value && vs[j] != "" ==> VersionLt(vs[j], vs[k.value])
    decreases |vs|
  {
    if |vs| == 0 then None
    else
      var last := |vs| - 1;
      var prev := LatestIndex(vs[..last]);
      PrefixBest(vs, last, prev);
      StepBest(vs, last, prev);
      NextBest(vs, last, prev)
  }

  /** `k` is the latest of the first `n` versions: what `LatestIndex` promises, for a prefix. */
  predicate IsBest(vs: seq<string>, n: nat, k: Option<nat>)
    requires n <= |vs|
  {
    && (k.None? <==> forall i :: 0 <= i < n ==> vs[i] == "")
    && (k.Some? ==> k.value < n && vs[k.value] != "")
    && (k.Some? ==> forall j :: 0 <= j < n && vs[j] != "" ==> VersionLe(vs[j], vs[k.value]))
    && (k.Some? ==> forall j :: 0 <= j < k.value && vs[j] != "" ==> VersionLt(vs[j], vs[k.value]))
  }

  /** One more version replaces the latest so far only when it is declared and strictly higher. */
  function NextBest(vs: seq<string>, last: nat, prev: Option<nat>): Option<nat>
    requires last < |vs|
    requires prev.Some? ==> prev.value < last
  {
    if vs[last] == "" then prev
    else if prev.None? then Some(last)
    else if VersionLt(vs[prev.value], vs[last]) then Some(last)
    else prev
  }

  lemma PrefixBest(vs: seq<string>, last: nat, k: Option<nat>)
    requires last < |vs|
    requires IsBest(vs[..last], last, k)
    ensures IsBest(vs, last, k)
  {
    assert forall j :: 0 <= j < last ==> vs[..last][j] == vs[j];
  }

  lemma StepBest(vs: seq<string>, last: nat, prev: Option<nat>)
    requires last < |vs| && IsBest(vs, last, prev)
    ensures IsBest(vs, last + 1, NextBest(vs, last, prev))
  {
    if vs[last] == "" {
      StepUndeclared(vs, last, prev);
    } else if prev.None? {
      StepFirstDeclared(vs, last);
    } else if VersionLt(vs[prev.value], vs[last]) {
      StepHigher(vs, last, prev.value);
    } else {
      StepNotHigher(vs, last, prev.value);
    }
  }

  lemma StepUndeclared(vs: seq<string>, last: nat, prev: Option<nat>)
    requires last < |vs| && IsBest(vs, last, prev) && vs[last] == ""
    ensures IsBest(vs, last + 1, prev)
  {
  }

  lemma StepFirstDeclared(vs: seq<string>, last: nat)
    requires last < |vs| && IsBest(vs, last, None) && vs[last] != ""
    ensures IsBest(vs, last + 1, Some(last))
  {
    VersionLeRefl(vs[last]);
  }

  lemma StepHigher(vs: seq<string>, last: nat, p: nat)
    requires last < |vs| && IsBest(vs, last, Some(p)) && vs[last] != ""
    requires VersionLt(vs[p], vs[last])
    ensures IsBest(vs, last + 1, Some(last))
  {
    NewHighest(vs, last, vs[p]);
    VersionLeRefl(vs[last]);
    forall j | 0 <= j < last + 1 && vs[j] != "" ensures VersionLe(vs[j], vs[last]) {
      if j < last {
        assert VersionLt(vs[j], vs[last]);
      }
    }
  }

  lemma StepNotHigher(vs: seq<string>, last: nat, p: nat)
    requires last < |vs| && IsBest(vs, last, Some(p))
    requires !VersionLt(vs[p], vs[last])
    ensures IsBest(vs, last + 1, Some(p))
  {
    VersionNotLt(vs[p], vs[last]);
  }

  lemma VersionLeRefl(a: string)
    ensures VersionLe(a, a) && !VersionLt(a, a)
  {
    CompareAntisymmetric(Components(a), Components(a));
  }

  lemma VersionNotLt(a: string, b: string)
    requires !VersionLt(a, b)
    ensures VersionLe(b, a)
  {
    CompareAntisymmetric(Components(a), Components(b));
  }

  /** A version above the highest so far is above every declared version so far. */
  lemma NewHighest(vs: seq<string>, last: nat, best: string)
    requires last < |vs|
    requires forall j :: 0 <= j < last && vs[j] != "" ==> VersionLe(vs[j], best)
    requires VersionLt(best, vs[last])
    ensures forall j :: 0 <= j < last && vs[j] != "" ==> VersionLt(vs[j], vs[last])
  {
    forall j | 0 <= j < last && vs[j] != "" ensures VersionLt(vs[j], vs[last]) {
      CompareTransitive(Components(vs[j]), Components(best), Components(vs[last]));
    }
  }

  /**
   * `latestVersion`: `1.0.0` when no entry declares a version; otherwise a
   * declared version that no other declared version exceeds, the first such
   * in input order.
   */
  function LatestVersion(versions: seq<string>): (r: string)
    ensures (forall i :: 0 <= i < |versions| ==> versions[i] == "") ==> r == DefaultVersion
    ensures (exists i :: 0 <= i < |versions| && versions[i] != "") ==>
              && r != ""
              && (forall j :: 0 <= j < |versions| && versions[j] != "" ==> VersionLe(versions[j], r))
              && (exists k :: 0 <= k < |versions| && versions[k] == r
                    && forall j :: 0 <= j < k && versions[j] != "" ==> VersionLt(versions[j], r))
  {
    match LatestIndex(versions)
    case None => DefaultVersion
    case Some(k) => versions[k]
  }

  /** `a.b.c` with dot-free components reads as the three component values. */
  lemma ComponentsOfThree(v: string, a: string, b: string, c: string)
    requires v == a + "." + b + "." + c
    requires '.' !in a && '.' !in b && '.' !in c
    ensures Components(v) == [ComponentValue(a), ComponentValue(b), ComponentValue(c)]
  {
    assert v == a + ['.'] + (b + "." + c);
    SplitFirst(a, '.', b + "." + c);
    SplitFirst(b, '.', c);
    SplitWithoutSeparator(c, '.');
    assert Split(v, '.') == [a, b, c];
  }

  lemma ComponentsOf193()
    ensures Components("1.9.3") == [1, 9, 3]
  {
    ComponentsOfThree("1.9.3", "1", "9", "3");
    SingleDigitValue("1", '1');
    SingleDigitValue("9", '9');
    SingleDigitValue("3", '3');
  }

  lemma ComponentsOf1100()
    ensures Components("1.10.0") == [1, 10, 0]
  {
    ComponentsOfThree("1.10.0", "1", "10", "0");
    SingleDigitValue("1", '1');
    SingleDigitValue("0", '0');
    ValueOfTen();
  }

  lemma SingleDigitValue(d: string, c: char)
    requires d == [c] && IsDigit(c)
    ensures ComponentValue(d) == DigitValue(c)
  {
    assert AllDigits(d);
    assert d[..|d| - 1] == [];
    assert DigitsValue(d) == 10 * DigitsValue([]) + DigitValue(c);
  }

  lemma ValueOfTen()
    ensures ComponentValue("10") == 10
  {
    assert AllDigits("10");
    assert "10"[..1] == "1";
    assert DigitsValue("1") == 1;
  }

  /** Numeric, not lexicographic: `1.10.0` is above `1.9.3`. */
  lemma NumericNotLexicographic()
    ensures VersionLt("1.9.3", "1.10.0")
  {
    ComponentsOf193();
    ComponentsOf1100();
    assert Compare([9, 3], [10, 0]) == -1;
  }
}
