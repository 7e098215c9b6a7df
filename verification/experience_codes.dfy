/** The search for an unused code, `getNextUnusedMarker`: an odometer over
    the non-decreasing digit sequences of one length, each digit from 1 to
    `maxRegionValue`, visited in lexicographic order from 1:1:...:1 on; the
    first one that passes the list rules and whose written form is not
    already a marker of the experience is the answer. */
module CodeAssignment {
  import opened JavaLang
  import opened JavaText
  import opened ExperienceRules
  import opened ExperienceText
  import opened Arithmetic

  predicate NonDecreasing(s: seq<int>) {
    forall i, j | 0 <= i <= j < |s| :: s[i] <= s[j]
  }

  /** Every digit lies between 1 and `top`. */
  predicate DigitsIn(s: seq<int>, top: int) {
    forall k | 0 <= k < |s| :: 1 <= s[k] <= top
  }

  /** The sequences the odometer runs through for one length. */
  predicate InRange(s: seq<int>, size: nat, top: int) {
    |s| == size && NonDecreasing(s) && DigitsIn(s, top)
  }

  /** `a` comes strictly before `b` in lexicographic order (equal lengths). */
  predicate LexLess(a: seq<int>, b: seq<int>) {
    |a| == |b| && exists k | 0 <= k < |a| :: a[..k] == b[..k] && a[k] < b[k]
  }

  /** A code the search may hand out: a non-decreasing sequence of digits
      from 1 to `maxRegionValue` that passes the list rules and is not yet
      the code of a marker. */
  predicate IsCandidate(cfg: Config, used: set<string>, s: seq<int>) {
    NonDecreasing(s) && DigitsIn(s, cfg.maxRegionValue) && IsValidMarker(cfg, Some(s), None) && Join(s) !in used
  }

  /** The last position whose digit can still be raised (is below `top`). */
  function LastBelow(s: seq<int>, top: int): (r: Option<nat>)
    ensures r.None? ==> forall k | 0 <= k < |s| :: s[k] >= top
    ensures r.Some? ==> r.value < |s| && s[r.value] < top && forall k | r.value < k < |s| :: s[k] >= top
  {
    if s == [] then None
    else if s[|s| - 1] < top then Some(|s| - 1)
    else LastBelow(s[..|s| - 1], top)
  }

  function Fill(v: int, n: nat): (r: seq<int>)
    ensures |r| == n && forall k | 0 <= k < n :: r[k] == v
  {
    seq(n, _ => v)
  }

  /** One turn of the odometer at position `i`: that digit goes up by one and
      every digit after it is set to the same value. */
  function Advance(s: seq<int>, i: nat): seq<int>
    requires i < |s|
  {
    s[..i] + Fill(s[i] + 1, |s| - i)
  }

  lemma LexIrreflexive(a: seq<int>)
    ensures !LexLess(a, a)
  {
  }

  lemma LexAsymmetric(a: seq<int>, b: seq<int>)
    requires LexLess(a, b)
    ensures !LexLess(b, a)
  {
    var k :| 0 <= k < |a| && a[..k] == b[..k] && a[k] < b[k];
    forall m | 0 <= m < |b| ensures !(b[..m] == a[..m] && b[m] < a[m]) {
      if m < k {
        assert a[..k][m] == b[..k][m];
      } else if k < m {
        assert b[..m][k] != a[..m][k];
      }
    }
  }

  lemma LexTotal(a: seq<int>, b: seq<int>)
    requires |a| == |b| && a != b
    ensures LexLess(a, b) || LexLess(b, a)
  {
    var k := FirstDifference(a, b);
  }

  /** The first position at which two different sequences of one length differ. */
  lemma FirstDifference(a: seq<int>, b: seq<int>) returns (k: nat)
    requires |a| == |b| && a != b
    ensures k < |a| && a[..k] == b[..k] && a[k] != b[k]
  {
    k := 0;
    while k < |a| && a[k] == b[k]
      invariant k <= |a| && a[..k] == b[..k]
      decreases |a| - k
    {
      assert a[..k + 1] == a[..k] + [a[k]];
      assert b[..k + 1] == b[..k] + [b[k]];
      k := k + 1;
    }
    assert a[..|a|] == a && b[..|b|] == b;
    assert k < |a|;
  }

  /** The odometer's turn gives the next sequence of the range in
      lexicographic order: it is in the range, after `s`, and nothing in the
      range lies strictly between the two. */
  lemma AdvanceIsSuccessor(s: seq<int>, size: nat, top: int, i: nat)
    requires InRange(s, size, top) && LastBelow(s, top) == Some(i)
    ensures InRange(Advance(s, i), size, top)
    ensures LexLess(s, Advance(s, i))
    ensures forall t | InRange(t, size, top) && LexLess(s, t) :: t == Advance(s, i) || LexLess(Advance(s, i), t)
  {
    var adv := Advance(s, i);
    assert adv[..i] == s[..i];
    assert forall k | i <= k < size :: adv[k] == s[i] + 1;
    forall t | InRange(t, size, top) && LexLess(s, t)
      ensures t == adv || LexLess(adv, t)
    {
      NothingBetween(s, size, top, i, t);
    }
  }

  /** No sequence of the range lies strictly between `s` and its advance. */
  lemma NothingBetween(s: seq<int>, size: nat, top: int, i: nat, t: seq<int>)
    requires InRange(s, size, top) && LastBelow(s, top) == Some(i)
    requires InRange(t, size, top) && LexLess(s, t)
    ensures t == Advance(s, i) || LexLess(Advance(s, i), t)
  {
    var k :| 0 <= k < size && s[..k] == t[..k] && s[k] < t[k];
    assert k <= i;
    if k < i {
      PassedEarlier(s, i, t, k);
    } else if t != Advance(s, i) {
      PassedAtSameDigit(s, size, top, i, t);
    }
  }

  /** A sequence that first exceeds `s` before digit `i` also exceeds the
      advance of `s` at `i` there. */
  lemma PassedEarlier(s: seq<int>, i: nat, t: seq<int>, k: nat)
    requires i < |s| == |t| && k < i && s[..k] == t[..k] && s[k] < t[k]
    ensures LexLess(Advance(s, i), t)
  {
    var adv := Advance(s, i);
    assert adv[..k] == s[..k] by {
      forall j | 0 <= j < k ensures adv[j] == s[j] { assert adv[j] == adv[..i][j]; }
    }
    assert adv[k] == s[k];
  }

  /** A non-decreasing sequence that first exceeds `s` at digit `i`, and is not
      the advance, comes after the advance. */
  lemma PassedAtSameDigit(s: seq<int>, size: nat, top: int, i: nat, t: seq<int>)
    requires InRange(s, size, top) && InRange(t, size, top) && i < size
    requires s[..i] == t[..i] && s[i] < t[i] && t != Advance(s, i)
    ensures LexLess(Advance(s, i), t)
  {
    var adv := Advance(s, i);
    SamePrefix(s, i, t);
    var m := FirstDifference(adv, t);
    assert m >= i;
    assert t[m] >= t[i] >= adv[m];
  }


  /** When `t` first exceeds `s` at the digit `i` that `Advance` raises, it
      agrees with the advance before `i`. */
  lemma SamePrefix(s: seq<int>, i: nat, t: seq<int>)
    requires i < |s| == |t| && s[..i] == t[..i]
    ensures forall j | 0 <= j < i :: Advance(s, i)[j] == t[j]
  {
    var adv := Advance(s, i);
    forall j | 0 <= j < i ensures adv[j] == t[j] {
      assert adv[j] == s[..i][j] == t[..i][j];
    }
  }

  /** When no digit can be raised the sequence is the last of its range. */
  lemma LastOfRange(s: seq<int>, size: nat, top: int)
    requires InRange(s, size, top) && LastBelow(s, top).None?
    ensures forall t | InRange(t, size, top) :: !LexLess(s, t)
  {
  }

  function Pow(b: nat, e: nat): (p: nat)
    ensures b >= 1 ==> p >= 1
  {
    if e == 0 then 1 else b * Pow(b, e - 1)
  }

  /** How many turns the odometer may still take, at most: the digits
      `top - s[k]` read as a number in base `top`. */
  function Rank(s: seq<int>, top: int): nat
    requires top >= 1 && DigitsIn(s, top)
  {
    if s == [] then 0
    else
      assert DigitsIn(s[1..], top) by {
        forall k | 0 <= k < |s| - 1 ensures 1 <= s[1..][k] <= top { assert s[1..][k] == s[k + 1]; }
      }
      MulMono(0, top - s[0], Pow(top, |s| - 1));
      (top - s[0]) * Pow(top, |s| - 1) + Rank(s[1..], top)
  }

  lemma {:induction false} RankBound(s: seq<int>, top: int)
    requires top >= 1 && DigitsIn(s, top)
    ensures Rank(s, top) < Pow(top, |s|)
  {
    if s != [] {
      var p := Pow(top, |s| - 1);
      var tail := s[1..];
      assert DigitsIn(tail, top) by {
        forall k | 0 <= k < |tail| ensures 1 <= tail[k] <= top { assert tail[k] == s[k + 1]; }
      }
      RankBound(tail, top);
      MulMono(top - s[0], top - 1, p);
      assert Pow(top, |s|) == top * p;
      assert (top - 1) * p + p == top * p;
    }
  }

  /** Two sequences with digits in [1, top] whose first digits differ are
      ordered by rank the other way round. */
  lemma RankFirstDigit(s: seq<int>, t: seq<int>, top: int)
    requires top >= 1 && |s| == |t| > 0 && DigitsIn(s, top) && DigitsIn(t, top)
    requires s[0] < t[0]
    ensures Rank(t, top) < Rank(s, top)
  {
    var sTail, tTail := s[1..], t[1..];
    assert DigitsIn(tTail, top) by {
      forall j | 0 <= j < |tTail| ensures 1 <= tTail[j] <= top { assert tTail[j] == t[j + 1]; }
    }
    var p := Pow(top, |s| - 1);
    var a, b, c := (top - t[0]) * p, (top - t[0] + 1) * p, (top - s[0]) * p;
    assert Rank(t, top) == a + Rank(tTail, top);
    assert Rank(s, top) >= c;
    RankBound(tTail, top);
    MulSucc(top - t[0], p);
    MulMono(top - t[0] + 1, top - s[0], p);
    assert Rank(tTail, top) < p && b == a + p && b <= c;
  }

  /** Moving forward in lexicographic order lowers the rank. */
  lemma {:induction false} RankDecreases(s: seq<int>, t: seq<int>, top: int, k: nat)
    requires top >= 1 && |s| == |t| && DigitsIn(s, top) && DigitsIn(t, top)
    requires k < |s| && s[..k] == t[..k] && s[k] < t[k]
    ensures Rank(t, top) < Rank(s, top)
  {
    if k == 0 {
      RankFirstDigit(s, t, top);
    } else {
      var sTail, tTail := s[1..], t[1..];
      assert DigitsIn(sTail, top) by {
        forall j | 0 <= j < |sTail| ensures 1 <= sTail[j] <= top { assert sTail[j] == s[j + 1]; }
      }
      assert DigitsIn(tTail, top) by {
        forall j | 0 <= j < |tTail| ensures 1 <= tTail[j] <= top { assert tTail[j] == t[j + 1]; }
      }
      assert s[0] == s[..k][0] == t[..k][0] == t[0];
      assert sTail[..k - 1] == tTail[..k - 1] by {
        forall j | 0 <= j < k - 1 ensures sTail[j] == tTail[j] {
          assert sTail[j] == s[..k][j + 1] == t[..k][j + 1] == tTail[j];
        }
      }
      RankDecreases(sTail, tTail, top, k - 1);
      assert Rank(s, top) == (top - s[0]) * Pow(top, |s| - 1) + Rank(sTail, top);
      assert Rank(t, top) == (top - t[0]) * Pow(top, |t| - 1) + Rank(tTail, top);
    }
  }

  /** The largest digit the odometer reaches: `maxRegionValue`, or 1 when
      that is below 1 (the odometer starts every digit at 1). */
  function Top(cfg: Config): (top: int)
    ensures top >= 1 && top >= cfg.maxRegionValue
    ensures cfg.maxRegionValue >= 1 ==> top == cfg.maxRegionValue
  {
    if cfg.maxRegionValue < 1 then 1 else cfg.maxRegionValue
  }

  /** Every candidate of a length lies in the range the odometer runs through. */
  lemma CandidateInRange(cfg: Config, used: set<string>, t: seq<int>)
    requires |t| >= 1 && IsCandidate(cfg, used, t)
    ensures InRange(t, |t|, Top(cfg))
  {
    assert 1 <= t[0] <= cfg.maxRegionValue;
  }

  /** A sequence of the range that passes the list rules and whose code is
      unused is a candidate, and its code reads back as a valid code. */
  lemma FoundCandidate(cfg: Config, used: set<string>, s: seq<int>)
    requires |s| >= 1 && InRange(s, |s|, Top(cfg))
    requires IsValidMarker(cfg, Some(s), None) && Join(s) !in used
    ensures IsCandidate(cfg, used, s) && IsValidTextMarker(cfg, Join(s), false)
  {
    JoinedCodeValidityReadsBack(cfg, s);
  }

  /** A turn of the odometer past a sequence that is not a candidate skips no
      candidate, and lowers the rank. */
  lemma TurnSkipsNoCandidate(cfg: Config, used: set<string>, cur: seq<int>, size: nat, i: nat)
    requires size >= 1 && InRange(cur, size, Top(cfg)) && LastBelow(cur, Top(cfg)) == Some(i)
    requires !IsCandidate(cfg, used, cur)
    requires forall t | |t| == size && IsCandidate(cfg, used, t) :: !LexLess(t, cur)
    ensures InRange(Advance(cur, i), size, Top(cfg))
    ensures forall t | |t| == size && IsCandidate(cfg, used, t) :: !LexLess(t, Advance(cur, i))
    ensures Rank(Advance(cur, i), Top(cfg)) < Rank(cur, Top(cfg))
  {
    var top, next := Top(cfg), Advance(cur, i);
    AdvanceIsSuccessor(cur, size, top, i);
    forall t | |t| == size && IsCandidate(cfg, used, t) ensures !LexLess(t, next) {
      CandidateInRange(cfg, used, t);
      if t != cur {
        LexTotal(t, cur);
        if LexLess(cur, t) {
          if t != next {
            LexAsymmetric(next, t);
          }
        }
      }
    }
    var k :| 0 <= k < size && cur[..k] == next[..k] && cur[k] < next[k];
    RankDecreases(cur, next, top, k);
  }

  /** Once the odometer stands on the last sequence of its range, and that
      is not a candidate either, there is no candidate of that length. */
  lemma RangeExhausted(cfg: Config, used: set<string>, cur: seq<int>, size: nat)
    requires size >= 1 && InRange(cur, size, Top(cfg)) && LastBelow(cur, Top(cfg)).None?
    requires !IsCandidate(cfg, used, cur)
    requires forall t | |t| == size && IsCandidate(cfg, used, t) :: !LexLess(t, cur)
    ensures forall t | |t| == size :: !IsCandidate(cfg, used, t)
  {
    LastOfRange(cur, size, Top(cfg));
    forall t | |t| == size && IsCandidate(cfg, used, t) ensures t == cur {
      CandidateInRange(cfg, used, t);
      if t != cur {
        LexTotal(t, cur);
      }
    }
  }

  /** The code written by the `StringBuilder` loop: the digits in order,
      separated by ':'. */
  method WriteCode(marker: array<int>) returns (result: string)
    ensures result == Join(marker[..])
  {
    result := "";
    var index := 0;
    while index < marker.Length
      invariant 0 <= index <= marker.Length
      invariant result == Join(marker[..index])
    {
      if index != 0 {
        result := result + ":";
      }
      result := result + IntToString(marker[index]);
      assert marker[..index + 1][..index] == marker[..index];
      index := index + 1;
    }
    assert marker[..] == marker[..marker.Length];
  }

  /** The carry loop of `getNextUnusedMarker`: from the last digit backwards,
      raise the digit by one and set every later digit to the raised value,
      stopping at the first digit whose raised value is at most
      `maxRegionValue`; `false` (the Java `return null`) when even the first
      digit cannot be raised. */
  method TurnOdometer(cfg: Config, marker: array<int>) returns (turned: bool)
    requires marker.Length >= 1 && DigitsIn(marker[..], Top(cfg))
    modifies marker
    ensures turned <==> LastBelow(old(marker[..]), Top(cfg)).Some?
    ensures turned ==> marker[..] == Advance(old(marker[..]), LastBelow(old(marker[..]), Top(cfg)).value)
  {
    ghost var cur := marker[..];
    ghost var top := Top(cfg);
    var size := marker.Length;
    var i := size - 1;
    while true
      invariant 0 <= i < size
      invariant marker[..i + 1] == cur[..i + 1]
      invariant i + 1 < size ==> marker[i + 1..] == Fill(cur[i + 1] + 1, size - i - 1)
      invariant forall j | i < j < size :: cur[j] >= top
      decreases i
    {
      var value := marker[i] + 1;
      var x := i;
      while x < size
        invariant i <= x <= size
        invariant marker[..i] == cur[..i]
        invariant forall y | i <= y < x :: marker[y] == value
      {
        marker[x] := value;
        x := x + 1;
      }
      assert marker[..] == Advance(cur, i);
      if value <= cfg.maxRegionValue {
        assert LastBelow(cur, top) == Some(i);
        return true;
      } else if i == 0 {
        assert LastBelow(cur, top).None?;
        return false;
      }
      assert marker[i..] == Fill(cur[i] + 1, size - i);
      i := i - 1;
    }
  }

  /** The `while (true)` loop of `getNextUnusedMarker` for one length: the
      first candidate of that length in lexicographic order, written out, or
      `None` once the odometer has passed its last sequence, every digit at
      `maxRegionValue`. A
      code it hands out is also accepted by `isValidMarker(String, false)`. */
  method FirstUnusedOfSize(cfg: Config, used: set<string>, size: nat) returns (code: Option<string>, ghost digits: seq<int>)
    requires size >= 1
    ensures code.Some? ==> |digits| == size && IsCandidate(cfg, used, digits) && code.value == Join(digits)
    ensures code.Some? ==> forall t | |t| == size && IsCandidate(cfg, used, t) :: !LexLess(t, digits)
    ensures code.Some? ==> IsValidTextMarker(cfg, code.value, false)
    ensures code.None? ==> forall t | |t| == size :: !IsCandidate(cfg, used, t)
  {
    ghost var top := Top(cfg);
    var marker := new int[size](_ => 1);
    while true
      invariant InRange(marker[..], size, top)
      invariant forall t | |t| == size && IsCandidate(cfg, used, t) :: !LexLess(t, marker[..])
      decreases Rank(marker[..], top)
    {
      ghost var cur := marker[..];
      if IsValidMarker(cfg, Some(marker[..]), None) {
        var result := WriteCode(marker);
        if result !in used {
          FoundCandidate(cfg, used, cur);
          return Some(result), cur;
        }
      }
      assert !IsCandidate(cfg, used, cur);
      var turned := TurnOdometer(cfg, marker);
      if !turned {
        RangeExhausted(cfg, used, cur, size);
        return None, [];
      }
      TurnSkipsNoCandidate(cfg, used, cur, size, LastBelow(cur, top).value);
    }
  }

  /** `getNextUnusedMarker`, as written: codes of length `minRegions` only.
      The Java loop over the lengths never reaches its second length, because
      running out of codes of the first returns null from the whole method. */
  method NextUnusedCode(cfg: Config, used: set<string>) returns (code: Option<string>, ghost digits: seq<int>)
    requires cfg.minRegions >= 1
    ensures code.Some? ==> |digits| == cfg.minRegions && IsCandidate(cfg, used, digits) && code.value == Join(digits)
    ensures code.Some? ==> forall t | |t| == cfg.minRegions && IsCandidate(cfg, used, t) :: !LexLess(t, digits)
    ensures code.Some? ==> IsValidTextMarker(cfg, code.value, false)
    ensures code.None? ==> forall t | |t| == cfg.minRegions :: !IsCandidate(cfg, used, t)
  {
    if cfg.minRegions > cfg.maxRegions {
      return None, [];
    }
    code, digits := FirstUnusedOfSize(cfg, used, cfg.minRegions);
  }

  /** The search with the length loop doing what it evidently means to: when
      every code of one length is taken (or invalid), move on to the next
      length, up to `maxRegions`. The answer is a shortest candidate, and the
      first of its length; `None` only when there is no candidate at all. */
  method NextUnusedCodeAnyLength(cfg: Config, used: set<string>) returns (code: Option<string>, ghost digits: seq<int>)
    requires cfg.minRegions >= 1
    ensures code.Some? ==> cfg.minRegions <= |digits| <= cfg.maxRegions && IsCandidate(cfg, used, digits) && code.value == Join(digits)
    ensures code.Some? ==> forall t | |t| < |digits| :: !IsCandidate(cfg, used, t)
    ensures code.Some? ==> forall t | |t| == |digits| && IsCandidate(cfg, used, t) :: !LexLess(t, digits)
    ensures code.Some? ==> IsValidTextMarker(cfg, code.value, false)
    ensures code.None? ==> forall t :: !IsCandidate(cfg, used, t)
  {
    var size := cfg.minRegions;
    while size <= cfg.maxRegions
      invariant size >= cfg.minRegions
      invariant forall t | |t| < size :: !IsCandidate(cfg, used, t)
    {
      code, digits := FirstUnusedOfSize(cfg, used, size);
      if code.Some? {
        return;
      }
      size := size + 1;
    }
    return None, [];
  }

  /** The configuration and marker set on which the two searches part: one
      region of at most 1 or two regions, with the single code "1" taken. The
      as-written search must answer `None`, since no candidate of length 1
      is left, although 1:1 is a candidate. */
  lemma LengthLoopSkipsLongerCodes()
    ensures var cfg := Config(1, 2, 0, 1, 0, 1, 1, false, TemporalTile);
      && (forall t | |t| == 1 :: !IsCandidate(cfg, {"1"}, t))
      && IsCandidate(cfg, {"1"}, [1, 1])
  {
    var cfg := Config(1, 2, 0, 1, 0, 1, 1, false, TemporalTile);
    assert IntToString(1) == "1";
    forall t | |t| == 1 && DigitsIn(t, 1) ensures Join(t) == "1" {
      assert t == [1];
    }
    assert Join([1, 1]) == Join([1]) + ":" + "1";
    assert [1, 1][..1] == [1];
    assert Count([1, 1], 0) == 0 by {
      assert [1, 1][..1] == [1];
      assert [1][..0] == [];
    }
  }
}
