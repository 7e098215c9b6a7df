/** The text forms of validation, `getMarkerError(String, boolean)` and
    `isValidMarker(String, boolean)`: both split a colon-separated code
    (possibly one still being typed, `partial`) and read its values in order,
    but they have drifted apart and are modelled separately, as written. */
module ExperienceText {
  import opened JavaLang
  import opened JavaText
  import opened ExperienceRules

  /** Why the text form rejects a code: a reason of the list form (including
      "too short" and "too long", which the text form also reports itself), or
      one of the four reasons found only while reading the text. */
  datatype TextError =
    | Rejected(reason: MarkerError)
    | MissingRegionValue
    | TooLarge(token: string)
    | Decreasing(token: string, previous: int)
    | NotANumber(token: string)

  /** The reading loop of `getMarkerError(String, boolean)` over the tokens not yet
      read; `prev` is the value read before them (0 at the start). A value below
      its predecessor is an error only when it is not the last token and the
      code does not end in ':'. */
  function ScanReportingErrors(cfg: Config, rest: seq<string>, trailingColon: bool, prev: int): Result<seq<int>, TextError>
  {
    if rest == [] then Success([])
    else
      match ParseInt(rest[0])
      case None => Failure(NotANumber(rest[0]))
      case Some(c) =>
        if c > cfg.maxRegionValue then Failure(TooLarge(rest[0]))
        else if c < prev && !trailingColon && |rest| > 1 then Failure(Decreasing(rest[0], prev))
        else
          match ScanReportingErrors(cfg, rest[1..], trailingColon, c)
          case Failure(e) => Failure(e)
          case Success(codes) => Success([c] + codes)
  }

  /** The reading loop of `isValidMarker(String, boolean)`: here a value below its
      predecessor is refused when the code ends in ':' or the value is not the
      last token. */
  function ScanForValidity(cfg: Config, rest: seq<string>, trailingColon: bool, prev: int): Option<seq<int>>
  {
    if rest == [] then Some([])
    else
      match ParseInt(rest[0])
      case None => None
      case Some(c) =>
        if c > cfg.maxRegionValue then None
        else if c < prev && (trailingColon || |rest| > 1) then None
        else
          match ScanForValidity(cfg, rest[1..], trailingColon, c)
          case None => None
          case Some(codes) => Some([c] + codes)
  }

  /** `getMarkerError(String, boolean)`: `None` when the text is accepted. */
  function GetTextMarkerError(cfg: Config, marker: string, partial: bool): Option<TextError>
  {
    var values := JavaSplit(marker);
    if !partial && |values| < cfg.minRegions then Some(Rejected(TooShort))
    else if partial && EndsWith(marker, ":") && (|values| == cfg.maxRegions || EndsWith(marker, "::")) then
      Some(MissingRegionValue)
    else if |values| > cfg.maxRegions then Some(Rejected(TooLong))
    else
      match ScanReportingErrors(cfg, values, EndsWith(marker, ":"), 0)
      case Failure(e) => Some(e)
      case Success(codes) =>
        match GetMarkerError(cfg, Some(codes), None)
        case None => None
        case Some(e) => Some(Rejected(e))
  }

  /** `isValidMarker(String, boolean)`. */
  function IsValidTextMarker(cfg: Config, marker: string, partial: bool): bool
  {
    var values := JavaSplit(marker);
    if !partial && |values| < cfg.minRegions then false
    else if partial && EndsWith(marker, ":") && |values| == cfg.maxRegions then false
    else if partial && EndsWith(marker, ":") && EndsWith(marker, "::") then false
    else if |values| > cfg.maxRegions then false
    else
      match ScanForValidity(cfg, values, EndsWith(marker, ":"), 0)
      case None => false
      case Some(codes) => partial || IsValidMarker(cfg, Some(codes), None)
  }

  /** The values of the tokens when every token is a number. */
  function Numbers(tokens: seq<string>): (r: Option<seq<int>>)
    ensures r.Some? <==> forall i | 0 <= i < |tokens| :: ParseInt(tokens[i]).Some?
    ensures r.Some? ==> |r.value| == |tokens| && forall i | 0 <= i < |tokens| :: ParseInt(tokens[i]) == Some(r.value[i])
  {
    if tokens == [] then Some([])
    else
      var rest := Numbers(tokens[1..]);
      assert forall i | 0 < i < |tokens| :: tokens[1..][i - 1] == tokens[i];
      match ParseInt(tokens[0])
      case None => None
      case Some(c) =>
        if rest.None? then
          assert exists i | 0 <= i < |tokens[1..]| :: ParseInt(tokens[1..][i]).None?;
          None
        else Some([c] + rest.value)
  }

  predicate AllAtMost(xs: seq<int>, bound: int) {
    forall i | 0 <= i < |xs| :: xs[i] <= bound
  }

  /** Each value is at least the one before it, and the first at least `prev`. */
  predicate NonDecreasingFrom(prev: int, xs: seq<int>) {
    (|xs| > 0 ==> prev <= xs[0]) && forall i | 0 < i < |xs| :: xs[i - 1] <= xs[i]
  }

  function AllButLast(xs: seq<int>): seq<int> {
    if xs == [] then [] else xs[..|xs| - 1]
  }

  lemma NonDecreasingFromCons(prev: int, c: int, xs: seq<int>)
    ensures NonDecreasingFrom(prev, [c] + xs) <==> prev <= c && NonDecreasingFrom(c, xs)
  {
    var ys := [c] + xs;
    assert forall i | 0 < i < |ys| :: ys[i] == xs[i - 1];
    if prev <= c && NonDecreasingFrom(c, xs) {
      forall i | 0 < i < |ys| ensures ys[i - 1] <= ys[i] {
        if i > 1 { assert ys[i - 1] == xs[i - 2]; }
      }
    }
    if NonDecreasingFrom(prev, ys) {
      assert prev <= ys[0] == c;
      forall i | 0 < i < |xs| ensures xs[i - 1] <= xs[i] {
        assert ys[i] <= ys[i + 1];
      }
      if |xs| > 0 { assert ys[0] <= ys[1]; }
    }
  }

  lemma AllButLastCons(c: int, xs: seq<int>)
    requires xs != []
    ensures AllButLast([c] + xs) == [c] + AllButLast(xs)
  {
  }

  /** What the reading loop of `getMarkerError(String, boolean)` accepts: every
      token a number no larger than `maxRegionValue`, and, unless the code ends
      in ':', no value except the last below its predecessor. It then yields
      the values in token order. */
  lemma {:induction false} ScanReportingErrorsAccepts(cfg: Config, rest: seq<string>, trailingColon: bool, prev: int)
    ensures ScanReportingErrors(cfg, rest, trailingColon, prev).Success? <==>
      && Numbers(rest).Some?
      && AllAtMost(Numbers(rest).value, cfg.maxRegionValue)
      && (!trailingColon ==> NonDecreasingFrom(prev, AllButLast(Numbers(rest).value)))
    ensures ScanReportingErrors(cfg, rest, trailingColon, prev).Success? ==>
      ScanReportingErrors(cfg, rest, trailingColon, prev).value == Numbers(rest).value
  {
    if rest != [] && ParseInt(rest[0]).Some? {
      var c := ParseInt(rest[0]).value;
      var tail := rest[1..];
      ScanReportingErrorsAccepts(cfg, tail, trailingColon, c);
      if Numbers(tail).Some? {
        var nums := Numbers(tail).value;
        assert Numbers(rest).value == [c] + nums;
        assert AllAtMost([c] + nums, cfg.maxRegionValue) <==> c <= cfg.maxRegionValue && AllAtMost(nums, cfg.maxRegionValue) by {
          assert forall i | 0 < i < |nums| + 1 :: ([c] + nums)[i] == nums[i - 1];
        }
        if tail != [] {
          AllButLastCons(c, nums);
          NonDecreasingFromCons(prev, c, AllButLast(nums));
        }
      }
    }
  }

  /** What the reading loop of `isValidMarker(String, boolean)` accepts: the same,
      except that when the code ends in ':' no value at all may fall below its
      predecessor. */
  lemma {:induction false} ScanForValidityAccepts(cfg: Config, rest: seq<string>, trailingColon: bool, prev: int)
    ensures ScanForValidity(cfg, rest, trailingColon, prev).Some? <==>
      && Numbers(rest).Some?
      && AllAtMost(Numbers(rest).value, cfg.maxRegionValue)
      && NonDecreasingFrom(prev, if trailingColon then Numbers(rest).value else AllButLast(Numbers(rest).value))
    ensures ScanForValidity(cfg, rest, trailingColon, prev).Some? ==>
      ScanForValidity(cfg, rest, trailingColon, prev).value == Numbers(rest).value
  {
    if rest != [] && ParseInt(rest[0]).Some? {
      var c := ParseInt(rest[0]).value;
      var tail := rest[1..];
      ScanForValidityAccepts(cfg, tail, trailingColon, c);
      if Numbers(tail).Some? {
        var nums := Numbers(tail).value;
        assert Numbers(rest).value == [c] + nums;
        assert AllAtMost([c] + nums, cfg.maxRegionValue) <==> c <= cfg.maxRegionValue && AllAtMost(nums, cfg.maxRegionValue) by {
          assert forall i | 0 < i < |nums| + 1 :: ([c] + nums)[i] == nums[i - 1];
        }
        NonDecreasingFromCons(prev, c, nums);
        if tail != [] {
          AllButLastCons(c, nums);
          NonDecreasingFromCons(prev, c, AllButLast(nums));
        }
      }
    }
  }

  /** `getMarkerError(String, boolean)` accepts a text exactly when it is not a
      partial code with a missing value, every token is a number no larger
      than `maxRegionValue` and in order (unless the text ends in ':'), and the
      values pass every rule of the list form. Even a partial code is held to
      the full list rules, so a partial code shorter than `minRegions` is
      reported as too short. */
  lemma TextErrorNoneIff(cfg: Config, marker: string, partial: bool)
    ensures GetTextMarkerError(cfg, marker, partial).None? <==>
      var values := JavaSplit(marker);
      var trailingColon := EndsWith(marker, ":");
      && !(partial && trailingColon && (|values| == cfg.maxRegions || EndsWith(marker, "::")))
      && Numbers(values).Some?
      && (!trailingColon ==> NonDecreasingFrom(0, AllButLast(Numbers(values).value)))
      && IsValidMarker(cfg, Some(Numbers(values).value), None)
  {
    var values := JavaSplit(marker);
    ScanReportingErrorsAccepts(cfg, values, EndsWith(marker, ":"), 0);
  }

  /** `isValidMarker(String, boolean)` accepts a text exactly when it is not a
      partial code with a missing value, has at most `maxRegions` tokens, every
      token is a number no larger than `maxRegionValue` and in order (every
      one of them when the text ends in ':', all but the last otherwise), and,
      for a complete code only, the values pass every rule of the list form. */
  lemma IsValidTextIff(cfg: Config, marker: string, partial: bool)
    ensures IsValidTextMarker(cfg, marker, partial) <==>
      var values := JavaSplit(marker);
      var trailingColon := EndsWith(marker, ":");
      && !(partial && trailingColon && (|values| == cfg.maxRegions || EndsWith(marker, "::")))
      && |values| <= cfg.maxRegions
      && Numbers(values).Some?
      && AllAtMost(Numbers(values).value, cfg.maxRegionValue)
      && NonDecreasingFrom(0, if trailingColon then Numbers(values).value else AllButLast(Numbers(values).value))
      && (partial || IsValidMarker(cfg, Some(Numbers(values).value), None))
  {
    var values := JavaSplit(marker);
    ScanForValidityAccepts(cfg, values, EndsWith(marker, ":"), 0);
  }

  /** On a complete code that does not end in ':' the two text forms agree. */
  lemma TextFormsAgreeWithoutTrailingColon(cfg: Config, marker: string)
    requires !EndsWith(marker, ":")
    ensures IsValidTextMarker(cfg, marker, false) <==> GetTextMarkerError(cfg, marker, false).None?
  {
    TextErrorNoneIff(cfg, marker, false);
    IsValidTextIff(cfg, marker, false);
  }

  /** Where the two text forms part on a partial code: "1" is valid for
      `isValidMarker`, which skips the list rules for a partial code, but too
      short for `getMarkerError`, which applies them. */
  lemma PartialCodeDrift()
    ensures IsValidTextMarker(DefaultConfig(), "1", true)
    ensures GetTextMarkerError(DefaultConfig(), "1", true) == Some(Rejected(TooShort))
  {
    var cfg := DefaultConfig();
    assert JavaSplit("1") == ["1"];
    var one: seq<string> := ["1"];
    assert one[0] == "1" && one[1..] == [];
    assert ParseInt(one[0]) == Some(1);
    assert ScanForValidity(cfg, one[1..], false, 1) == Some([]);
    var empty: seq<int> := [];
    assert ScanForValidity(cfg, one, false, 0) == Some([1] + empty);
  }

  /** A code with ':' appended still splits into one token per value, since
      `split` drops the trailing empty token. */
  lemma SplitJoinColon(s: seq<int>)
    requires |s| >= 1
    ensures JavaSplit(Join(s) + ":") == Numerals(s)
    ensures EndsWith(Join(s) + ":", ":")
  {
    var j := Join(s);
    var text := j + ":";
    assert ':' in text by { assert text[|j|] == ':'; }
    assert JavaSplit(text) == DropTrailingEmpty(RawSplit(text));
    RawSplitTrailingColon(s);
    DropOneEmpty(Numerals(s));
    assert text[|text| - 1..] == ":";
  }

  /** `split` drops the one empty token after a last non-empty token. */
  lemma DropOneEmpty(tokens: seq<string>)
    requires tokens != [] && tokens[|tokens| - 1] != ""
    ensures DropTrailingEmpty(tokens + [""]) == tokens
  {
    var raw := tokens + [""];
    assert raw[..|raw| - 1] == tokens;
  }

  /** A trailing colon adds one empty token to the raw split of a code. */
  lemma RawSplitTrailingColon(s: seq<int>)
    requires |s| >= 1
    ensures RawSplit(Join(s) + ":") == Numerals(s) + [""]
  {
    var j := Join(s);
    RawSplitJoin(s);
    RawSplitNoColon("");
    RawSplitAtColon(j, "");
    assert j + ":" + "" == j + ":";
  }

  /** Every numeral reads back as the value it was written from. */
  lemma NumbersOfNumerals(s: seq<int>)
    ensures Numbers(Numerals(s)) == Some(s)
  {
    var tokens := Numerals(s);
    forall i | 0 <= i < |s| ensures ParseInt(tokens[i]) == Some(s[i]) {
      ParseIntToString(s[i]);
    }
    var r := Numbers(tokens);
    assert r.Some?;
    assert forall i | 0 <= i < |s| :: r.value[i] == s[i];
    assert r.value == s;
  }

  /** A code written out by `Join` reads back through `getMarkerError(String,
      false)` with the verdict of the list form, provided every value but the
      last is at least 0 and at least its predecessor. */
  lemma JoinedCodeErrorReadsBack(cfg: Config, s: seq<int>)
    requires |s| >= 1
    ensures GetTextMarkerError(cfg, Join(s), false).None? <==>
      NonDecreasingFrom(0, AllButLast(s)) && IsValidMarker(cfg, Some(s), None)
  {
    SplitJoin(s);
    NumbersOfNumerals(s);
    TextErrorNoneIff(cfg, Join(s), false);
  }

  /** The same for `isValidMarker(String, false)`. */
  lemma JoinedCodeValidityReadsBack(cfg: Config, s: seq<int>)
    requires |s| >= 1
    ensures IsValidTextMarker(cfg, Join(s), false) <==>
      NonDecreasingFrom(0, AllButLast(s)) && IsValidMarker(cfg, Some(s), None)
  {
    SplitJoin(s);
    NumbersOfNumerals(s);
    IsValidTextIff(cfg, Join(s), false);
    if IsValidMarker(cfg, Some(s), None) {
      FirstFailureWins(cfg, Some(s), None);
      assert AllAtMost(s, cfg.maxRegionValue);
    }
  }

  /** With ':' appended, `getMarkerError(String, false)` no longer checks the
      order of the values, while `isValidMarker(String, false)` checks all of
      them, the last one included. */
  lemma TrailingColonReadsBack(cfg: Config, s: seq<int>)
    requires |s| >= 1
    ensures GetTextMarkerError(cfg, Join(s) + ":", false).None? <==> IsValidMarker(cfg, Some(s), None)
    ensures IsValidTextMarker(cfg, Join(s) + ":", false) <==>
      NonDecreasingFrom(0, s) && IsValidMarker(cfg, Some(s), None)
  {
    SplitJoinColon(s);
    NumbersOfNumerals(s);
    TextErrorNoneIff(cfg, Join(s) + ":", false);
    IsValidTextIff(cfg, Join(s) + ":", false);
    if IsValidMarker(cfg, Some(s), None) {
      FirstFailureWins(cfg, Some(s), None);
      assert AllAtMost(s, cfg.maxRegionValue);
    }
  }

  lemma ListRulesAcceptExample()
    ensures IsValidMarker(DefaultConfig(), Some([1, 1, 2, 1, 1]), None)
  {
    assert [1, 1, 2, 1, 1][..4] == [1, 1, 2, 1];
    assert [1, 1, 2, 1][..3] == [1, 1, 2];
    assert [1, 1, 2][..2] == [1, 1];
    assert [1, 1][..1] == [1];
    assert Sum([1, 1, 2, 1, 1]) == 6;
    assert FirstAbove([1, 1, 2, 1, 1], 6).None?;
  }

  /** Where the two text forms part on a complete code ending in ':': the code
      1:1:2:1:1: has a value below its predecessor, which `getMarkerError`
      lets through and `isValidMarker` refuses. */
  lemma TrailingColonDrift()
    ensures GetTextMarkerError(DefaultConfig(), Join([1, 1, 2, 1, 1]) + ":", false).None?
    ensures !IsValidTextMarker(DefaultConfig(), Join([1, 1, 2, 1, 1]) + ":", false)
  {
    var codes := [1, 1, 2, 1, 1];
    ListRulesAcceptExample();
    TrailingColonReadsBack(DefaultConfig(), codes);
    assert !NonDecreasingFrom(0, codes) by { assert codes[3] < codes[2]; }
  }
}
