/** The validation rules of an experience's marker set: the configuration and
    `getMarkerError(List, Integer)` with its helper checks, a fixed chain of
    rules in which the first one broken decides the reported reason. */
module ExperienceRules {
  import opened JavaLang

  datatype ThresholdMode = TemporalTile | Resize

  /** The marker-set settings an experience validates codes against. */
  datatype Config = Config(
    minRegions: int,
    maxRegions: int,
    maxEmptyRegions: int,
    maxRegionValue: int,
    validationRegions: int,
    validationRegionValue: int,
    checksumModulo: int,
    embeddedChecksum: bool,
    threshold: ThresholdMode)

  /** The settings of a freshly created experience. */
  function DefaultConfig(): Config {
    Config(5, 5, 0, 6, 0, 1, 3, false, TemporalTile)
  }

  /** Why a code is rejected; the payloads are what the source's message
      strings are built from. */
  datatype MarkerError =
    | NoCode
    | TooShort
    | TooLong
    | IncorrectEmptyRegions
    | TooBig(value: int)
    | NotDivisible(modulo: int)
    | EmbeddedMismatch(checksum: int)
    | EmbeddedNotAllowed
    | TooFewValidationRegions(required: int, value: int)

  function Sum(s: seq<int>): int {
    if s == [] then 0 else Sum(s[..|s| - 1]) + s[|s| - 1]
  }

  /** The 1-based positional weighted sum, e.g. 1:1:2:4:4 gives 1*1 + 1*2 + 2*3 + 4*4 + 4*5. */
  function WeightedSum(s: seq<int>): int {
    if s == [] then 0 else WeightedSum(s[..|s| - 1]) + s[|s| - 1] * |s|
  }

  /** How many entries of `s` equal `v`. */
  function Count(s: seq<int>, v: int): (n: nat)
    ensures n <= |s|
    ensures n == 0 <==> v !in s
  {
    if s == [] then 0
    else
      var init := s[..|s| - 1];
      assert s == init + [s[|s| - 1]];
      Count(init, v) + (if s[|s| - 1] == v then 1 else 0)
  }

  /** The first entry above `bound`, if any: the value the "too big" message names. */
  function FirstAbove(s: seq<int>, bound: int): (r: Option<int>)
    ensures r.None? <==> forall i | 0 <= i < |s| :: s[i] <= bound
    ensures r.Some? ==> exists i | 0 <= i < |s| :: s[i] == r.value && r.value > bound && forall j | 0 <= j < i :: s[j] <= bound
  {
    if s == [] then None
    else if s[0] > bound then Some(s[0])
    else
      var r := FirstAbove(s[1..], bound);
      assert forall i | 0 <= i < |s[1..]| :: s[1..][i] == s[i + 1];
      r
  }

  /** `hasValidChecksum`: with a modulo above 1 the digit total must be a
      multiple of it (Java remainder); otherwise every code passes. */
  predicate HasValidChecksum(cfg: Config, s: seq<int>) {
    cfg.checksumModulo <= 1 || JRem(Sum(s), cfg.checksumModulo) == 0
  }

  /** The checksum value an embedded checksum region must show for weighted sum `w`:
      the remainder mod 7, with 7 standing for a zero remainder. */
  function EmbeddedChecksumValue(w: int): (c: int)
    ensures (c - w) % 7 == 0
    ensures w >= 0 ==> 1 <= c <= 7
  {
    if JRem(w, 7) == 0 then 7 else JRem(w, 7)
  }

  /** `hasValidEmbeddedChecksum`. */
  predicate HasValidEmbeddedChecksum(s: seq<int>, checksum: int) {
    checksum == EmbeddedChecksumValue(WeightedSum(s))
  }

  /** `hasValidNumberofEmptyRegions`: at most `maxEmptyRegions` zero values. */
  predicate HasValidNumberOfEmptyRegions(cfg: Config, s: seq<int>) {
    Count(s, 0) <= cfg.maxEmptyRegions
  }

  /** `hasValidationRegions`: at least `validationRegions` values equal to
      `validationRegionValue`, or no requirement when that count is not positive. */
  predicate HasValidationRegions(cfg: Config, s: seq<int>) {
    cfg.validationRegions <= 0 || Count(s, cfg.validationRegionValue) >= cfg.validationRegions
  }

  /** `getMarkerError(List, Integer)`: `None` for a valid code, otherwise the
      first rule it breaks. `code` is `None` for a null list and `checksum` is
      the embedded checksum value, `None` when none was found. */
  function GetMarkerError(cfg: Config, code: Option<seq<int>>, checksum: Option<int>): Option<MarkerError>
  {
    if code.None? then Some(NoCode)
    else
      var s := code.value;
      if |s| < cfg.minRegions then Some(TooShort)
      else if |s| > cfg.maxRegions then Some(TooLong)
      else if !HasValidNumberOfEmptyRegions(cfg, s) then Some(IncorrectEmptyRegions)
      else if FirstAbove(s, cfg.maxRegionValue).Some? then Some(TooBig(FirstAbove(s, cfg.maxRegionValue).value))
      else if checksum.None? && !HasValidChecksum(cfg, s) then Some(NotDivisible(cfg.checksumModulo))
      else if cfg.embeddedChecksum && checksum.Some? && !HasValidEmbeddedChecksum(s, checksum.value) then Some(EmbeddedMismatch(checksum.value))
      else if !cfg.embeddedChecksum && checksum.Some? then Some(EmbeddedNotAllowed)
      else if !HasValidationRegions(cfg, s) then Some(TooFewValidationRegions(cfg.validationRegions, cfg.validationRegionValue))
      else None
  }

  /** The rules of the chain, in the order they are checked. */
  datatype Rule =
    | Present | MinLength | MaxLength | EmptyRegions | RegionValues
    | Checksum | EmbeddedChecksum | EmbeddedPermitted | ValidationRegions

  function Position(rule: Rule): nat {
    match rule
    case Present => 1
    case MinLength => 2
    case MaxLength => 3
    case EmptyRegions => 4
    case RegionValues => 5
    case Checksum => 6
    case EmbeddedChecksum => 7
    case EmbeddedPermitted => 8
    case ValidationRegions => 9
  }

  /** The rule a reported error stands for. */
  function RuleOf(e: MarkerError): Rule {
    match e
    case NoCode => Present
    case TooShort => MinLength
    case TooLong => MaxLength
    case IncorrectEmptyRegions => EmptyRegions
    case TooBig(_) => RegionValues
    case NotDivisible(_) => Checksum
    case EmbeddedMismatch(_) => EmbeddedChecksum
    case EmbeddedNotAllowed => EmbeddedPermitted
    case TooFewValidationRegions(_, _) => ValidationRegions
  }

  /** Each rule on its own, as a statement about the code: true when the code breaks it. */
  predicate Breaks(cfg: Config, code: Option<seq<int>>, checksum: Option<int>, rule: Rule) {
    match rule
    case Present => code.None?
    case MinLength => code.Some? && |code.value| < cfg.minRegions
    case MaxLength => code.Some? && |code.value| > cfg.maxRegions
    case EmptyRegions => code.Some? && Count(code.value, 0) > cfg.maxEmptyRegions
    case RegionValues => code.Some? && exists i | 0 <= i < |code.value| :: code.value[i] > cfg.maxRegionValue
    case Checksum =>
      code.Some? && checksum.None? && cfg.checksumModulo > 1 && JRem(Sum(code.value), cfg.checksumModulo) != 0
    case EmbeddedChecksum =>
      code.Some? && cfg.embeddedChecksum && checksum.Some?
      && checksum.value != EmbeddedChecksumValue(WeightedSum(code.value))
    case EmbeddedPermitted => code.Some? && !cfg.embeddedChecksum && checksum.Some?
    case ValidationRegions =>
      code.Some? && cfg.validationRegions > 0 && Count(code.value, cfg.validationRegionValue) < cfg.validationRegions
  }

  /** First failure wins: a code is accepted exactly when it breaks no rule, and
      a rejection names a rule the code breaks while every earlier rule holds.
      A "too big" rejection names the first value above the maximum. */
  lemma FirstFailureWins(cfg: Config, code: Option<seq<int>>, checksum: Option<int>)
    ensures GetMarkerError(cfg, code, checksum).None? <==> forall rule :: !Breaks(cfg, code, checksum, rule)
    ensures GetMarkerError(cfg, code, checksum).Some? ==>
      var rule := RuleOf(GetMarkerError(cfg, code, checksum).value);
      Breaks(cfg, code, checksum, rule)
      && forall earlier :: Position(earlier) < Position(rule) ==> !Breaks(cfg, code, checksum, earlier)
  {
    var r := GetMarkerError(cfg, code, checksum);
    if code.Some? {
      RegionValuesRule(cfg, code.value, checksum);
    }
    if r.None? {
      forall rule ensures !Breaks(cfg, code, checksum, rule) {
        match rule
        case _ =>
      }
    } else {
      assert Breaks(cfg, code, checksum, RuleOf(r.value));
    }
  }

  /** The value rule is broken exactly when `FirstAbove` finds a value. */
  lemma RegionValuesRule(cfg: Config, s: seq<int>, checksum: Option<int>)
    ensures Breaks(cfg, Some(s), checksum, RegionValues) <==> FirstAbove(s, cfg.maxRegionValue).Some?
  {
    var above := FirstAbove(s, cfg.maxRegionValue);
    if above.Some? {
      var i :| 0 <= i < |s| && s[i] == above.value && above.value > cfg.maxRegionValue;
    }
  }

  /** A too-big error names the first value above `maxRegionValue`. */
  lemma TooBigNamesFirstOffender(cfg: Config, code: Option<seq<int>>, checksum: Option<int>)
    requires code.Some? && GetMarkerError(cfg, code, checksum).Some? && GetMarkerError(cfg, code, checksum).value.TooBig?
    ensures var v := GetMarkerError(cfg, code, checksum).value.value;
      exists i | 0 <= i < |code.value| :: code.value[i] == v && v > cfg.maxRegionValue
        && forall j | 0 <= j < i :: code.value[j] <= cfg.maxRegionValue
  {
  }


  /** `isValidMarker(List, Integer)`: the code is accepted exactly when it has
      an acceptable length, few enough empty regions, no value above the
      maximum, the checksum demanded by how it was read, and enough validation
      regions. A null code is never valid. */
  function IsValidMarker(cfg: Config, code: Option<seq<int>>, checksum: Option<int>): (valid: bool)
    ensures code.None? ==> !valid
    ensures code.Some? ==> (valid <==>
      var s := code.value;
      && cfg.minRegions <= |s| <= cfg.maxRegions
      && Count(s, 0) <= cfg.maxEmptyRegions
      && (forall i | 0 <= i < |s| :: s[i] <= cfg.maxRegionValue)
      && (checksum.None? ==> cfg.checksumModulo <= 1 || JRem(Sum(s), cfg.checksumModulo) == 0)
      && (checksum.Some? ==> cfg.embeddedChecksum && checksum.value == EmbeddedChecksumValue(WeightedSum(s)))
      && (cfg.validationRegions > 0 ==> Count(s, cfg.validationRegionValue) >= cfg.validationRegions))
  {
    FirstFailureWins(cfg, code, checksum);
    if code.Some? then
      assert !Breaks(cfg, code, checksum, RegionValues) <==> forall i | 0 <= i < |code.value| :: code.value[i] <= cfg.maxRegionValue;
      GetMarkerError(cfg, code, checksum) == None
    else
      assert Breaks(cfg, code, checksum, Present);
      GetMarkerError(cfg, code, checksum) == None
  }

  /** A code shorter than `minRegions` is reported as too short whatever else is wrong with it. */
  lemma TooShortWins(cfg: Config, s: seq<int>, checksum: Option<int>)
    requires |s| < cfg.minRegions
    ensures GetMarkerError(cfg, Some(s), checksum) == Some(TooShort)
  {
  }

  /** With an embedded checksum read from the marker, the digit total no longer
      matters: the weighted sum decides, and with embedded checksums switched
      off such a marker is always rejected. */
  lemma EmbeddedChecksumReplacesModulo(cfg: Config, s: seq<int>, c: int)
    requires cfg.minRegions <= |s| <= cfg.maxRegions
    requires Count(s, 0) <= cfg.maxEmptyRegions
    requires forall i | 0 <= i < |s| :: s[i] <= cfg.maxRegionValue
    requires cfg.validationRegions <= 0
    ensures !cfg.embeddedChecksum ==> GetMarkerError(cfg, Some(s), Some(c)) == Some(EmbeddedNotAllowed)
    ensures cfg.embeddedChecksum ==> (IsValidMarker(cfg, Some(s), Some(c)) <==> c == EmbeddedChecksumValue(WeightedSum(s)))
  {
    assert FirstAbove(s, cfg.maxRegionValue).None?;
  }

  /** The worked example of the source: 1:1:2:4:4 has weighted sum 45, so its
      embedded checksum region must hold 3 dots. */
  lemma WeightedSumExample()
    ensures WeightedSum([1, 1, 2, 4, 4]) == 45
    ensures EmbeddedChecksumValue(45) == 3
  {
    assert [1, 1, 2, 4, 4][..4] == [1, 1, 2, 4];
    assert [1, 1, 2, 4][..3] == [1, 1, 2];
    assert [1, 1, 2][..2] == [1, 1];
    assert [1, 1][..1] == [1];
  }

  /** With the default settings (five regions, values up to 6, total divisible
      by 3), 1:2:3:4:5 is accepted. */
  lemma DefaultChecksumExample()
    ensures IsValidMarker(DefaultConfig(), Some([1, 2, 3, 4, 5]), None)
  {
    assert [1, 2, 3, 4, 5][..4] == [1, 2, 3, 4];
    assert [1, 2, 3, 4][..3] == [1, 2, 3];
    assert [1, 2, 3][..2] == [1, 2];
    assert [1, 2][..1] == [1];
    assert Sum([1, 2, 3, 4, 5]) == 15;
  }

  /** Under the default settings 1:2:3:4:6 (sum 16) fails the modulo-3 rule. */
  lemma DefaultChecksumFailure()
    ensures GetMarkerError(DefaultConfig(), Some([1, 2, 3, 4, 6]), None) == Some(NotDivisible(3))
  {
    assert [1, 2, 3, 4, 6][..4] == [1, 2, 3, 4];
    assert [1, 2, 3, 4][..3] == [1, 2, 3];
    assert [1, 2, 3][..2] == [1, 2];
    assert [1, 2][..1] == [1];
    assert Sum([1, 2, 3, 4, 6]) == 16;
    assert FirstAbove([1, 2, 3, 4, 6], 6).None?;
  }

}
