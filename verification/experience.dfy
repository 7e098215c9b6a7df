/** The `Experience` object: its markers, keyed by code, and the settings
    that decide which codes are valid. Of a marker only its code is modelled. */
module ExperienceModel {
  import opened JavaLang
  import opened JavaText
  import opened ExperienceRules
  import opened ExperienceText
  import opened CodeAssignment

  /** A marker of the experience; its action, title and the rest are not
      part of this model. */
  datatype Marker = Marker(code: string)

  class Experience {
    var markers: map<string, Marker>
    var minRegions: int
    var maxRegions: int
    var maxEmptyRegions: int
    var maxRegionValue: int
    var validationRegions: int
    var validationRegionValue: int
    var checksumModulo: int
    var embeddedChecksum: bool
    var threshold: ThresholdMode

    /** The settings the validators read. */
    function Settings(): Config
      reads this
    {
      Config(minRegions, maxRegions, maxEmptyRegions, maxRegionValue, validationRegions,
        validationRegionValue, checksumModulo, embeddedChecksum, threshold)
    }

    /** Every marker is filed under its own code. */
    predicate Valid()
      reads this
    {
      forall code | code in markers :: markers[code].code == code
    }

    constructor()
      ensures Valid() && markers == map[]
      ensures Settings() == DefaultConfig()
    {
      markers := map[];
      minRegions := 5;
      maxRegions := 5;
      maxEmptyRegions := 0;
      maxRegionValue := 6;
      validationRegions := 0;
      validationRegionValue := 1;
      checksumModulo := 3;
      embeddedChecksum := false;
      threshold := TemporalTile;
    }

    /** `add`: files the marker under its code, replacing any marker that
        had the same code. */
    method Add(marker: Marker)
      requires Valid()
      modifies this
      ensures Valid()
      ensures markers == old(markers)[marker.code := marker]
      ensures marker.code in markers && |markers.Keys| <= |old(markers).Keys| + 1
      ensures Settings() == old(Settings())
    {
      markers := markers[marker.code := marker];
    }

    /** `deleteMarker`: removes the marker with the given code and tells
        whether there was one. */
    method DeleteMarker(code: string) returns (deleted: bool)
      requires Valid()
      modifies this
      ensures Valid()
      ensures deleted <==> code in old(markers)
      ensures markers == old(markers) - {code}
      ensures deleted ==> |markers.Keys| == |old(markers).Keys| - 1
      ensures !deleted ==> markers == old(markers)
      ensures Settings() == old(Settings())
    {
      if code in markers {
        markers := markers - {code};
        assert old(markers).Keys == markers.Keys + {code};
        return true;
      } else {
        return false;
      }
    }

    /** `getNextUnusedMarker`, with the length loop moving on to longer
        codes as evidently intended: a code that no marker has yet, that
        reads back as a valid code, shortest first and then first in
        lexicographic order; `None` only when no valid code is left. */
    method GetNextUnusedMarker() returns (code: Option<string>, ghost digits: seq<int>)
      requires minRegions >= 1
      ensures code.Some? ==> code.value !in markers && code.value == Join(digits)
      ensures code.Some? ==> IsValidTextMarker(Settings(), code.value, false)
      ensures code.Some? ==> minRegions <= |digits| <= maxRegions && IsCandidate(Settings(), markers.Keys, digits)
      ensures code.Some? ==> forall t | |t| < |digits| :: !IsCandidate(Settings(), markers.Keys, t)
      ensures code.Some? ==> forall t | |t| == |digits| && IsCandidate(Settings(), markers.Keys, t) :: !LexLess(t, digits)
      ensures code.None? ==> forall t :: !IsCandidate(Settings(), markers.Keys, t)
    {
      code, digits := NextUnusedCodeAnyLength(Settings(), markers.Keys);
    }
  }

  /** Adding the marker for a fresh code and deleting it again leaves the
      markers as they were. */
  lemma AddThenDelete(markers: map<string, Marker>, marker: Marker)
    requires marker.code !in markers
    ensures markers[marker.code := marker] - {marker.code} == markers
  {
    var after := markers[marker.code := marker] - {marker.code};
    assert after.Keys == markers.Keys;
  }

  /** Once a code has been handed out and a marker added for it, the search
      never hands it out again: it is no longer a candidate. */
  lemma AddedCodeIsUsed(cfg: Config, markers: map<string, Marker>, digits: seq<int>)
    ensures !IsCandidate(cfg, markers[Join(digits) := Marker(Join(digits))].Keys, digits)
  {
    assert Join(digits) in markers[Join(digits) := Marker(Join(digits))].Keys;
  }
}
