/**
 * The field validators of the player controller. Every validator takes a
 * possibly absent value (a Java `null` is `None`) and rejects the absent one.
 */
module Validation {
  import opened Wrappers

  const MaxNameLength := 12
  const MaxTitleLength := 30
  const MaxExperience := 10000000

  /** Epoch milliseconds of 2000-01-01T00:00 (UTC); birthdays must be strictly later. */
  const BirthdayLowerBound := 946684800000
  /** Epoch milliseconds of 3000-12-31T00:00 (UTC); birthdays must be strictly earlier. */
  const BirthdayUpperBound := 32535129600000

  /** An identifier is valid when it is present and positive. */
  function IsIdValid(id: Option<int>): (valid: bool)
    ensures valid <==> id.Some? && 0 < id.value
  {
    if id.None? then false else id.value > 0
  }

  /** The first code point that UTF-16 writes as a surrogate pair. */
  const FirstSupplementary := 0x10000

  /**
   * The length of `s` in UTF-16 code units, as Java's `String.length()` counts it:
   * a character outside the Basic Multilingual Plane takes two units.
   */
  function Utf16Length(s: string): (n: nat)
    ensures |s| <= n <= 2 * |s|
    ensures n == 0 <==> s == []
    ensures (forall i :: 0 <= i < |s| ==> (s[i] as int) < FirstSupplementary) ==> n == |s|
    ensures (forall i :: 0 <= i < |s| ==> (s[i] as int) >= FirstSupplementary) ==> n == 2 * |s|
  {
    if s == [] then 0
    else
      assert forall i :: 0 <= i < |s[1..]| ==> s[1..][i] == s[i + 1];
      (if (s[0] as int) < FirstSupplementary then 1 else 2) + Utf16Length(s[1..])
  }

  /** A name is valid when it is present, not empty and at most 12 UTF-16 units long. */
  function IsNameValid(name: Option<string>): (valid: bool)
    ensures valid <==> name.Some? && 1 <= Utf16Length(name.value) <= MaxNameLength
  {
    if name.None? || |name.value| == 0 then false else Utf16Length(name.value) <= MaxNameLength
  }

  /** A title is valid when it is present and at most 30 UTF-16 units long; it may be empty. */
  function IsTitleValid(title: Option<string>): (valid: bool)
    ensures valid <==> title.Some? && Utf16Length(title.value) <= MaxTitleLength
  {
    if title.None? then false else Utf16Length(title.value) <= MaxTitleLength
  }

  /**
   * A birthday (epoch milliseconds) is valid when it is present and lies strictly
   * between the two bounds: a date exactly on either bound is rejected.
   */
  function IsDateValid(date: Option<int>): (valid: bool)
    ensures valid <==> date.Some? && BirthdayLowerBound < date.value < BirthdayUpperBound
  {
    if date.None? then false else BirthdayLowerBound < date.value && date.value < BirthdayUpperBound
  }

  /** Experience is valid when it is present and within [0, 10 000 000]. */
  function IsExperienceValid(experience: Option<int>): (valid: bool)
    ensures valid <==> experience.Some? && 0 <= experience.value <= MaxExperience
  {
    if experience.None? then false else experience.value >= 0 && experience.value <= MaxExperience
  }

  /**
   * The name-length boundary: twelve UTF-16 units pass, thirteen and zero fail;
   * a name of plain (Basic Multilingual Plane) characters is measured by its
   * character count.
   */
  lemma NameLengthBoundary(name: string)
    ensures Utf16Length(name) == 12 ==> IsNameValid(Some(name))
    ensures Utf16Length(name) == 13 ==> !IsNameValid(Some(name))
    ensures (forall i :: 0 <= i < |name| ==> (name[i] as int) < FirstSupplementary) ==>
              (IsNameValid(Some(name)) <==> 1 <= |name| <= MaxNameLength)
    ensures !IsNameValid(Some([])) && !IsNameValid(None)
  {
  }

  /** Seven emoji are fourteen UTF-16 units: too long for a name, though only seven characters. */
  lemma SupplementaryCharactersCountTwice()
    ensures !IsNameValid(Some("\U{1F600}\U{1F600}\U{1F600}\U{1F600}\U{1F600}\U{1F600}\U{1F600}"))
  {
    var s := "\U{1F600}\U{1F600}\U{1F600}\U{1F600}\U{1F600}\U{1F600}\U{1F600}";
    assert |s| == 7;
    assert forall i :: 0 <= i < |s| ==> (s[i] as int) >= FirstSupplementary;
  }

  /** An empty title is accepted; birthdays exactly on either bound are refused. */
  lemma BoundaryValues()
    ensures IsTitleValid(Some([]))
    ensures !IsDateValid(Some(BirthdayLowerBound)) && !IsDateValid(Some(BirthdayUpperBound))
    ensures IsDateValid(Some(BirthdayLowerBound + 1)) && IsDateValid(Some(BirthdayUpperBound - 1))
  {
  }
}
