/**
 The fixed vocabulary of the format mini-language: the two escape markers and
 the table that maps each single-letter token to the fragment of Go's
 reference layout ("Mon Jan 2 15:04:05 MST 2006") that renders the same field.
 */
module Tokens {

  /** Opens a literal run: the marker is dropped and tokens stop being recognised. */
  const EscapeOpen: char := '['
  /** Closes a literal run: the marker is dropped and tokens are recognised again. */
  const EscapeClose: char := ']'

  predicate IsMarker(c: char) {
    c == EscapeOpen || c == EscapeClose
  }

  // Times and time zones
  const TimeZone: string := "MST"
  const TzOffset: string := "Z07:00"
  const AmPm: string := "PM"

  // Seconds
  const MicroSecond: string := ".000000"
  const Second: string := "05"

  // Minutes
  const Minute: string := "04"

  // Hours
  const Hour: string := "15"
  const Hour12: string := "3"

  // Days
  const WeekNameShort: string := "Mon"
  const WeekName: string := "Monday"
  const DayOfMonthSingle: string := "_2"
  const DayOfMonth: string := "02"

  // Months
  const MonthName: string := "Jan"
  const MonthNameFull: string := "January"
  const MonthOfYearSingle: string := "1"
  const MonthOfYear: string := "01"

  // Years
  const Year: string := "2006"
  const YearTwoDigit: string := "06"

  /**
   The token table. There is no token for an ordinal day suffix, for the day
   of the year, or for a zero-padded 12-hour clock: those letters are not keys
   and so are copied like any other character.
   */
  const DigitMap: map<char, string> := map[
    // Days
    'd' := DayOfMonth,
    'D' := WeekNameShort,
    'l' := WeekName,
    'j' := DayOfMonthSingle,
    // Months
    'F' := MonthNameFull,
    'M' := MonthName,
    'm' := MonthOfYear,
    'n' := MonthOfYearSingle,
    // Years
    'Y' := Year,
    'y' := YearTwoDigit,
    // Time
    'a' := AmPm,
    'A' := AmPm,
    'h' := Hour12,
    'H' := Hour,
    'i' := Minute,
    's' := Second,
    'u' := MicroSecond,
    // Time zone
    'e' := TimeZone,
    'T' := TzOffset
  ]

  /** The length of the longest fragments, `MonthNameFull` and `MicroSecond`. */
  const LongestFragment: int := 7

  /** A character that is neither a marker nor a token: it is always copied. */
  predicate IsPlain(c: char) {
    !IsMarker(c) && c !in DigitMap
  }

  /**
   The shape of every fragment: it is not empty and no longer than
   `LongestFragment`, it contains no escape marker (so a translation can never
   produce one), and it does not start with the token it replaces (so a
   substitution always changes the text).
   */
  lemma FragmentShape(c: char)
    requires c in DigitMap
    ensures 0 < |DigitMap[c]| <= LongestFragment
    ensures DigitMap[c][0] != c
    ensures forall k :: 0 <= k < |DigitMap[c]| ==> !IsMarker(DigitMap[c][k])
  {
  }

  /** The markers are structural: neither is a table key. */
  lemma MarkersAreNotTokens()
    ensures EscapeOpen !in DigitMap && EscapeClose !in DigitMap
  {
  }

  /**
   Both spellings of the AM/PM token stand for the same marker, and they are
   the only two tokens that share a fragment.
   */
  lemma SharedFragments(c1: char, c2: char)
    requires c1 in DigitMap && c2 in DigitMap && c1 != c2
    ensures 'a' in DigitMap && 'A' in DigitMap && DigitMap['a'] == DigitMap['A'] == "PM"
    ensures DigitMap[c1] == DigitMap[c2] <==> {c1, c2} == {'a', 'A'}
  {
  }
}
