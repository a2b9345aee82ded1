/**
 * The fixed field schema of the scraper and the title-casing used to match
 * schema names against the labels printed on a registry page.
 */
module Schema {
  /** The fields extracted for every registration, in output order. */
  const Columns: seq<string> := [
    "STATUS", "MANUFACTURER NAME", "MODEL", "TYPE AIRCRAFT",
    "TYPE ENGINE", "PENDING NUMBER CHANGE", "DATE CHANGE AUTHORIZED",
    "TYPE REGISTRATION", "COUNTY", "ENGINE MANUFACTURER", "ENGINE MODEL"
  ]

  /** The completion field: a row whose status is missing or empty is still to be scraped. */
  const StatusColumn: string := "STATUS"

  /** The column holding the registration number sent to the registry. */
  const IdColumn: string := "N-NUMBER"

  /** The value a field gets when the page has no entry for it. */
  const NotAvailable: string := "N/A"

  predicate IsUpper(c: char) { 'A' <= c <= 'Z' }
  predicate IsLower(c: char) { 'a' <= c <= 'z' }

  /** Python's "cased" characters, restricted to ASCII letters. */
  predicate IsCased(c: char) { IsUpper(c) || IsLower(c) }

  function ToUpper(c: char): char { if IsLower(c) then (c as int - 32) as char else c }
  function ToLower(c: char): char { if IsUpper(c) then (c as int + 32) as char else c }

  /** The character str.title() puts at position i: it looks only at the character before. */
  function TitleChar(s: string, i: nat): char
    requires i < |s|
  {
    if i > 0 && IsCased(s[i - 1]) then ToLower(s[i]) else ToUpper(s[i])
  }

  /** Python's str.title(), character by character. */
  function Title(s: string): string
  {
    seq(|s|, i requires 0 <= i < |s| => TitleChar(s, i))
  }

  /**
   * What str.title() promises: the same letters, an upper-case letter exactly
   * where a word starts (the string's start or after a non-letter), lower case
   * elsewhere, and every other character kept.
   */
  lemma TitleWordStarts(s: string)
    ensures |Title(s)| == |s|
    ensures forall i :: 0 <= i < |s| ==> ToLower(Title(s)[i]) == ToLower(s[i])
    ensures forall i :: 0 <= i < |s| && IsCased(s[i]) ==>
      (IsUpper(Title(s)[i]) <==> i == 0 || !IsCased(s[i - 1]))
  {
    forall i | 0 <= i < |s|
      ensures ToLower(Title(s)[i]) == ToLower(s[i])
      ensures IsCased(s[i]) ==> (IsUpper(Title(s)[i]) <==> i == 0 || !IsCased(s[i - 1]))
    {
      assert Title(s)[i] == TitleChar(s, i);
    }
  }
}
