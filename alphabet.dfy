/**
 * The URL- and filename-safe Base64 alphabet of section 5 of RFC 4648:
 * 'A'-'Z' stand for 0-25, 'a'-'z' for 26-51, '0'-'9' for 52-61, '-' for 62
 * and '_' for 63. There is no padding character.
 */
module Alphabet {

  predicate IsSlugChar(c: char) {
    'A' <= c <= 'Z' || 'a' <= c <= 'z' || '0' <= c <= '9' || c == '-' || c == '_'
  }

  /** The character that stands for the 6-bit value `v`. */
  function CharOf(v: nat): (c: char)
    requires v < 64
    ensures IsSlugChar(c)
  {
    if v < 26 then ('A' as int + v) as char
    else if v < 52 then ('a' as int + (v - 26)) as char
    else if v < 62 then ('0' as int + (v - 52)) as char
    else if v == 62 then '-'
    else '_'
  }

  /** The 6-bit value a slug character stands for. */
  function ValueOf(c: char): (v: nat)
    requires IsSlugChar(c)
    ensures v < 64
  {
    if 'A' <= c <= 'Z' then c as int - 'A' as int
    else if 'a' <= c <= 'z' then c as int - 'a' as int + 26
    else if '0' <= c <= '9' then c as int - '0' as int + 52
    else if c == '-' then 62
    else 63
  }

  /** The two maps are mutual inverses: every value has exactly one character. */
  lemma ValueOfCharOf(v: nat)
    requires v < 64
    ensures ValueOf(CharOf(v)) == v
  {
  }

  lemma CharOfValueOf(c: char)
    requires IsSlugChar(c)
    ensures CharOf(ValueOf(c)) == c
  {
  }

  /** The characters of a sequence of 6-bit values. */
  function Chars(vals: seq<nat>): (s: string)
    requires forall i :: 0 <= i < |vals| ==> vals[i] < 64
    ensures |s| == |vals|
    ensures forall i :: 0 <= i < |s| ==> IsSlugChar(s[i]) && ValueOf(s[i]) == vals[i]
  {
    if vals == [] then [] else [CharOf(vals[0])] + Chars(vals[1..])
  }

  /** The 6-bit values of a string of slug characters. */
  function Values(s: string): (vals: seq<nat>)
    requires forall i :: 0 <= i < |s| ==> IsSlugChar(s[i])
    ensures |vals| == |s|
    ensures forall i :: 0 <= i < |s| ==> vals[i] < 64 && CharOf(vals[i]) == s[i]
  {
    if s == [] then [] else [ValueOf(s[0])] + Values(s[1..])
  }

  /** Reading the values of a slug string and writing them back gives the string. */
  lemma CharsOfValues(s: string)
    requires forall i :: 0 <= i < |s| ==> IsSlugChar(s[i])
    ensures Chars(Values(s)) == s
  {
    var vals := Values(s);
    forall i | 0 <= i < |s| ensures Chars(vals)[i] == s[i] {
      CharOfValueOf(Chars(vals)[i]);
    }
  }

  /** Writing values as characters and reading them back gives the values. */
  lemma ValuesOfChars(vals: seq<nat>)
    requires forall i :: 0 <= i < |vals| ==> vals[i] < 64
    ensures Values(Chars(vals)) == vals
  {
    var s := Chars(vals);
    forall i | 0 <= i < |vals| ensures Values(s)[i] == vals[i] {
      ValueOfCharOf(Values(s)[i]);
    }
  }

  /** The characters of `vals` are the string that spells them one by one. */
  lemma CharsSpell(vals: seq<nat>, s: string)
    requires |vals| == |s|
    requires forall i :: 0 <= i < |vals| ==> vals[i] < 64 && CharOf(vals[i]) == s[i]
    ensures Chars(vals) == s
  {
    forall i | 0 <= i < |s| ensures Chars(vals)[i] == s[i] {
      CharOfValueOf(Chars(vals)[i]);
    }
  }
}
