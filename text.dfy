/** The two JavaScript string built-ins the keyword matcher relies on:
    `String.prototype.toLowerCase` and `String.prototype.includes`. */
module Text {

  /** A character matched by `\d` in a JavaScript regular expression (ASCII digits only). */
  predicate IsDigit(c: char) {
    '0' <= c <= '9'
  }

  /** The capitals that lower-casing changes in this model: ASCII `A`..`Z` and the
      Latin-1 capitals U+00C0..U+00DE except the multiplication sign U+00D7
      (this covers the German umlauts of the default keywords). */
  predicate IsUpper(c: char) {
    ('A' <= c <= 'Z') || (0xC0 <= c as int <= 0xDE && c as int != 0xD7)
  }

  function LowerChar(c: char): (l: char)
    ensures !IsUpper(l)
    ensures !IsUpper(c) ==> l == c
  {
    if IsUpper(c) then (c as int + 32) as char else c
  }

  /** `s.toLowerCase()`, restricted to the capitals of `IsUpper`. */
  function ToLower(s: string): (r: string)
    ensures |r| == |s|
    ensures forall i :: 0 <= i < |s| ==> r[i] == LowerChar(s[i])
  {
    seq(|s|, i requires 0 <= i < |s| => LowerChar(s[i]))
  }

  /** `needle` occurs in `hay` starting at index `i`. */
  predicate OccursAt(hay: string, needle: string, i: nat) {
    i + |needle| <= |hay| && hay[i..i + |needle|] == needle
  }

  /** `hay.includes(needle)`; the empty needle occurs in every string. */
  predicate Contains(hay: string, needle: string): (b: bool)
    ensures b ==> |needle| <= |hay|
    ensures needle == [] ==> b
  {
    assert needle == [] ==> OccursAt(hay, needle, 0);
    exists i: nat | i <= |hay| :: OccursAt(hay, needle, i)
  }

  /** A keyword that holds a capital never occurs in a lower-cased title: the
      matcher lower-cases the title but not the keywords. */
  lemma UpperNeedleNeverContained(title: string, needle: string, k: nat)
    requires k < |needle| && IsUpper(needle[k])
    ensures !Contains(ToLower(title), needle)
  {
    var lowered := ToLower(title);
    forall i: nat | i <= |lowered|
      ensures !OccursAt(lowered, needle, i)
    {
      if i + |needle| <= |lowered| {
        assert lowered[i..i + |needle|][k] == LowerChar(title[i + k]);
      }
    }
  }
}
