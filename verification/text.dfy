/** Shortname normalisation.

    A post's shortname is its title (or a custom value) passed through Python's
    `str.lower` and then werkzeug's `url_fix`. `url_fix` belongs to a library
    that is not part of this model, so it is a parameter (`urlFix`) wherever it
    is needed. Normalising twice is not in general the same as normalising once:
    werkzeug writes percent-escapes in upper-case hex, which the next `lower`
    changes (`EscapedShortnameChanges` shows this for a stand-in `url_fix`).
 */
module Text {

  predicate IsUpper(c: char)
  {
    'A' <= c <= 'Z'
  }

  /** ASCII lower-casing of one character. */
  function LowerChar(c: char): (r: char)
    ensures !IsUpper(r)
    ensures IsUpper(c) ==> 'a' <= r <= 'z' && r as int - 'a' as int == c as int - 'A' as int
    ensures !IsUpper(c) ==> r == c
    ensures r == ' ' <==> c == ' '
  {
    if IsUpper(c) then (c as int + 32) as char else c
  }

  predicate NoUpper(s: string)
  {
    forall i :: 0 <= i < |s| ==> !IsUpper(s[i])
  }

  /** Python's `str.lower`, restricted to ASCII letters. */
  function Lower(s: string): (r: string)
    ensures |r| == |s|
    ensures forall i :: 0 <= i < |s| ==> r[i] == LowerChar(s[i])
    ensures NoUpper(r)
    ensures NoUpper(s) ==> r == s
    ensures forall i :: 0 <= i < |s| ==> (r[i] == ' ' <==> s[i] == ' ')
  {
    seq(|s|, i requires 0 <= i < |s| => LowerChar(s[i]))
  }

  /** Lower-casing is idempotent. */
  lemma LowerIdempotent(s: string)
    ensures Lower(Lower(s)) == Lower(s)
  {
  }

  /** The shortname validator: `url_fix(value.lower())`. */
  function Normalize(urlFix: string -> string, value: string): string
  {
    urlFix(Lower(value))
  }

  /** The shortname does not depend on the case of the value it is made
      from: lower-casing first changes nothing. */
  lemma NormalizeIgnoresCase(urlFix: string -> string, value: string)
    ensures Normalize(urlFix, Lower(value)) == Normalize(urlFix, value)
  {
    LowerIdempotent(value);
  }

  /** A stand-in for `url_fix` that, like werkzeug, percent-escapes `<` with
      upper-case hex digits and keeps every other character. */
  function EscapeLess(s: string): (r: string)
    ensures '<' !in r
    ensures '<' !in s ==> r == s
  {
    if |s| == 0 then ""
    else (if s[0] == '<' then "%3C" else [s[0]]) + EscapeLess(s[1..])
  }

  /** Re-normalising an escaped shortname lower-cases its escape, so
      normalisation with such a `url_fix` is not idempotent. */
  lemma EscapedShortnameChanges()
    ensures Normalize(EscapeLess, "<") == "%3C"
    ensures Normalize(EscapeLess, Normalize(EscapeLess, "<")) == "%3c"
  {
    assert Lower("<") == "<";
    assert Lower("%3C") == "%3c";
  }
}
