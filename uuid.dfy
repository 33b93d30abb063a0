/**
 * The key generator of src/lib/uuid.ts: a version-4 UUID (section 4.4 of RFC 4122) made by
 * rewriting the fixed template `10000000-1000-4000-8000-100000000000` one character at a
 * time. The value `Math.random() * 16`, truncated to an integer by `>>`, is the random
 * nibble; the caller supplies one nibble per template position.
 */
module Uuid {

  /** `${1e7}-${1e3}-${4e3}-${8e3}-${1e11}`. */
  const Template: string := "10000000-1000-4000-8000-100000000000"

  /** The lower-case hexadecimal digits of `Number.prototype.toString(16)`. */
  const HexDigits: string := "0123456789abcdef"

  /** The positions of the version digit and of the variant digit. */
  const VersionIndex: nat := 14
  const VariantIndex: nat := 19

  predicate IsNibbles(rand: seq<nat>)
  {
    forall i :: 0 <= i < |rand| ==> rand[i] < 16
  }

  predicate IsHexDigit(c: char)
  {
    c in HexDigits
  }

  /** A string that `Number()` reads as a single decimal digit. */
  predicate IsDigitString(a: string)
  {
    |a| == 1 && '0' <= a[0] <= '9'
  }

  /** The characters of the template that the regular expression `/[018]/g` matches. */
  predicate IsReplaced(c: char)
  {
    c == '0' || c == '1' || c == '8'
  }

  /** Whether `i` is one of the four hyphen positions of the canonical UUID text. */
  predicate IsHyphenIndex(i: int)
  {
    i == 8 || i == 13 || i == 18 || i == 23
  }

  /**
   * `hexChar(a)` before its conversion to text: `a ^ (r >> (a / 4))` for the random nibble
   * `r`. The shift count `a / 4` is truncated to an integer, so for the template digits it
   * is 0 for 0 and 1 and 2 for 8; for 8 the shift clears the two high bits of the mask.
   */
  function HexValue(a: nat, r: nat): (x: nat)
    requires a < 10 && r < 16
    ensures x < 16
    ensures a == 0 ==> x == r
    ensures a == 1 ==> x == (if r % 2 == 0 then r + 1 else r - 1)
    ensures a == 8 ==> 8 <= x <= 11 && x == 8 + r / 4
  {
    ((a as bv8) ^ ((r as bv8) >> (a / 4))) as nat
  }

  /** `hexChar(a)`: the hexadecimal text of `HexValue`, always one digit. */
  function HexChar(a: nat, r: nat): (c: char)
    requires a < 10 && r < 16
    ensures IsHexDigit(c)
  {
    HexDigits[HexValue(a, r)]
  }

  /**
   * `uuid(a)`. With a non-empty argument (what `String.prototype.replace` hands its
   * replacer: the matched digit) it is one `hexChar`; with none it rewrites the template,
   * calling itself on every matched character.
   */
  function Uuid(a: string, rand: seq<nat>): (id: string)
    requires IsNibbles(rand)
    requires a != "" ==> IsDigitString(a) && |rand| >= 1
    requires a == "" ==> |rand| == |Template|
    ensures a != "" ==> |id| == 1 && IsHexDigit(id[0])
    ensures a == "" ==> |id| == |Template|
    decreases if a == "" then 2 else 0, 0
  {
    if a != "" then [HexChar(a[0] as int - '0' as int, rand[0])]
    else Rewrite(Template, rand)
  }

  /**
   * `template.replace(/[018]/g, uuid)`: every character the expression matches becomes the
   * replacer's result for that character, drawn with the nibble of its own position, and
   * every other character stays.
   */
  function Rewrite(t: string, rand: seq<nat>): (r: string)
    requires |rand| == |t| && IsNibbles(rand)
    ensures |r| == |t|
    ensures forall i :: 0 <= i < |t| ==>
              r[i] == if IsReplaced(t[i]) then HexChar(t[i] as int - '0' as int, rand[i]) else t[i]
    decreases 1, |t|
  {
    if t == [] then []
    else
      var head := if IsReplaced(t[0]) then Uuid([t[0]], [rand[0]]) else [t[0]];
      var rest := Rewrite(t[1..], rand[1..]);
      assert |head| == 1 && head[0] == if IsReplaced(t[0]) then HexChar(t[0] as int - '0' as int, rand[0]) else t[0];
      assert forall i :: 1 <= i < |t| ==> (head + rest)[i] == rest[i - 1];
      head + rest
  }

  /** The template has its hyphens at the canonical places, '4' at the version position and a matched digit everywhere else. */
  lemma TemplateShape()
    ensures HasUuidLayout(Template)
  {
    var t := Template;
    assert t == "10000000" + "-" + "1000" + "-" + "4000" + "-" + "8000" + "-" + "100000000000";
  }

  /** The digit drawn for the template's '8' is the variant digit of section 4.1.1 of RFC 4122. */
  lemma VariantDigit(r: nat)
    requires r < 16
    ensures HexChar(8, r) in "89ab"
  {
    var x := HexValue(8, r);
    assert HexDigits[8..12] == "89ab";
    assert HexChar(8, r) == HexDigits[8..12][x - 8];
  }

  /** The layout `Template` has, stated without its text. */
  predicate HasUuidLayout(t: string)
  {
    && |t| == 36
    && (forall i :: 0 <= i < 36 && IsHyphenIndex(i) ==> t[i] == '-')
    && (forall i :: 0 <= i < 36 && !IsHyphenIndex(i) && i != VersionIndex ==> IsReplaced(t[i]))
    && t[VersionIndex] == '4' && t[VariantIndex] == '8'
  }

  /** Rewriting a text with that layout keeps the hyphens and the version digit and puts hexadecimal digits elsewhere. */
  lemma RewriteLayout(t: string, rand: seq<nat>)
    requires HasUuidLayout(t) && |rand| == |t| && IsNibbles(rand)
    ensures var id := Rewrite(t, rand);
      && (forall i :: 0 <= i < 36 && IsHyphenIndex(i) ==> id[i] == '-')
      && (forall i :: 0 <= i < 36 && !IsHyphenIndex(i) ==> IsHexDigit(id[i]))
      && id[VersionIndex] == '4'
      && id[VariantIndex] in "89ab"
  {
    var id := Rewrite(t, rand);
    assert HexDigits[4] == '4';
    forall i | 0 <= i < 36 && !IsHyphenIndex(i)
      ensures IsHexDigit(id[i])
    {
      if i != VersionIndex {
        assert IsReplaced(t[i]);
      }
    }
    VariantDigit(rand[VariantIndex]);
  }

  /**
   * A generated key is 36 characters long, has hyphens at positions 8, 13, 18 and 23, the
   * version digit '4' at position 14, a variant digit 8, 9, a or b at position 19, and a
   * hexadecimal digit everywhere else.
   */
  lemma UuidFormat(rand: seq<nat>)
    requires |rand| == |Template| && IsNibbles(rand)
    ensures |Uuid("", rand)| == 36
    ensures forall i :: 0 <= i < 36 && IsHyphenIndex(i) ==> Uuid("", rand)[i] == '-'
    ensures forall i :: 0 <= i < 36 && !IsHyphenIndex(i) ==> IsHexDigit(Uuid("", rand)[i])
    ensures Uuid("", rand)[VersionIndex] == '4'
    ensures Uuid("", rand)[VariantIndex] in "89ab"
  {
    TemplateShape();
    RewriteLayout(Template, rand);
  }
}
