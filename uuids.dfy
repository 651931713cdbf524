/** The identifiers of habits, achievements and details: 128-bit UUIDs
    written as 32 hexadecimal digits in groups of 8-4-4-4-12, the form
    `java.util.UUID.toString()` produces and `UUID.fromString` reads. */
module Uuids {
  import opened Common

  type Nibble = n: nat | n < 16

  /** A UUID as its 32 hexadecimal digits, most significant first. */
  type Uuid = s: seq<Nibble> | |s| == 32 witness seq(32, _ => 0)

  const TextLength := 36

  predicate IsHexChar(c: char) {
    '0' <= c <= '9' || 'a' <= c <= 'f' || 'A' <= c <= 'F'
  }

  function HexValue(c: char): (n: Nibble)
    requires IsHexChar(c)
  {
    if '0' <= c <= '9' then c as int - '0' as int
    else if 'a' <= c <= 'f' then c as int - 'a' as int + 10
    else c as int - 'A' as int + 10
  }

  /** The lower-case digit `toString` writes. */
  function HexChar(n: Nibble): (c: char)
    ensures IsHexChar(c) && HexValue(c) == n
  {
    if n < 10 then (n + '0' as int) as char else (n - 10 + 'a' as int) as char
  }

  /** `c` with an upper-case hexadecimal letter turned to lower case. */
  function LowerHex(c: char): char {
    if 'A' <= c <= 'F' then (c as int - 'A' as int + 'a' as int) as char else c
  }

  /** The positions of the four dashes in the text form. */
  predicate IsDashPosition(i: int) { i == 8 || i == 13 || i == 18 || i == 23 }

  /** The text position of hexadecimal digit `k`. */
  function CharPosition(k: nat): (i: nat)
    requires k < 32
    ensures i < TextLength && !IsDashPosition(i)
  {
    k + if k < 8 then 0 else if k < 12 then 1 else if k < 16 then 2 else if k < 20 then 3 else 4
  }

  /** The digit index of a non-dash text position. */
  function NibbleIndex(i: nat): (k: nat)
    requires i < TextLength && !IsDashPosition(i)
    ensures k < 32 && CharPosition(k) == i
  {
    i - if i < 8 then 0 else if i < 13 then 1 else if i < 18 then 2 else if i < 23 then 3 else 4
  }

  /** The canonical text form `UUID.fromString` reads on its fast path:
      36 characters, dashes at the group boundaries, hexadecimal digits of
      either case elsewhere. */
  predicate IsCanonical(s: string) {
    |s| == TextLength &&
    forall i :: 0 <= i < TextLength ==> if IsDashPosition(i) then s[i] == '-' else IsHexChar(s[i])
  }

  /** `UUID.toString()`. */
  function FormatUuid(u: Uuid): (s: string)
    ensures IsCanonical(s)
    ensures forall i :: 0 <= i < |s| ==> LowerHex(s[i]) == s[i]
  {
    seq(TextLength, i requires 0 <= i < TextLength =>
      if IsDashPosition(i) then '-' else HexChar(u[NibbleIndex(i)]))
  }

  /** `UUID.fromString(s)`; `None` stands for the `IllegalArgumentException`
      it throws on malformed text. */
  function ParseUuid(s: string): (r: Option<Uuid>)
    ensures r.Some? <==> IsCanonical(s)
    ensures r.Some? ==> forall k :: 0 <= k < 32 ==> r.value[k] == HexValue(s[CharPosition(k)])
  {
    if IsCanonical(s) then Some(seq(32, k requires 0 <= k < 32 => HexValue(s[CharPosition(k)])))
    else None
  }

  /** Parsing the text of a UUID gives the UUID back. */
  lemma FormatThenParse(u: Uuid)
    ensures ParseUuid(FormatUuid(u)) == Some(u)
  {
    var s := FormatUuid(u);
    var v := ParseUuid(s).value;
    forall k | 0 <= k < 32 ensures v[k] == u[k] {
      assert s[CharPosition(k)] == HexChar(u[k]);
    }
    assert v == u;
  }

  /** Whatever text was parsed, `toString` of the result is that text in
      lower case. */
  lemma ParseThenFormat(s: string)
    requires ParseUuid(s).Some?
    ensures FormatUuid(ParseUuid(s).value) == seq(|s|, i requires 0 <= i < |s| => LowerHex(s[i]))
  {
    var u := ParseUuid(s).value;
    var t := FormatUuid(u);
    forall i | 0 <= i < TextLength ensures t[i] == LowerHex(s[i]) {
      if !IsDashPosition(i) {
        var k := NibbleIndex(i);
        assert u[k] == HexValue(s[i]);
      }
    }
  }

  /** Distinct UUIDs have distinct text, so id strings identify rows. */
  lemma FormatInjective(u: Uuid, v: Uuid)
    requires FormatUuid(u) == FormatUuid(v)
    ensures u == v
  {
    FormatThenParse(u);
    FormatThenParse(v);
  }
}
