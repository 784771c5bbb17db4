/**
 * The Caesar cipher of encrypt.c (`caesar_encrypt` / `caesar_decrypt`):
 * ASCII letters rotate within their case by a shift reduced to 0..25, every
 * other byte is copied.
 */
module Caesar {
  import opened Wrappers
  import opened Bytes

  /** C `int`. */
  newtype int32 = x: int | -0x8000_0000 <= x < 0x8000_0000

  const INT32_MIN: int32 := -0x8000_0000

  const LOWER_A: byte := 97
  const LOWER_Z: byte := 122
  const UPPER_A: byte := 65
  const UPPER_Z: byte := 90

  predicate IsLower(c: byte) { LOWER_A <= c <= LOWER_Z }
  predicate IsUpper(c: byte) { UPPER_A <= c <= UPPER_Z }

  /** C's `%` for a positive divisor: the remainder takes the sign of the dividend. */
  function CRem(a: int, n: int): (r: int)
    requires n > 0
    ensures -n < r < n
    ensures a >= 0 ==> 0 <= r
    ensures a <= 0 ==> r <= 0
  {
    if a >= 0 then a % n else -((-a) % n)
  }

  /** Lines 45-49: the shift brought into 0..25; it agrees with the mathematical residue. */
  function Normalize(shift: int32): (r: int)
    ensures 0 <= r < 26
    ensures r == (shift as int) % 26
  {
    var s := CRem(shift as int, 26);
    if s < 0 then s + 26 else s
  }

  /** A letter's place in the alphabet moved on by `s`, wrapping after 25. */
  function Advance(place: int, s: int): (r: int)
    requires 0 <= place < 26 && 0 <= s < 26
    ensures 0 <= r < 26
  {
    (place + s) % 26
  }

  /** Lines 58-65: one byte under a normalized shift. */
  function Rotate(c: byte, s: int): (r: byte)
    requires 0 <= s < 26
  {
    if IsLower(c) then LOWER_A + Advance((c - LOWER_A) as int, s) as byte
    else if IsUpper(c) then UPPER_A + Advance((c - UPPER_A) as int, s) as byte
    else c
  }

  /** What `caesar_encrypt` returns: NULL (None) for a NULL or empty input. */
  function CaesarSpec(input: Option<seq<byte>>, shift: int32): Option<seq<byte>> {
    if input.None? || |input.value| == 0 then None
    else
      var x, s := input.value, Normalize(shift);
      Some(seq(|x|, i requires 0 <= i < |x| => Rotate(x[i], s)))
  }

  /** `caesar_encrypt`: the shift is normalized, then each byte is written to a fresh buffer. */
  method CaesarEncrypt(input: Option<seq<byte>>, shift: int32) returns (r: Option<seq<byte>>)
    ensures r == CaesarSpec(input, shift)
  {
    if input.None? || |input.value| == 0 {
      return None;
    }
    var x := input.value;
    var s := shift as int;
    s := if s >= 0 then s % 26 else -((-s) % 26);
    if s < 0 {
      s := s + 26;
    }
    var output := new byte[|x| + 1];
    for i := 0 to |x|
      invariant forall j :: 0 <= j < i ==> output[j] == Rotate(x[j], s)
    {
      var c := x[i];
      if LOWER_A <= c <= LOWER_Z {
        output[i] := LOWER_A + (((c - LOWER_A) as int + s) % 26) as byte;
      } else if UPPER_A <= c <= UPPER_Z {
        output[i] := UPPER_A + (((c - UPPER_A) as int + s) % 26) as byte;
      } else {
        output[i] := c;
      }
    }
    output[|x|] := NUL;
    r := Some(output[..|x|]);
    assert r.value == CaesarSpec(input, shift).value;
  }

  /**
   * `caesar_decrypt` is `caesar_encrypt` with the shift negated; negating
   * INT_MIN overflows a C `int`, so that one shift is excluded.
   */
  method CaesarDecrypt(input: Option<seq<byte>>, shift: int32) returns (r: Option<seq<byte>>)
    requires shift != INT32_MIN
    ensures r == CaesarSpec(input, -shift)
  {
    r := CaesarEncrypt(input, -shift);
  }

  /** A rotated byte stays in its class: lower case, upper case, or untouched. */
  lemma RotateClasses(c: byte, s: int)
    requires 0 <= s < 26
    ensures IsLower(c) <==> IsLower(Rotate(c, s))
    ensures IsUpper(c) <==> IsUpper(Rotate(c, s))
    ensures !IsLower(c) && !IsUpper(c) ==> Rotate(c, s) == c
    ensures s == 0 ==> Rotate(c, s) == c
  {
  }

  lemma AdvanceCompose(place: int, a: int, b: int)
    requires 0 <= place < 26 && 0 <= a < 26 && 0 <= b < 26
    ensures Advance(Advance(place, a), b) == Advance(place, (a + b) % 26)
  {
    var p, q := place + a, a + b;
    WrapOnce(p);
    WrapOnce(q);
    WrapOnce(p % 26 + b);
    WrapOnce(place + q % 26);
  }

  lemma WrapOnce(x: int)
    requires 0 <= x < 52
    ensures x % 26 == if x < 26 then x else x - 26
  {
  }

  /** Two rotations are one rotation by the sum of the shifts. */
  lemma RotateCompose(c: byte, a: int, b: int)
    requires 0 <= a < 26 && 0 <= b < 26
    ensures Rotate(Rotate(c, a), b) == Rotate(c, (a + b) % 26)
  {
    if IsLower(c) {
      AdvanceCompose((c - LOWER_A) as int, a, b);
      assert Rotate(c, a) - LOWER_A == Advance((c - LOWER_A) as int, a) as byte;
    } else if IsUpper(c) {
      AdvanceCompose((c - UPPER_A) as int, a, b);
      assert Rotate(c, a) - UPPER_A == Advance((c - UPPER_A) as int, a) as byte;
    }
  }

  /** Shifts that differ by a multiple of 26 encrypt alike. */
  lemma ShiftPeriodic(input: Option<seq<byte>>, shift: int32, other: int32)
    requires (shift as int - other as int) % 26 == 0
    ensures CaesarSpec(input, shift) == CaesarSpec(input, other)
  {
  }

  /** Decryption undoes encryption whenever encryption succeeds. */
  lemma {:induction false} CaesarRoundTrip(input: Option<seq<byte>>, shift: int32)
    requires shift != INT32_MIN && CaesarSpec(input, shift).Some?
    ensures CaesarSpec(CaesarSpec(input, shift), -shift) == input
  {
    var x, a, b := input.value, Normalize(shift), Normalize(-shift);
    assert (a + b) % 26 == 0;
    var y := CaesarSpec(input, shift).value;
    forall i | 0 <= i < |x|
      ensures Rotate(y[i], b) == x[i]
    {
      RotateCompose(x[i], a, b);
      RotateClasses(x[i], 0);
    }
    var z := CaesarSpec(Some(y), -shift).value;
    assert z == x;
  }

  /** Encryption succeeds exactly on a non-empty input and keeps its length and its non-letters. */
  lemma CaesarSpecFacts(input: Option<seq<byte>>, shift: int32)
    ensures CaesarSpec(input, shift).Some? <==> input.Some? && |input.value| > 0
    ensures CaesarSpec(input, shift).Some? ==>
      var x, y := input.value, CaesarSpec(input, shift).value;
      |y| == |x| && forall i :: 0 <= i < |x| && !IsLower(x[i]) && !IsUpper(x[i]) ==> y[i] == x[i]
  {
  }
}
