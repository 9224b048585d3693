/** The shifts and masks of the escape sequences, on 8-bit words, and what they amount to. */
module EscapeBits {
  import opened Common

  lemma {:induction false} WordFor(c: nat) returns (a: bv8)
    requires c < 256
    ensures a as int == c
  {
    if c == 0 {
      a := 0;
    } else {
      var b := WordFor(c - 1);
      assert b < 255;
      a := b + 1;
    }
  }

  lemma WordAgain(a: bv8)
    ensures (a as int) as bv8 == a
  {
  }

  lemma WordOf(c: Byte)
    ensures (c as bv8) as int == c
  {
    var a := WordFor(c);
    WordAgain(a);
  }

  // ----- the second and third byte of a sequence -----

  lemma ThirdWord(a: bv8)
    requires a < 0x80
    ensures (0x80 | (a & 0x3f)) as int == if a < 64 then 0x80 + a as int else 0x40 + a as int
  {
    if a < 64 {
      assert (0x80 | (a & 0x3f)) == 0x80 + a;
      assert (0x80 + a) as int == 0x80 + a as int;
    } else {
      assert (0x80 | (a & 0x3f)) == 0x40 + a;
      assert (0x40 + a) as int == 0x40 + a as int;
    }
  }

  /** `0x80 | (c >> 6)`: the top bits of a character. */
  method EncodeSecond(c: Byte) returns (r: Byte)
    requires c < 0x80
    ensures r == if c < 64 then 0x80 else 0x81
  {
    var a := c as bv8;
    WordOf(c);
    assert (0x80 | (a >> 6)) == if a < 64 then 0x80 else 0x81;
    r := (0x80 | (a >> 6)) as int;
  }

  /** `0x80 | (c & 0x3f)`: its six low bits. */
  method EncodeThird(c: Byte) returns (r: Byte)
    requires c < 0x80
    ensures r == if c < 64 then 0x80 + c else 0x40 + c
  {
    var a := c as bv8;
    WordOf(c);
    ThirdWord(a);
    r := (0x80 | (a & 0x3f)) as int;
  }

  // ----- the way back -----

  method HasHighBit(c: Byte) returns (r: bool)
    ensures r <==> c >= 0x80
  {
    var a := c as bv8;
    WordOf(c);
    assert a & 0x80 != 0 <==> a >= 0x80;
    r := a & 0x80 != 0;
  }

  function DecodedWord(second: bv8, third: bv8): bv8 {
    (second << 6) | (third & 0x3f)
  }

  lemma LowTwo(a: bv8) returns (q: bv8)
    ensures q == a % 4 && q < 4 && q as int == a as int % 4
  {
    q := a % 4;
  }

  lemma LowSix(a: bv8) returns (q: bv8)
    ensures q == a % 64 && q < 64 && q as int == a as int % 64
  {
    q := a % 64;
  }

  lemma ShiftAndMask(a: bv8, b: bv8)
    ensures DecodedWord(a, b) == (a % 4) * 64 + b % 64
  {
  }

  /** No carry. */
  lemma SumOf(d: bv8, q: bv8, y: bv8)
    requires q < 4 && y < 64 && d == q * 64 + y
    ensures d as int == q as int * 64 + y as int
  {
    if q == 0 {
      assert d == y;
    } else if q == 1 {
      assert d == 64 + y;
    } else if q == 2 {
      assert d == 128 + y;
    } else {
      assert q == 3 && d == 192 + y;
    }
  }

  /** Shifting an 8-bit word by six keeps its two low bits. */
  lemma DecodedWordIs(a: bv8, b: bv8)
    ensures DecodedWord(a, b) as int == a as int % 4 * 64 + b as int % 64
  {
    var q := LowTwo(a);
    var y := LowSix(b);
    ShiftAndMask(a, b);
    SumOf(DecodedWord(a, b), q, y);
  }

  /** `(second << 6) | (third & 0x3f)` in a char: of the second byte only the two low bits stay. */
  method Decode(second: Byte, third: Byte) returns (r: Byte)
    ensures r == second % 4 * 64 + third % 64
  {
    WordOf(second);
    WordOf(third);
    DecodedWordIs(second as bv8, third as bv8);
    r := DecodedWord(second as bv8, third as bv8) as int;
  }
}
