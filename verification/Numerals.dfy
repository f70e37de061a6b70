/** Numbers given by their bytes, lowest first. */
module Numerals {
  import opened Bits
  import opened Words

  /** A number with a further lowest digit in base 256. */
  function Join(lowest: nat, rest: nat): nat {
    lowest + 256 * rest
  }

  function Digit(b: byte, rest: nat): nat {
    Join(b as nat, rest)
  }

  /** The number of eight bytes, lowest first. */
  function Number(a: byte, b: byte, c: byte, d: byte, e: byte, f: byte, g: byte, h: byte): nat {
    Digit(a, Digit(b, Digit(c, Digit(d, Digit(e, Digit(f, Digit(g, Digit(h, 0))))))))
  }

  lemma XorBytes(a: byte, b: byte)
    ensures Xor(a as nat, b as nat) == (a ^ b) as nat
  {
    hide Xor, Val;
    ValIsNumber(a);
    ValIsNumber(b);
    ValIsNumber(a ^ b);
    XorVal(a, b);
  }

  lemma XorJoin(x: nat, n: nat, y: nat, m: nat)
    requires x < 256 && y < 256
    ensures Xor(Join(x, n), Join(y, m)) == Join(Xor(x, y), Xor(n, m))
  {
    hide Xor;
    XorDigits(x, n, y, m);
  }

  lemma XorDigit(a: byte, n: nat, b: byte, m: nat)
    ensures Xor(Digit(a, n), Digit(b, m)) == Digit(a ^ b, Xor(n, m))
  {
    hide Xor, Join;
    XorBytes(a, b);
    XorJoin(a as nat, n, b as nat, m);
  }

  /** Exclusive or of two numbers given by their bytes. */
  lemma XorNumbers(a: byte, b: byte, c: byte, d: byte, e: byte, f: byte, g: byte, h: byte,
                   a': byte, b': byte, c': byte, d': byte, e': byte, f': byte, g': byte, h': byte)
    ensures Xor(Number(a, b, c, d, e, f, g, h), Number(a', b', c', d', e', f', g', h')) ==
            Number(a ^ a', b ^ b', c ^ c', d ^ d', e ^ e', f ^ f', g ^ g', h ^ h')
  {
    hide Xor, Digit;
    var n, n' := Digit(h, 0), Digit(h', 0);
    var o, o' := Digit(g, n), Digit(g', n');
    var p, p' := Digit(f, o), Digit(f', o');
    var q, q' := Digit(e, p), Digit(e', p');
    var r, r' := Digit(d, q), Digit(d', q');
    var s, s' := Digit(c, r), Digit(c', r');
    var t, t' := Digit(b, s), Digit(b', s');
    XorZero(0);
    XorDigit(h, 0, h', 0);
    XorDigit(g, n, g', n');
    XorDigit(f, o, f', o');
    XorDigit(e, p, e', p');
    XorDigit(d, q, d', q');
    XorDigit(c, r, c', r');
    XorDigit(b, s, b', s');
    XorDigit(a, t, a', t');
  }

  lemma NextByte(s: seq<byte>, i: nat)
    requires i < |s|
    ensures LittleEndian(s[i..]) == Digit(s[i], LittleEndian(s[i + 1..]))
  {
    hide Val;
    ValIsNumber(s[i]);
    assert s[i..][1..] == s[i + 1..];
  }

  lemma NumberOfTail(s: seq<byte>)
    ensures LittleEndian(s[|s|..]) == 0 && s[0..] == s
  {}

  lemma NumberOfBytes(s: seq<byte>)
    requires |s| == 8
    ensures LittleEndian(s) == Number(s[0], s[1], s[2], s[3], s[4], s[5], s[6], s[7])
  {
    hide LittleEndian, Digit;
    NumberOfTail(s);
    NextByte(s, 0);
    NextByte(s, 1);
    NextByte(s, 2);
    NextByte(s, 3);
    NextByte(s, 4);
    NextByte(s, 5);
    NextByte(s, 6);
    NextByte(s, 7);
  }
}
