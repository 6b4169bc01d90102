/** Base64url without padding, as the fields of a seal are written (section 5 of RFC 4648), and the strict
    reading of it: a text is accepted only if it is the one that its octets encode to. */
module Base64Url {
  import opened Wrappers
  import opened Packets

  type Sextet = n: int | 0 <= n < 64

  function SextetChar(n: Sextet): char {
    if n < 26 then 'A' + n as char
    else if n < 52 then 'a' + (n - 26) as char
    else if n < 62 then '0' + (n - 52) as char
    else if n == 62 then '-' else '_'
  }

  /** The decoder also takes the two characters of plain base64 that base64url replaces. */
  function CharSextet(c: char): Option<Sextet> {
    if 'A' <= c <= 'Z' then Some((c - 'A') as int)
    else if 'a' <= c <= 'z' then Some((c - 'a') as int + 26)
    else if '0' <= c <= '9' then Some((c - '0') as int + 52)
    else if c == '-' || c == '+' then Some(62)
    else if c == '_' || c == '/' then Some(63)
    else None
  }

  function Pack(sextets: seq<Sextet>): string {
    seq(|sextets|, i requires 0 <= i < |sextets| => SextetChar(sextets[i]))
  }

  function Unpack(s: string): Option<seq<Sextet>> {
    if s == "" then Some([])
    else
      var first, rest := CharSextet(s[0]), Unpack(s[1..]);
      if first.None? || rest.None? then None else Some([first.value] + rest.value)
  }

  function ToSextets(octets: Bytes): seq<Sextet> {
    if octets == [] then []
    else
      var a := octets[0];
      if |octets| == 1 then [a / 4, a % 4 * 16]
      else
        var b := octets[1];
        if |octets| == 2 then [a / 4, a % 4 * 16 + b / 16, b % 16 * 4]
        else [a / 4, a % 4 * 16 + b / 16, b % 16 * 4 + octets[2] / 64, octets[2] % 64] + ToSextets(octets[3..])
  }

  /** Drops the bits that are left over at the end; a single sextet left over is an error. */
  function ToOctets(sextets: seq<Sextet>): Option<Bytes> {
    if sextets == [] then Some([])
    else if |sextets| == 1 then None
    else
      var a := sextets[0] as int * 4 + sextets[1] / 16;
      if |sextets| == 2 then Some([a])
      else
        var b := sextets[1] as int % 16 * 16 + sextets[2] / 4;
        if |sextets| == 3 then Some([a, b])
        else
          var rest := ToOctets(sextets[4..]);
          if rest.None? then None else Some([a, b, sextets[2] as int % 4 * 64 + sextets[3]] + rest.value)
  }

  function Encode(octets: Bytes): string {
    Pack(ToSextets(octets))
  }

  function Decode(text: string, size: nat): Option<Bytes> {
    var sextets := Unpack(text);
    if sextets.None? then None
    else
      var octets := ToOctets(sextets.value);
      if octets.None? || |octets.value| != size || Encode(octets.value) != text then None else octets
  }

  lemma {:induction false} UnpackPack(sextets: seq<Sextet>)
    ensures Unpack(Pack(sextets)) == Some(sextets)
  {
    if sextets != [] {
      UnpackPack(sextets[1..]);
      assert Pack(sextets)[1..] == Pack(sextets[1..]);
      assert CharSextet(SextetChar(sextets[0])) == Some(sextets[0]);
      assert sextets == [sextets[0]] + sextets[1..];
    }
  }

  lemma OctetsOfGroup(a: Octet, b: Octet, c: Octet)
    ensures (a / 4) * 4 + (a % 4 * 16 + b / 16) / 16 == a
    ensures (a % 4 * 16 + b / 16) % 16 * 16 + (b % 16 * 4 + c / 64) / 4 == b
    ensures (b % 16 * 4 + c / 64) % 4 * 64 + c % 64 == c
  {
  }

  lemma {:induction false} OctetsOfSextets(octets: Bytes)
    ensures ToOctets(ToSextets(octets)) == Some(octets)
  {
    if |octets| == 1 {
      OctetsOfGroup(octets[0], 0, 0);
      assert octets == [octets[0]];
    } else if |octets| == 2 {
      OctetsOfGroup(octets[0], octets[1], 0);
      assert octets == [octets[0], octets[1]];
    } else if |octets| > 2 {
      OctetsOfGroup(octets[0], octets[1], octets[2]);
      OctetsOfSextets(octets[3..]);
      assert ToSextets(octets)[4..] == ToSextets(octets[3..]);
      assert octets == [octets[0], octets[1], octets[2]] + octets[3..];
    }
  }

  /** A text decodes to some octets exactly when it is their encoding: no other spelling is taken. */
  lemma DecodeExactlyEncode(text: string, size: nat, octets: Bytes)
    ensures Decode(text, size) == Some(octets) <==> text == Encode(octets) && |octets| == size
  {
    UnpackPack(ToSextets(octets));
    OctetsOfSextets(octets);
  }

  // ----- the encoding, bit by bit -----

  const UPPER := "ABCDEFGHIJKLMNOPQRSTUVWXYZ"
  const LOWER := "abcdefghijklmnopqrstuvwxyz"
  const ALPHABET := UPPER + LOWER + "0123456789-_"

  /** The bits of the octets, the highest of each octet first, and zeros after the last. */
  function Bit(octets: Bytes, i: nat): nat {
    if i < 8 * |octets| then octets[i / 8] as int / [128, 64, 32, 16, 8, 4, 2, 1][i % 8] % 2 else 0
  }

  /** Six bits in a row. */
  function Six(octets: Bytes, k: nat): nat {
    var i := 6 * k;
    32 * Bit(octets, i) + 16 * Bit(octets, i + 1) + 8 * Bit(octets, i + 2) + 4 * Bit(octets, i + 3)
    + 2 * Bit(octets, i + 4) + Bit(octets, i + 5)
  }

  /** An octet by its bits. */
  lemma OctetBits(a: Octet)
    ensures a / 4 == 32 * (a / 128 % 2) + 16 * (a / 64 % 2) + 8 * (a / 32 % 2) + 4 * (a / 16 % 2) + 2 * (a / 8 % 2)
                     + a / 4 % 2
    ensures a % 4 == 2 * (a / 2 % 2) + a % 2
    ensures a / 16 == 8 * (a / 128 % 2) + 4 * (a / 64 % 2) + 2 * (a / 32 % 2) + a / 16 % 2
    ensures a % 16 == 8 * (a / 8 % 2) + 4 * (a / 4 % 2) + 2 * (a / 2 % 2) + a % 2
    ensures a / 64 == 2 * (a / 128 % 2) + a / 64 % 2
    ensures a % 64
      == 32 * (a / 32 % 2) + 16 * (a / 16 % 2) + 8 * (a / 8 % 2) + 4 * (a / 4 % 2) + 2 * (a / 2 % 2) + a % 2
  {
    Halves(a);
  }

  lemma Halves(a: Octet)
    ensures a == 2 * (a / 2) + a % 2 && a / 2 == 2 * (a / 4) + a / 2 % 2
    ensures a / 4 == 2 * (a / 8) + a / 4 % 2 && a / 8 == 2 * (a / 16) + a / 8 % 2
    ensures a / 16 == 2 * (a / 32) + a / 16 % 2 && a / 32 == 2 * (a / 64) + a / 32 % 2
    ensures a / 64 == 2 * (a / 128) + a / 64 % 2 && a / 128 == a / 128 % 2
  {
    assert a / 2 / 2 == a / 4 && a / 4 / 2 == a / 8 && a / 8 / 2 == a / 16;
    assert a / 16 / 2 == a / 32 && a / 32 / 2 == a / 64 && a / 64 / 2 == a / 128;
  }

  lemma BitOf(octets: Bytes, i: nat, j: nat)
    requires j < 8
    ensures Bit(octets, 8 * i + j)
            == if i < |octets| then octets[i] as int / [128, 64, 32, 16, 8, 4, 2, 1][j] % 2 else 0
  {
    assert (8 * i + j) / 8 == i && (8 * i + j) % 8 == j;
  }

  lemma BitShift(octets: Bytes, i: nat)
    requires |octets| > 2
    ensures Bit(octets, i + 24) == Bit(octets[3..], i)
  {
    BitOf(octets, i / 8 + 3, i % 8);
    BitOf(octets[3..], i / 8, i % 8);
    assert 8 * (i / 8 + 3) + i % 8 == i + 24 && 8 * (i / 8) + i % 8 == i;
  }

  lemma SixShift(octets: Bytes, k: nat)
    requires |octets| > 2
    ensures Six(octets, k + 4) == Six(octets[3..], k)
  {
    assert 6 * (k + 4) == 6 * k + 24;
    BitShift(octets, 6 * k);
    BitShift(octets, 6 * k + 1);
    BitShift(octets, 6 * k + 2);
    BitShift(octets, 6 * k + 3);
    BitShift(octets, 6 * k + 4);
    BitShift(octets, 6 * k + 5);
  }

  function OctetOr0(octets: Bytes, i: nat): Octet {
    if i < |octets| then octets[i] else 0
  }

  /** The eight bits of an octet, in their places. */
  lemma OctetAt(octets: Bytes, i: nat, a: Octet)
    requires a == OctetOr0(octets, i)
    ensures Bit(octets, 8 * i) == a / 128 % 2 && Bit(octets, 8 * i + 1) == a / 64 % 2
    ensures Bit(octets, 8 * i + 2) == a / 32 % 2 && Bit(octets, 8 * i + 3) == a / 16 % 2
    ensures Bit(octets, 8 * i + 4) == a / 8 % 2 && Bit(octets, 8 * i + 5) == a / 4 % 2
    ensures Bit(octets, 8 * i + 6) == a / 2 % 2 && Bit(octets, 8 * i + 7) == a % 2
  {
    hide Bit;
    BitOf(octets, i, 0);
    BitOf(octets, i, 1);
    BitOf(octets, i, 2);
    BitOf(octets, i, 3);
    BitOf(octets, i, 4);
    BitOf(octets, i, 5);
    BitOf(octets, i, 6);
    BitOf(octets, i, 7);
  }

  /** The bits of the first three octets, or of as many as there are. */
  lemma FirstBits(octets: Bytes, k: nat)
    requires k < 4
    ensures var a, b, c := OctetOr0(octets, 0), OctetOr0(octets, 1), OctetOr0(octets, 2);
            Six(octets, k) == [a / 4, a % 4 * 16 + b / 16, b % 16 * 4 + c / 64, c % 64][k]
  {
    if k == 0 {
      FirstSix(octets, OctetOr0(octets, 0));
    } else if k == 1 {
      SecondSix(octets, OctetOr0(octets, 0), OctetOr0(octets, 1));
    } else if k == 2 {
      ThirdSix(octets, OctetOr0(octets, 1), OctetOr0(octets, 2));
    } else {
      FourthSix(octets, OctetOr0(octets, 2));
    }
  }

  lemma FirstSix(octets: Bytes, a: Octet)
    requires a == OctetOr0(octets, 0)
    ensures Six(octets, 0) == a / 4
  {
    hide Bit;
    OctetAt(octets, 0, a);
    OctetBits(a);
  }

  lemma SecondSix(octets: Bytes, a: Octet, b: Octet)
    requires a == OctetOr0(octets, 0) && b == OctetOr0(octets, 1)
    ensures Six(octets, 1) == a % 4 * 16 + b / 16
  {
    hide Bit;
    OctetAt(octets, 0, a);
    OctetAt(octets, 1, b);
    OctetBits(a);
    OctetBits(b);
  }

  lemma ThirdSix(octets: Bytes, b: Octet, c: Octet)
    requires b == OctetOr0(octets, 1) && c == OctetOr0(octets, 2)
    ensures Six(octets, 2) == b % 16 * 4 + c / 64
  {
    hide Bit;
    OctetAt(octets, 1, b);
    OctetAt(octets, 2, c);
    OctetBits(b);
    OctetBits(c);
  }

  lemma FourthSix(octets: Bytes, c: Octet)
    requires c == OctetOr0(octets, 2)
    ensures Six(octets, 3) == c % 64
  {
    hide Bit;
    OctetAt(octets, 2, c);
    OctetBits(c);
  }

  lemma {:induction false} SextetsAreBits(octets: Bytes, k: nat)
    requires k < |ToSextets(octets)|
    ensures ToSextets(octets)[k] == Six(octets, k)
  {
    if k < 4 {
      FirstBits(octets, k);
    } else {
      SextetsAreBits(octets[3..], k - 4);
      SixShift(octets, k - 4);
    }
  }

  lemma {:induction false} SextetCount(octets: Bytes)
    ensures |ToSextets(octets)| == (8 * |octets| + 5) / 6
  {
    if |octets| > 2 {
      SextetCount(octets[3..]);
    }
  }

  lemma AlphabetOf(n: Sextet)
    ensures |ALPHABET| == 64 && SextetChar(n) == ALPHABET[n]
  {
    assert |UPPER| == 26 && |LOWER| == 26;
    if n < 26 {
      UpperAt(n);
    } else if n < 52 {
      LowerAt(n - 26);
    } else {
      assert ALPHABET[n] == "0123456789-_"[n - 52];
      RestAt(n - 52);
    }
  }

  lemma UpperAt(n: nat)
    requires n < 26
    ensures UPPER[n] == 'A' + n as char
  {
  }

  lemma LowerAt(n: nat)
    requires n < 26
    ensures LOWER[n] == 'a' + n as char
  {
  }

  lemma RestAt(n: nat)
    requires n < 12
    ensures "0123456789-_"[n] == if n < 10 then '0' + n as char else if n == 10 then '-' else '_'
  {
  }

  /** The encoding spells six bits with each character, and as few characters as that takes. */
  lemma EncodesBits(octets: Bytes)
    ensures |ALPHABET| == 64 && |Encode(octets)| == (8 * |octets| + 5) / 6
    ensures forall k: nat | k < |Encode(octets)| :: Six(octets, k) < 64 && Encode(octets)[k] == ALPHABET[Six(octets, k)]
  {
    SextetCount(octets);
    AlphabetOf(0);
    forall k: nat | k < |Encode(octets)|
      ensures Six(octets, k) < 64 && Encode(octets)[k] == ALPHABET[Six(octets, k)]
    {
      SextetsAreBits(octets, k);
      AlphabetOf(ToSextets(octets)[k]);
    }
  }
}
