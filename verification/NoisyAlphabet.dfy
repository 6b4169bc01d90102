/** The alphabets of a noisy secret, and its checksum on strings. Characters are classified and
    numbered by arithmetic; `FieldTable` and `Base32Table` tie that to the program's tables. */
module NoisyAlphabet {
  import opened ReedSolomon

  const BASE37 := "0123456789_abcdefghijklmnopqrstuvwxyz"
  const BASE36 := "0123456789abcdefghijklmnopqrstuvwxyz"
  const BASE32 := "23456789abcdefghijkmnpqrstuvwxyz"
  const COMPONENT := "-0123456789abcdefghijklmnopqrstuvwxyz"

  predicate Base36(c: char) {
    '0' <= c <= '9' || 'a' <= c <= 'z'
  }

  predicate Base37(c: char) {
    Base36(c) || c == '_'
  }

  predicate Base32(c: char) {
    Base36(c) && c != '0' && c != '1' && c != 'l' && c != 'o'
  }

  predicate ComponentChar(c: char) {
    Base36(c) || c == '-'
  }

  lemma Alphabets(c: char)
    ensures Base37(c) <==> c in BASE37
    ensures Base36(c) <==> c in BASE36
    ensures Base32(c) <==> c in BASE32
    ensures ComponentChar(c) <==> c in COMPONENT
  {
    InBase37(c);
    InBase36(c);
    InBase32(c);
    InComponent(c);
  }

  lemma InBase37(c: char)
    ensures Base37(c) <==> c in BASE37
  {
  }

  lemma InBase36(c: char)
    ensures Base36(c) <==> c in BASE36
  {
  }

  lemma InBase32(c: char)
    ensures Base32(c) <==> c in BASE32
  {
  }

  lemma InComponent(c: char)
    ensures ComponentChar(c) <==> c in COMPONENT
  {
  }

  predicate OverBase37(s: string) {
    forall i | 0 <= i < |s| :: Base37(s[i])
  }

  predicate OverBase32(s: string) {
    forall i | 0 <= i < |s| :: Base32(s[i])
  }

  predicate OverComponent(s: string) {
    forall i | 0 <= i < |s| :: ComponentChar(s[i])
  }

  // ----- the two tables -----

  function SymbolOf(c: char): Symbol
    requires Base37(c)
  {
    if c <= '9' then c as int - '0' as int
    else if c == '_' then 10
    else c as int - 'a' as int + 11
  }

  function CharOf(n: Symbol): (c: char)
    ensures Base37(c) && SymbolOf(c) == n
  {
    if n < 10 then (n + '0' as int) as char
    else if n == 10 then '_'
    else (n - 11 + 'a' as int) as char
  }

  /** The numbering of the field is the position in its alphabet. */
  lemma FieldTable(n: Symbol)
    ensures |BASE37| == 37 && BASE37[n] == CharOf(n)
    ensures SymbolOf(BASE37[n]) == n
  {
  }

  /** The position of a character in the alphabet of 32, or -1. */
  function Base32Find(c: char): (i: int)
    ensures -1 <= i < 32
    ensures i == -1 <==> !Base32(c)
    ensures i == 0 <==> c == '2'
  {
    if !Base32(c) then -1
    else if c <= '9' then c as int - '2' as int
    else if c < 'l' then c as int - 'a' as int + 8
    else if c < 'o' then c as int - 'a' as int + 7
    else c as int - 'a' as int + 6
  }

  function Base32Char(i: nat): (c: char)
    requires i < 32
    ensures Base32(c) && Base32Find(c) == i
  {
    if i < 8 then (i + '2' as int) as char
    else if i < 19 then (i - 8 + 'a' as int) as char
    else if i < 21 then (i - 7 + 'a' as int) as char
    else (i - 6 + 'a' as int) as char
  }

  lemma Base32Table(i: nat)
    requires i < 32
    ensures |BASE32| == 32 && BASE32[i] == Base32Char(i)
    ensures Base32Find(BASE32[i]) == i
  {
  }

  // ----- checksums of strings -----

  function Symbols(s: string): (r: seq<Symbol>)
    requires OverBase37(s)
    ensures |r| == |s|
    ensures forall i | 0 <= i < |s| :: r[i] == SymbolOf(s[i])
  {
    seq<Symbol>(|s|, i requires 0 <= i < |s| => SymbolOf(s[i]))
  }

  function Chars(r: seq<Symbol>): (s: string)
    ensures |s| == |r| && OverBase37(s)
    ensures forall i | 0 <= i < |r| :: s[i] == CharOf(r[i])
  {
    seq(|r|, i requires 0 <= i < |r| => CharOf(r[i]))
  }

  lemma SymbolsOfChars(r: seq<Symbol>)
    ensures Symbols(Chars(r)) == r
  {
  }

  function Checksum(message: string): (c: string)
    requires OverBase37(message)
    ensures |c| == 4 && OverBase37(c)
  {
    Chars(ChecksumOf(Symbols(message)))
  }

  /** The checksum loop: the registers after the whole message. */
  method RunRegisters(message: string) returns (r0: int, r1: int, r2: int, r3: int)
    requires OverBase37(message)
    ensures Registers(r0, r1, r2, r3) == Run(Symbols(message))
  {
    r0, r1, r2, r3 := 0, 0, 0, 0;
    ghost var symbols := Symbols(message);
    for i := 0 to |message|
      invariant Registers(r0, r1, r2, r3) == Run(symbols[..i])
    {
      ghost var before := Registers(r0, r1, r2, r3);
      var feedback := (SymbolOf(message[i]) + r0) % 37;
      r0 := (r1 - feedback * 6) % 37;
      r1 := (r2 - feedback * 26) % 37;
      r2 := (r3 - feedback * 21) % 37;
      r3 := (-feedback * 3) % 37;
      assert Registers(r0, r1, r2, r3) == Turn(before, symbols[i]);
      assert symbols[..i + 1][..i] == symbols[..i];
    }
    assert symbols[..|message|] == symbols;
  }

  /** The checksum of a message is four symbols, and the ones that make the message a codeword. */
  method ComputeChecksum(message: string) returns (checksum: string)
    requires OverBase37(message)
    ensures checksum == Checksum(message)
    ensures |checksum| == 4 && OverBase37(checksum)
    ensures |BASE37| == 37 && forall i | 0 <= i < 4 :: checksum[i] == BASE37[ChecksumOf(Symbols(message))[i]]
    ensures IsCodeword(Symbols(message) + Symbols(checksum))
  {
    var r0, r1, r2, r3 := RunRegisters(message);
    var symbols := Negated(Registers(r0, r1, r2, r3));
    FieldTable(symbols[0]);
    FieldTable(symbols[1]);
    FieldTable(symbols[2]);
    FieldTable(symbols[3]);
    checksum := [BASE37[symbols[0]], BASE37[symbols[1]], BASE37[symbols[2]], BASE37[symbols[3]]];
    assert checksum == Chars(symbols);
    SymbolsOfChars(ChecksumOf(Symbols(message)));
    ChecksumCompletesCodeword(Symbols(message));
  }
}
