/** SWHID texts, by the core identifier syntax of section 4 of ISO/IEC 18670. */
module Identifiers {
  import opened Wrappers
  import opened Text
  import opened Packets
  import opened DirectoryIds

  datatype ObjectType = Content | Directory | Revision | Release | Snapshot

  datatype Identifier = Identifier(objectType: ObjectType, digest: string)

  datatype SwhidError = Qualified | Malformed | WrongScheme | WrongVersion | UnknownType | InvalidDigest

  function TagOf(t: ObjectType): string {
    match t
    case Content => "cnt"
    case Directory => "dir"
    case Revision => "rev"
    case Release => "rel"
    case Snapshot => "snp"
  }

  function TypeOf(tag: string): Option<ObjectType> {
    if tag == "cnt" then Some(Content)
    else if tag == "dir" then Some(ObjectType.Directory)
    else if tag == "rev" then Some(Revision)
    else if tag == "rel" then Some(Release)
    else if tag == "snp" then Some(Snapshot)
    else None
  }

  predicate IsDigest(digest: string) {
    |digest| == 40 && forall i | 0 <= i < |digest| :: '0' <= digest[i] <= '9' || 'a' <= digest[i] <= 'f'
  }

  function Print(id: Identifier): string {
    Join(["swh", "1", TagOf(id.objectType), id.digest], ':')
  }

  function Parse(text: string): Result<Identifier, SwhidError> {
    if ';' in text then Err(Qualified)
    else
      var parts := Split(text, ':');
      if |parts| != 4 then Err(Malformed)
      else if parts[0] != "swh" then Err(WrongScheme)
      else if parts[1] != "1" then Err(WrongVersion)
      else
        var t := TypeOf(parts[2]);
        if t.None? then Err(UnknownType)
        else if !IsDigest(parts[3]) then Err(InvalidDigest)
        else Ok(Identifier(t.value, parts[3]))
  }

  /** A text parses to an identifier exactly when it is the identifier's printed form and the digest is
      forty lower-case hexadecimal digits: one text for each identifier, and no other is accepted. */
  lemma ParseExactlyPrint(text: string, id: Identifier)
    ensures Parse(text) == Ok(id) <==> text == Print(id) && IsDigest(id.digest)
  {
    if Parse(text) == Ok(id) {
      JoinSplit(text, ':');
      var parts := Split(text, ':');
      assert parts == [parts[0], parts[1], parts[2], parts[3]];
    }
    if text == Print(id) && IsDigest(id.digest) {
      var parts := ["swh", "1", TagOf(id.objectType), id.digest];
      assert forall p | p in parts :: ':' !in p;
      SplitJoin(parts, ':');
      NoQualifier(id);
    }
  }

  lemma NoQualifier(id: Identifier)
    requires IsDigest(id.digest)
    ensures ';' !in Print(id)
  {
    JoinAvoids(["swh", "1", TagOf(id.objectType), id.digest], ':', ';');
  }

  /** The characters of an identifier's text, by place. */
  predicate IsLiteral(text: string, objectType: ObjectType) {
    && |text| == 50 && text[..6] == "swh:1:" && text[9] == ':'
      && (forall k | 10 <= k < 50 :: text[k] in "0123456789abcdef")
    && match objectType
       case Content => text[6..9] == "cnt"
       case Directory => text[6..9] == "dir"
       case Revision => text[6..9] == "rev"
       case Release => text[6..9] == "rel"
       case Snapshot => text[6..9] == "snp"
  }

  /** Identifiers are texts of fifty characters, told by their characters alone. */
  lemma ParsesLiterally(text: string, id: Identifier)
    ensures Parse(text) == Ok(id) <==> IsLiteral(text, id.objectType) && id.digest == text[10..]
  {
    hide Parse, Print;
    ParseExactlyPrint(text, id);
    PrintedText(id);
    if text == Print(id) && IsDigest(id.digest) {
      SameText(text, id);
    }
    if IsLiteral(text, id.objectType) && id.digest == text[10..] {
      LiteralText(text, id);
    }
  }

  lemma LiteralDigest(digest: string, text: string)
    requires |text| == 50 && digest == text[10..] && forall k | 10 <= k < 50 :: text[k] in "0123456789abcdef"
    ensures IsDigest(digest)
  {
    forall i | 0 <= i < 40
      ensures '0' <= digest[i] <= '9' || 'a' <= digest[i] <= 'f'
    {
      HexDigits(text[i + 10]);
    }
  }

  lemma LiteralText(text: string, id: Identifier)
    requires IsLiteral(text, id.objectType) && id.digest == text[10..]
    ensures text == "swh:1:" + TagOf(id.objectType) + ":" + id.digest && IsDigest(id.digest)
  {
    hide IsDigest;
    LiteralDigest(text[10..], text);
    assert text == text[..6] + text[6..9] + [text[9]] + text[10..];
  }

  lemma HexDigits(c: char)
    ensures '0' <= c <= '9' || 'a' <= c <= 'f' <==> c in "0123456789abcdef"
  {
  }

  lemma PrintedText(id: Identifier)
    ensures Print(id) == "swh:1:" + TagOf(id.objectType) + ":" + id.digest
  {
    var tag := TagOf(id.objectType);
    JoinTwo("swh", ["1", tag, id.digest], ':');
    JoinTwo("1", [tag, id.digest], ':');
    JoinTwo(tag, [id.digest], ':');
    assert Join([id.digest], ':') == id.digest;
  }

  lemma JoinTwo(first: string, rest: seq<string>, sep: char)
    requires rest != []
    ensures Join([first] + rest, sep) == first + [sep] + Join(rest, sep)
  {
    assert ([first] + rest)[1..] == rest;
  }

  lemma SameText(text: string, id: Identifier)
    requires text == "swh:1:" + TagOf(id.objectType) + ":" + id.digest && IsDigest(id.digest)
    ensures IsLiteral(text, id.objectType) && text[10..] == id.digest
  {
    assert |TagOf(id.objectType)| == 3 && text[6..9] == TagOf(id.objectType);
    forall k | 10 <= k < 50
      ensures text[k] in "0123456789abcdef"
    {
      assert text[k] == id.digest[k - 10];
      HexDigits(text[k]);
    }
  }

  // ----- the identifier of a directory -----

  function HexDigit(n: nat): char
    requires n < 16
  {
    if n < 10 then '0' + n as char else 'a' + (n - 10) as char
  }

  function Hex(octets: Bytes): (s: string)
    ensures |s| == 2 * |octets|
    ensures forall i | 0 <= i < |s| :: '0' <= s[i] <= '9' || 'a' <= s[i] <= 'f'
  {
    if octets == [] then "" else [HexDigit(octets[0] / 16), HexDigit(octets[0] % 16)] + Hex(octets[1..])
  }

  lemma {:induction false} HexInjective(a: Bytes, b: Bytes)
    requires Hex(a) == Hex(b)
    ensures a == b
  {
    if a != [] {
      var s, t := Hex(a), Hex(b);
      assert s[0] == t[0] && s[1] == t[1];
      assert a[0] == b[0];
      assert s[2..] == Hex(a[1..]) && t[2..] == Hex(b[1..]);
      HexInjective(a[1..], b[1..]);
      assert a == [a[0]] + a[1..] && b == [b[0]] + b[1..];
    }
  }

  /** Two hexadecimal digits for each octet, the higher one first. */
  lemma {:induction false} HexByDigit(octets: Bytes, i: nat)
    requires i < |octets|
    ensures var digits := "0123456789abcdef";
            Hex(octets)[2 * i] == digits[octets[i] / 16] && Hex(octets)[2 * i + 1] == digits[octets[i] % 16]
  {
    if i > 0 {
      HexByDigit(octets[1..], i - 1);
    } else {
      DigitsOf(octets[0] / 16);
      DigitsOf(octets[0] % 16);
    }
  }

  lemma DigitsOf(n: nat)
    requires n < 16
    ensures HexDigit(n) == "0123456789abcdef"[n]
  {
  }

  function DirectoryId(h: Hash, entries: seq<Entry>): Identifier {
    Identifier(ObjectType.Directory, Hex(DirectoryDigest(h, entries)))
  }

  /** The printed identifier of a directory parses back, and two directories print the same identifier
      exactly when their canonical trees are equal, as long as no two of the objects hashed collide. */
  lemma DirectoryIdentifiesTree(h: Hash, a: seq<Entry>, b: seq<Entry>)
    requires WellFormed(a) && WellFormed(b)
    requires NoCollision(h, Objects(h, a) + Objects(h, b) + {ObjectBytes(TREE, [])})
    ensures Parse(Print(DirectoryId(h, a))) == Ok(DirectoryId(h, a))
    ensures Print(DirectoryId(h, a)) == Print(DirectoryId(h, b)) <==> CanonEntries(a) == CanonEntries(b)
  {
    hide Parse, Print, Objects, NoCollision, CanonEntries;
    ParseExactlyPrint(Print(DirectoryId(h, a)), DirectoryId(h, a));
    ParseExactlyPrint(Print(DirectoryId(h, b)), DirectoryId(h, b));
    DirectoryIdentity(h, a, b);
    if DirectoryId(h, a) == DirectoryId(h, b) {
      HexInjective(DirectoryDigest(h, a), DirectoryDigest(h, b));
    }
  }
}
