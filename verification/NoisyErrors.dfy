/** Which mistakes in a noisy secret are always caught. */
module NoisyErrors {
  import opened ReedSolomon
  import opened NoisyAlphabet
  import opened Namespaces
  import opened NoisySecrets

  /** The codeword of one lane, as characters: its message and its checksum. */
  function LaneWord(namespace: string, payload: string, odd: bool): (w: string)
    requires Encodable(namespace, payload)
    ensures |w| == 36 && OverBase37(w)
  {
    MessageOver(namespace, payload, odd);
    Message(namespace, payload, odd) + LaneChecksum(namespace, payload, odd)
  }

  function Index(k: nat, odd: bool): nat {
    2 * k + if odd then 1 else 0
  }

  /** Where symbol i of padded namespace, payload and checksum stands in the secret.
      Padding symbols, those from the namespace length up to 32, stand nowhere. */
  function Position(n: nat, i: nat): nat {
    if i < n then 7 + i else if i < 32 then 0 else n + i - 24
  }

  predicate IsPadding(n: nat, i: nat) {
    n <= i < 32
  }

  lemma TagAt(namespace: string, payload: string)
    requires Encodable(namespace, payload)
    ensures var v, n := Tag(namespace, payload), |namespace|;
            v[7..n + 7] == namespace && v[n + 8..n + 40] == payload
            && v[n + 40..]
              == Interleaved(LaneChecksum(namespace, payload, false), LaneChecksum(namespace, payload, true))
            && v[..7] == "secret_" && v[n + 7] == '_'
  {
    Slices(namespace, payload,
           Interleaved(LaneChecksum(namespace, payload, false), LaneChecksum(namespace, payload, true)));
  }

  lemma LaneWordAt(namespace: string, payload: string, odd: bool, k: nat)
    requires Encodable(namespace, payload) && k < 36
    ensures var i, n := Index(k, odd), |namespace|;
            LaneWord(namespace, payload, odd)[k]
              == if IsPadding(n, i) then '_' else Tag(namespace, payload)[Position(n, i)]
  {
    TagAt(namespace, payload);
    MessageOver(namespace, payload, odd);
    PlaceOf(Tag(namespace, payload), namespace, payload,
            LaneChecksum(namespace, payload, false), LaneChecksum(namespace, payload, true), odd, k);
  }

  lemma PlaceOf(v: string, namespace: string, payload: string, even: string, other: string, odd: bool, k: nat)
    requires |namespace| <= 32 && |payload| == 32 && |even| == |other| == 4 && |v| == |namespace| + 48 && k < 36
    requires var n := |namespace|; v[7..n + 7] == namespace && v[n + 8..n + 40] == payload
    requires v[|namespace| + 40..] == Interleaved(even, other)
    ensures var i, n := Index(k, odd), |namespace|;
            (Message(namespace, payload, odd) + if odd then other else even)[k]
            == if IsPadding(n, i) then '_' else v[Position(n, i)]
  {
    hide Message, Padded, Interleaved, Position;
    MessageAt(namespace, payload, odd, if k < 32 then k else 0);
    if k < 32 {
      MessagePlace(v, namespace, payload, Index(k, odd));
    } else {
      CheckPlace(v, |namespace|, even, other, odd, k - 32);
    }
  }

  lemma MessagePlace(v: string, namespace: string, payload: string, i: nat)
    requires |namespace| <= 32 && |payload| == 32 && |v| == |namespace| + 48 && i < 64
    requires var n := |namespace|; v[7..n + 7] == namespace && v[n + 8..n + 40] == payload
    ensures var n := |namespace|;
            (if i < 32 then Padded(namespace)[i] else payload[i - 32])
              == if IsPadding(n, i) then '_' else v[Position(n, i)]
  {
    var n := |namespace|;
    if i < n {
      assert v[7..n + 7][i] == v[7 + i];
      assert Padded(namespace)[i] == Padded(namespace)[..n][i];
    } else if 32 <= i {
      assert v[n + 8..n + 40][i - 32] == v[n + i - 24];
    }
  }

  lemma CheckPlace(v: string, n: nat, even: string, other: string, odd: bool, j: nat)
    requires n <= 32 && |even| == |other| == 4 && |v| == n + 48 && j < 4
    requires v[n + 40..] == Interleaved(even, other)
    ensures (if odd then other else even)[j] == v[Position(n, Index(j + 32, odd))]
  {
    var i := Index(j, odd);
    assert v[n + 40..][i] == v[n + 40 + i];
    assert Interleaved(even, other)[i] == if odd then other[j] else even[j];
  }

  lemma LaneAt(s: string, odd: bool, k: nat)
    requires |s| == 32 && k < 16
    ensures |Lane(s, odd)| == 16 && Lane(s, odd)[k] == s[Index(k, odd)]
  {
  }

  lemma MessageAt(namespace: string, payload: string, odd: bool, k: nat)
    requires |namespace| <= 32 && |payload| == 32 && k < 32
    ensures var i := Index(k, odd);
            |Message(namespace, payload, odd)| == 32
            && Message(namespace, payload, odd)[k] == if i < 32 then Padded(namespace)[i] else payload[i - 32]
  {
    hide Padded, Lane;
    LaneAt(Padded(namespace), odd, k % 16);
    LaneAt(payload, odd, k % 16);
  }

  lemma SymbolsDiffer(u: string, v: string)
    requires |u| == |v| && OverBase37(u) && OverBase37(v)
    ensures Differing(Symbols(u), Symbols(v)) == Differing(u, v)
  {
    forall i: nat | i < |u|
      ensures Differs(Symbols(u), Symbols(v), i) <==> Differs(u, v, i)
    {
    }
  }

  lemma LaneIsCodeword(namespace: string, payload: string, odd: bool)
    requires Encodable(namespace, payload)
    ensures IsCodeword(Symbols(LaneWord(namespace, payload, odd)))
  {
    MessageOver(namespace, payload, odd);
    var m := Symbols(Message(namespace, payload, odd));
    ChecksumCompletesCodeword(m);
    SymbolsOfChars(ChecksumOf(m));
    assert Symbols(LaneWord(namespace, payload, odd)) == m + ChecksumOf(m);
  }

  // ----- what verifies -----

  /** The word that a value spells in one lane, with its namespace padded to 32 characters. */
  function Spelled(v: string, odd: bool): (w: string)
    requires 48 <= |v| <= 80
    ensures |w| == 36
  {
    var n := |v| - 48;
    seq(36, k requires 0 <= k < 36 =>
      var i := 2 * k + if odd then 1 else 0;
      if i < n then v[7 + i] else if i < 32 then '_' else v[n + i - 24])
  }

  /** It is a word of the code. */
  predicate SpellsCodeword(v: string, odd: bool)
    requires 48 <= |v| <= 80
  {
    OverBase37(Spelled(v, odd)) && IsCodeword(Symbols(Spelled(v, odd)))
  }

  lemma SpelledIsLane(v: string, namespace: string, payload: string, odd: bool)
    requires Encodable(namespace, payload) && v == Tag(namespace, payload)
    ensures Spelled(v, odd) == LaneWord(namespace, payload, odd)
  {
    hide Tag, LaneWord, OverBase37;
    forall k: nat | k < 36
      ensures Spelled(v, odd)[k] == LaneWord(namespace, payload, odd)[k]
    {
      LaneWordAt(namespace, payload, odd, k);
    }
  }

  lemma SpelledParts(v: string, namespace: string, payload: string, odd: bool)
    requires |namespace| <= 32 && |payload| == 32 && |v| == |namespace| + 48
    requires var n := |namespace|; v[7..n + 7] == namespace && v[n + 8..n + 40] == payload
    ensures Spelled(v, odd)[..32] == Message(namespace, payload, odd)
    ensures v[|namespace| + 40..] == Interleaved(Spelled(v, false)[32..], Spelled(v, true)[32..])
  {
    hide Message;
    var even, other := Spelled(v, false)[32..], Spelled(v, true)[32..];
    assert v[|namespace| + 40..] == Interleaved(even, other);
    MessageAt(namespace, payload, odd, 0);
    forall k: nat | k < 32
      ensures Spelled(v, odd)[k] == Message(namespace, payload, odd)[k]
    {
      PlaceOf(v, namespace, payload, even, other, odd, k);
    }
  }

  lemma CodewordEnds(w: string)
    requires |w| == 36 && OverBase37(w) && IsCodeword(Symbols(w))
    ensures w[32..] == Checksum(w[..32])
  {
    hide ChecksumOf, IsCodeword;
    var symbols := Symbols(w);
    CodewordsAreChecksummed(symbols);
    assert Symbols(w[..32]) == symbols[..32];
    forall i | 0 <= i < 4
      ensures w[32 + i] == CharOf(symbols[32..][i])
    {
      CharOfSymbol(w[32 + i]);
    }
  }

  lemma CharOfSymbol(c: char)
    requires Base37(c)
    ensures CharOf(SymbolOf(c)) == c
  {
  }

  /** The layout of a secret, with 32 payload symbols, and a codeword in each lane. */
  predicate SpellsSecret(v: string) {
    49 <= |v| <= 80
    && var n := |v| - 48;
       && v[..7] == "secret_" && IsNamespaceString(v[7..n + 7]) && v[n + 7] == '_' && OverBase32(v[n + 8..n + 40])
       && SpellsCodeword(v, false) && SpellsCodeword(v, true)
  }

  /** A value verifies exactly when it is laid out as a secret and both words interleaved in it are codewords. */
  lemma VerifiesExactly(v: string)
    ensures Verify(v) <==> SpellsSecret(v)
  {
    hide Tag, Verify;
    if Verify(v) {
      var namespace, payload := VerifiedParts(v);
      TagIsLaidOut(v, namespace, payload);
    }
    if SpellsSecret(v) {
      LaidOutIsTag(v, v[7..|v| - 41], v[|v| - 40..|v| - 8]);
      TagVerifies(v, v[7..|v| - 41], v[|v| - 40..|v| - 8]);
    }
  }

  lemma TagIsLaidOut(v: string, namespace: string, payload: string)
    requires IsTagOf(v, namespace, payload)
    ensures SpellsSecret(v)
  {
    hide Tag, IsNamespaceString, IsCodeword, Spelled, OverBase37, LaneWord;
    TagAt(namespace, payload);
    NamespaceShape(namespace);
    SpelledIsLane(v, namespace, payload, false);
    SpelledIsLane(v, namespace, payload, true);
    LaneIsCodeword(namespace, payload, false);
    LaneIsCodeword(namespace, payload, true);
  }

  lemma LaidOutIsTag(v: string, namespace: string, payload: string)
    requires SpellsSecret(v) && namespace == v[7..|v| - 41] && payload == v[|v| - 40..|v| - 8]
    ensures IsTagOf(v, namespace, payload)
  {
    hide Spelled, Interleaved, IsNamespaceString, IsCodeword, Checksum;
    NamespaceShape(namespace);
    var sum := v[|v| - 8..];
    SpelledParts(v, namespace, payload, false);
    SpelledParts(v, namespace, payload, true);
    CodewordEnds(Spelled(v, false));
    CodewordEnds(Spelled(v, true));
    assert v == v[..7] + namespace + [v[|v| - 41]] + payload + sum;
    assert sum == Interleaved(LaneChecksum(namespace, payload, false), LaneChecksum(namespace, payload, true));
  }

  // ----- distance -----

  lemma CodeStringsFarApart(u: string, v: string)
    requires |u| == |v| == 36 && OverBase37(u) && OverBase37(v) && u != v
    requires IsCodeword(Symbols(u)) && IsCodeword(Symbols(v))
    ensures |Differing(u, v)| >= 5
  {
    SymbolsDiffer(u, v);
    var i :| 0 <= i < 36 && u[i] != v[i];
    assert SymbolOf(u[i]) != SymbolOf(v[i]);
    assert Symbols(u)[i] != Symbols(v)[i];
    CodewordDistance(Symbols(u), Symbols(v));
  }

  /** Two lanes of the same parity are equal or five symbols apart. */
  lemma LanesFarApart(n1: string, p1: string, n2: string, p2: string, odd: bool)
    requires Encodable(n1, p1) && Encodable(n2, p2)
    ensures var u, v := LaneWord(n1, p1, odd), LaneWord(n2, p2, odd); u == v || |Differing(u, v)| >= 5
  {
    var u, v := LaneWord(n1, p1, odd), LaneWord(n2, p2, odd);
    if u != v {
      LaneIsCodeword(n1, p1, odd);
      LaneIsCodeword(n2, p2, odd);
      CodeStringsFarApart(u, v);
    }
  }

  /** Different secrets of the same shape differ in one of their lanes. */
  lemma SomeLaneDiffers(n1: string, p1: string, n2: string, p2: string)
    requires Encodable(n1, p1) && Encodable(n2, p2) && |n1| == |n2|
    requires Tag(n1, p1) != Tag(n2, p2)
    ensures exists odd :: LaneWord(n1, p1, odd) != LaneWord(n2, p2, odd)
  {
    var u, v, n := Tag(n1, p1), Tag(n2, p2), |n1|;
    var j :| 0 <= j < |u| && u[j] != v[j];
    TagAt(n1, p1);
    TagAt(n2, p2);
    assert u[..7] == v[..7];
    assert j >= 7 && j != n + 7;
    var i := if j < n + 7 then j - 7 else j - n + 24;
    var k, odd := i / 2, i % 2 == 1;
    assert Index(k, odd) == i && Position(n, i) == j && !IsPadding(n, i);
    LaneWordAt(n1, p1, odd, k);
    LaneWordAt(n2, p2, odd, k);
  }

  lemma {:induction false} InjectiveImage(s: set<nat>, f: nat -> nat, t: set<nat>)
    requires forall x | x in s :: f(x) in t
    requires forall x, y | x in s && y in s && x != y :: f(x) != f(y)
    ensures |s| <= |t|
    decreases s
  {
    if s != {} {
      var x :| x in s;
      InjectiveImage(s - {x}, f, t - {f(x)});
    }
  }

  /** Where two lanes differ, so do the secrets, and the places are at least two apart. */
  lemma LaneDifferencePlaces(n1: string, p1: string, n2: string, p2: string, odd: bool, k: nat)
    requires Encodable(n1, p1) && Encodable(n2, p2) && |n1| == |n2|
    requires k in Differing(LaneWord(n1, p1, odd), LaneWord(n2, p2, odd))
    ensures !IsPadding(|n1|, Index(k, odd))
    ensures Position(|n1|, Index(k, odd)) in Differing(Tag(n1, p1), Tag(n2, p2))
  {
    LaneWordAt(n1, p1, odd, k);
    LaneWordAt(n2, p2, odd, k);
    var u, v := LaneWord(n1, p1, odd), LaneWord(n2, p2, odd);
    assert u[k] != v[k];
    DifferAt(Tag(n1, p1), Tag(n2, p2), Position(|n1|, Index(k, odd)));
  }

  lemma DifferAt(u: string, v: string, i: nat)
    requires i < |u| && i < |v| && u[i] != v[i]
    ensures i in Differing(u, v)
  {
    assert Differs(u, v, i);
  }

  /** Two different secrets differ, in one lane, in at least five places of the text. */
  lemma TagsFarApart(n1: string, p1: string, n2: string, p2: string) returns (odd: bool, d: set<nat>)
    requires Encodable(n1, p1) && Encodable(n2, p2) && |n1| == |n2|
    requires Tag(n1, p1) != Tag(n2, p2)
    ensures |d| >= 5
    ensures forall k | k in d :: !IsPadding(|n1|, Index(k, odd))
                              && Position(|n1|, Index(k, odd)) in Differing(Tag(n1, p1), Tag(n2, p2))
  {
    SomeLaneDiffers(n1, p1, n2, p2);
    odd :| LaneWord(n1, p1, odd) != LaneWord(n2, p2, odd);
    LanesFarApart(n1, p1, n2, p2, odd);
    d := Differing(LaneWord(n1, p1, odd), LaneWord(n2, p2, odd));
    forall k | k in d {
      LaneDifferencePlaces(n1, p1, n2, p2, odd, k);
    }
  }

  lemma VerifiedParts(v: string) returns (namespace: string, payload: string)
    requires Verify(v)
    ensures IsTagOf(v, namespace, payload) && |namespace| == |v| - 48
  {
    VerifyExact(v);
    namespace, payload :| IsTagOf(v, namespace, payload);
  }

  /** Places of one lane's symbols are distinct, and at least two apart. */
  lemma CountPlaces(d: set<nat>, n: nat, odd: bool, places: set<nat>)
    requires forall k | k in d :: !IsPadding(n, Index(k, odd)) && Position(n, Index(k, odd)) in places
    ensures |d| <= |places|
  {
    InjectiveImage(d, k => Position(n, Index(k, odd)), places);
  }

  lemma CountBurst(d: set<nat>, n: nat, odd: bool, start: nat)
    requires forall k | k in d :: !IsPadding(n, Index(k, odd)) && start <= Position(n, Index(k, odd)) < start + 8
    ensures |d| <= 4
  {
    var f := (k: nat) => if Position(n, Index(k, odd)) >= start then (Position(n, Index(k, odd)) - start) / 2 else 0;
    var four: set<nat> := {0, 1, 2, 3};
    InjectiveImage(d, f, four);
    assert |four| == 4;
  }

  /** Up to four wrong characters, anywhere in a secret, are always caught. */
  lemma FewErrorsDetected(v: string, w: string)
    requires Verify(v) && |w| == |v|
    requires 1 <= |Differing(v, w)| <= 4
    ensures !Verify(w)
  {
    if Verify(w) {
      var n1, p1 := VerifiedParts(v);
      var n2, p2 := VerifiedParts(w);
      SomethingDiffers(v, w);
      var odd, d := TagsFarApart(n1, p1, n2, p2);
      CountPlaces(d, |n1|, odd, Differing(v, w));
      assert false;
    }
  }

  lemma SomethingDiffers(v: string, w: string)
    requires |Differing(v, w)| >= 1
    ensures v != w
  {
    var i :| i in Differing(v, w);
  }

  /** Any change confined to eight consecutive characters of a secret is always caught. */
  lemma BurstDetected(v: string, w: string, start: nat)
    requires Verify(v) && |w| == |v| && v != w
    requires forall i | i in Differing(v, w) :: start <= i < start + 8
    ensures !Verify(w)
  {
    if Verify(w) {
      var n1, p1 := VerifiedParts(v);
      var n2, p2 := VerifiedParts(w);
      var odd, d := TagsFarApart(n1, p1, n2, p2);
      CountBurst(d, |n1|, odd, start);
      assert false;
    }
  }
}
