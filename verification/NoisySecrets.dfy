/** Noisy secrets: "secret_" + namespace + "_" + payload + checksum, where the checksum interleaves
    two Reed-Solomon checksums, one over the even and one over the odd symbols. */
module NoisySecrets {
  import opened Wrappers
  import opened NoisyAlphabet
  import opened Namespaces

  const PREFIX := "secret"

  function Evens(s: string): (r: string)
    ensures |r| == (|s| + 1) / 2
    ensures forall k | 0 <= k < |r| :: r[k] == s[2 * k]
  {
    seq((|s| + 1) / 2, k requires 0 <= k < (|s| + 1) / 2 => s[2 * k])
  }

  function Odds(s: string): (r: string)
    ensures |r| == |s| / 2
    ensures forall k | 0 <= k < |r| :: r[k] == s[2 * k + 1]
  {
    seq(|s| / 2, k requires 0 <= k < |s| / 2 => s[2 * k + 1])
  }

  /** The symbols of one parity: lane 0 takes the even positions, lane 1 the odd ones. */
  function Lane(s: string, odd: bool): string {
    if odd then Odds(s) else Evens(s)
  }

  function Padded(namespace: string): (r: string)
    requires |namespace| <= 32
    ensures |r| == 32 && r[..|namespace|] == namespace
    ensures forall i | |namespace| <= i < 32 :: r[i] == '_'
  {
    namespace + seq(32 - |namespace|, i => '_')
  }

  function Message(namespace: string, payload: string, odd: bool): string
    requires |namespace| <= 32
  {
    Lane(Padded(namespace), odd) + Lane(payload, odd)
  }

  function Interleaved(even: string, odd: string): (r: string)
    requires |even| == |odd| == 4
    ensures |r| == 8
    ensures forall k | 0 <= k < 4 :: r[2 * k] == even[k] && r[2 * k + 1] == odd[k]
  {
    [even[0], odd[0], even[1], odd[1], even[2], odd[2], even[3], odd[3]]
  }

  /** Whether every symbol of the two messages can be looked up in the field table. */
  predicate Encodable(namespace: string, payload: string) {
    |namespace| <= 32 && |payload| == 32 && OverBase37(namespace) && OverBase37(payload)
  }

  lemma MessageOver(namespace: string, payload: string, odd: bool)
    requires Encodable(namespace, payload)
    ensures |Message(namespace, payload, odd)| == 32 && OverBase37(Message(namespace, payload, odd))
  {
  }

  function LaneChecksum(namespace: string, payload: string, odd: bool): (c: string)
    requires Encodable(namespace, payload)
    ensures |c| == 4 && OverBase37(c)
  {
    MessageOver(namespace, payload, odd);
    Checksum(Message(namespace, payload, odd))
  }

  function Tag(namespace: string, payload: string): (tag: string)
    requires Encodable(namespace, payload)
    ensures |tag| == |namespace| + 48
  {
    PREFIX + "_" + namespace + "_" + payload
    + Interleaved(LaneChecksum(namespace, payload, false), LaneChecksum(namespace, payload, true))
  }

  // ----- verification -----

  predicate IsCandidate(value: string) {
    |value| == 49 || 51 <= |value| <= 80
  }

  predicate IsPayload(payload: string) {
    OverBase32(payload)
  }

  /** The tag the candidate ought to be. The table lookups of the checksum never fail on what was checked. */
  function ExpectedCandidate(candidate: string): (r: Option<string>)
    requires IsCandidate(candidate)
  {
    var n := |candidate|;
    var namespace := candidate[7..n - 41];
    if !IsNamespaceString(namespace) then None
    else
      var payload := candidate[n - 40..n - 8];
      if !IsPayload(payload) then None
      else
        NamespaceShape(namespace);
        Some(Tag(namespace, payload))
  }

  predicate Verify(value: string) {
    IsCandidate(value) && ExpectedCandidate(value) == Some(value)
  }

  predicate IsTagOf(value: string, namespace: string, payload: string) {
    IsNamespaceString(namespace) && |payload| == 32 && IsPayload(payload)
    && Encodable(namespace, payload) && value == Tag(namespace, payload)
  }

  lemma TagParts(namespace: string, payload: string)
    requires Encodable(namespace, payload)
    ensures var v := Tag(namespace, payload); var n := |v|;
            v[7..n - 41] == namespace && v[n - 40..n - 8] == payload
  {
    Slices(namespace, payload,
           Interleaved(LaneChecksum(namespace, payload, false), LaneChecksum(namespace, payload, true)));
  }

  lemma Slices(namespace: string, payload: string, sum: string)
    requires |payload| == 32 && |sum| == 8
    ensures var v := PREFIX + "_" + namespace + "_" + payload + sum; var n := |namespace|;
            v[7..n + 7] == namespace && v[n + 8..n + 40] == payload && v[n + 40..] == sum
  {
  }

  lemma VerifiedIsTag(value: string)
    requires Verify(value)
    ensures IsTagOf(value, value[7..|value| - 41], value[|value| - 40..|value| - 8])
  {
    NamespaceShape(value[7..|value| - 41]);
  }

  lemma TagVerifies(value: string, namespace: string, payload: string)
    requires IsTagOf(value, namespace, payload)
    ensures Verify(value)
  {
    NamespaceShape(namespace);
    TagParts(namespace, payload);
    var n := |value|;
    assert value[7..n - 41] == namespace && value[n - 40..n - 8] == payload;
    assert ExpectedCandidate(value) == Some(Tag(namespace, payload));
  }

  /** A value verifies exactly when it is the tag of a namespace string and a 32-symbol payload. */
  lemma VerifyExact(value: string)
    ensures Verify(value) <==> exists namespace, payload :: IsTagOf(value, namespace, payload)
  {
    if Verify(value) {
      VerifiedIsTag(value);
    }
    if namespace, payload :| IsTagOf(value, namespace, payload) {
      TagVerifies(value, namespace, payload);
    }
  }

  /** Every secret constructed for an accepted domain verifies, and its domain can be read back. */
  lemma CreatedVerifies(fqdn: Option<string>, payload: string)
    requires NamespaceOf(fqdn).Ok? && |payload| == 32 && IsPayload(payload)
    ensures var namespace := NamespaceOf(fqdn).value;
            Encodable(namespace, payload)
            && Verify(Tag(namespace, payload))
            && DomainOf(Tag(namespace, payload)[7..|namespace| + 7]) == fqdn
  {
    var namespace := NamespaceOf(fqdn).value;
    ConstructedIsNamespace(fqdn);
    NamespaceRoundTrip(fqdn);
    NamespaceTag(namespace, payload);
  }

  lemma NamespaceTag(namespace: string, payload: string)
    requires IsNamespaceString(namespace) && |payload| == 32 && IsPayload(payload)
    ensures Encodable(namespace, payload) && Verify(Tag(namespace, payload))
    ensures Tag(namespace, payload)[7..|namespace| + 7] == namespace
  {
    NamespaceShape(namespace);
    TagVerifies(Tag(namespace, payload), namespace, payload);
    TagParts(namespace, payload);
  }
}
