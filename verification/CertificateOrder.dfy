/** The canonical order of a certificate's packets. The OpenPGP library is a parameter: any total
    functions of packet bodies will do. */
module CertificateOrder {
  import opened Wrappers
  import opened Sorting
  import opened Packets

  const SIGNATURE_TAG := 2
  const USER_ID_TAG := 13
  const PUBLIC_SUBKEY_TAG := 14
  const USER_ATTRIBUTE_TAG := 17

  datatype Ids = Ids(fingerprint: string, keyId: string)

  datatype Signature = Signature(created: Option<nat>, typ: Option<string>, fingerprints: set<string>,
                                 keyIds: set<string>, exportable: Option<bool>)

  /** What the program asks of the OpenPGP library about a packet body. */
  datatype Library = Library(
    parseSignature: Bytes -> Option<Signature>,
    parsePrimary: Bytes -> Option<Ids>,
    subkeyCreated: Bytes -> Option<nat>,
    acceptsCertificate: Bytes -> bool)

  predicate IsCertification(typ: Option<string>) {
    typ == Some("cert-generic") || typ == Some("cert-persona") || typ == Some("cert-casual")
      || typ == Some("cert-positive")
  }

  predicate IsSelf(s: Signature, ids: Ids) {
    ids.fingerprint in s.fingerprints || ids.keyId in s.keyIds
  }

  // ----- keys -----

  datatype Moment = At(t: nat) | Never

  predicate Earlier(a: Moment, b: Moment) {
    a.At? && (b.Never? || a.t < b.t)
  }

  datatype Key = Key(time: Moment, name: seq<int>, body: Bytes)

  predicate KeyLe(a: Key, b: Key) {
    if a.time != b.time then Earlier(a.time, b.time)
    else if a.name != b.name then LexLe(a.name, b.name)
    else LexLe(a.body, b.body)
  }

  lemma KeyTotal(a: Key, b: Key)
    ensures KeyLe(a, b) || KeyLe(b, a)
    ensures KeyLe(a, b) && KeyLe(b, a) ==> a == b
  {
    LexTotal(a.name, b.name);
    LexTotal(a.body, b.body);
  }

  lemma KeyTransitive(a: Key, b: Key, c: Key)
    requires KeyLe(a, b) && KeyLe(b, c)
    ensures KeyLe(a, c)
  {
    if a.time == b.time == c.time {
      if a.name == b.name == c.name {
        LexTransitive(a.body, b.body, c.body);
      } else if a.name != b.name && b.name != c.name {
        LexTransitive(a.name, b.name, c.name);
        LexTotal(a.name, b.name);
      }
    }
  }

  /** Comparing by keys is an order, and separates what has different keys. */
  lemma KeyedPreorder<T(!new)>(key: T -> Key, le: (T, T) -> bool)
    requires forall x, y :: le(x, y) == KeyLe(key(x), key(y))
    ensures Preorder(le)
    ensures forall x, y | le(x, y) && le(y, x) :: key(x) == key(y)
  {
    forall x, y {
      KeyTotal(key(x), key(y));
    }
    forall x, y, z | le(x, y) && le(y, z) {
      KeyTransitive(key(x), key(y), key(z));
    }
  }

  function SignatureKey(lib: Library, frame: Frame): Key {
    var s := lib.parseSignature(frame.body);
    if s.None? then Key(At(0), [], frame.body)
    else Key(At(s.value.created.GetOr(0)), Codes(s.value.typ.GetOr("")), frame.body)
  }

  function SignatureOrder(lib: Library): (Frame, Frame) -> bool {
    (a: Frame, b: Frame) => KeyLe(SignatureKey(lib, a), SignatureKey(lib, b))
  }

  function OpaqueKey(frame: Frame): Key {
    Key(At(frame.tag), [], frame.body)
  }

  function OpaqueOrder(): (Frame, Frame) -> bool {
    (a: Frame, b: Frame) => KeyLe(OpaqueKey(a), OpaqueKey(b))
  }

  // ----- attachments -----

  function Filter<T(!new)>(xs: seq<T>, p: T -> bool): (r: seq<T>)
    ensures forall x :: x in r <==> x in xs && p(x)
  {
    if xs == [] then [] else (if p(xs[0]) then [xs[0]] else []) + Filter(xs[1..], p)
  }

  lemma {:induction false} FilterNoDuplicates<T(!new)>(xs: seq<T>, p: T -> bool)
    requires NoDuplicates(xs)
    ensures NoDuplicates(Filter(xs, p))
  {
    if xs != [] {
      FilterNoDuplicates(xs[1..], p);
      assert xs[0] !in xs[1..];
    }
  }

  lemma FilterSortAlike<T(!new)>(xs: seq<T>, ys: seq<T>, p: T -> bool, le: (T, T) -> bool)
    requires NoDuplicates(xs) && NoDuplicates(ys) && Elements(xs) == Elements(ys)
    requires Preorder(le) && Separates(le, Elements(Filter(xs, p)))
    ensures Sort(Filter(xs, p), le) == Sort(Filter(ys, p), le)
  {
    FilterNoDuplicates(xs, p);
    FilterNoDuplicates(ys, p);
    forall x
      ensures x in Elements(Filter(xs, p)) <==> x in Elements(Filter(ys, p))
    {
      assert x in xs <==> x in Elements(xs);
      assert x in ys <==> x in Elements(ys);
    }
    EnumerationsSortAlike(Filter(xs, p), Filter(ys, p), le);
  }

  predicate IsReadSignature(lib: Library, f: Frame) {
    f.tag == SIGNATURE_TAG && lib.parseSignature(f.body).Some?
  }

  predicate IsKeyRevocation(lib: Library, f: Frame) {
    IsReadSignature(lib, f) && lib.parseSignature(f.body).value.typ == Some("key-revocation")
  }

  function ReadSignature(lib: Library): Frame -> bool {
    (f: Frame) => IsReadSignature(lib, f)
  }

  function KeyRevocation(lib: Library): Frame -> bool {
    (f: Frame) => IsKeyRevocation(lib, f)
  }

  function OtherSignature(lib: Library): Frame -> bool {
    (f: Frame) => IsReadSignature(lib, f) && !IsKeyRevocation(lib, f)
  }

  function Opaque(lib: Library): Frame -> bool {
    (f: Frame) => !IsReadSignature(lib, f)
  }

  /** The attachments of a head: signatures by date, type and body, with a primary key's revocations
      before the rest, and then whatever is not a readable signature. */
  function Ordered(lib: Library, head: Frame, attached: seq<Frame>): seq<Frame> {
    var opaques := Sort(Filter(attached, Opaque(lib)), OpaqueOrder());
    if head.tag == PRIMARY_KEY_TAG then
      Sort(Filter(attached, KeyRevocation(lib)), SignatureOrder(lib))
      + Sort(Filter(attached, OtherSignature(lib)), SignatureOrder(lib))
      + opaques
    else
      Sort(Filter(attached, ReadSignature(lib)), SignatureOrder(lib)) + opaques
  }

  lemma SignatureOrderSeparates(lib: Library, s: set<Frame>)
    requires forall f | f in s :: f.tag == SIGNATURE_TAG
    ensures Preorder(SignatureOrder(lib)) && Separates(SignatureOrder(lib), s)
  {
    KeyedPreorder(f => SignatureKey(lib, f), SignatureOrder(lib));
  }

  lemma OpaqueOrderSeparates(s: set<Frame>)
    ensures Preorder(OpaqueOrder()) && Separates(OpaqueOrder(), s)
  {
    KeyedPreorder(f => OpaqueKey(f), OpaqueOrder());
  }

  /** The order of attachments does not depend on the order they are met in. */
  lemma OrderedForgetsOrder(lib: Library, head: Frame, xs: seq<Frame>, ys: seq<Frame>)
    requires NoDuplicates(xs) && NoDuplicates(ys) && Elements(xs) == Elements(ys)
    ensures Ordered(lib, head, xs) == Ordered(lib, head, ys)
  {
    var le := SignatureOrder(lib);
    SignatureOrderSeparates(lib, Elements(Filter(xs, KeyRevocation(lib))));
    SignatureOrderSeparates(lib, Elements(Filter(xs, OtherSignature(lib))));
    SignatureOrderSeparates(lib, Elements(Filter(xs, ReadSignature(lib))));
    OpaqueOrderSeparates(Elements(Filter(xs, Opaque(lib))));
    FilterSortAlike(xs, ys, KeyRevocation(lib), le);
    FilterSortAlike(xs, ys, OtherSignature(lib), le);
    FilterSortAlike(xs, ys, ReadSignature(lib), le);
    FilterSortAlike(xs, ys, Opaque(lib), OpaqueOrder());
  }

  lemma OrderedElements(lib: Library, head: Frame, xs: seq<Frame>)
    ensures forall f :: f in Ordered(lib, head, xs) <==> f in xs
  {
    var le := SignatureOrder(lib);
    SortElements(Filter(xs, KeyRevocation(lib)), le);
    SortElements(Filter(xs, OtherSignature(lib)), le);
    SortElements(Filter(xs, ReadSignature(lib)), le);
    SortElements(Filter(xs, Opaque(lib)), OpaqueOrder());
  }

  lemma SortElements<T(!new)>(xs: seq<T>, le: (T, T) -> bool)
    ensures forall x :: x in Sort(xs, le) <==> x in xs
  {
    SortKeeps(xs, le);
    SameElements(Sort(xs, le), xs);
  }

  // ----- sections -----

  function SelfCertified(lib: Library, f: Frame, ids: Ids): Moment {
    if f.tag != SIGNATURE_TAG then Never
    else
      var s := lib.parseSignature(f.body);
      if s.None? || !IsCertification(s.value.typ) || !IsSelf(s.value, ids) then Never
      else At(s.value.created.GetOr(0))
  }

  function EarliestSelfCertification(lib: Library, attached: seq<Frame>, ids: Ids): Moment {
    if attached == [] then Never
    else
      var first, rest := SelfCertified(lib, attached[0], ids), EarliestSelfCertification(lib, attached[1..], ids);
      if Earlier(rest, first) then rest else first
  }

  /** The earliest is earlier than none of them, and one of them unless there is none. */
  lemma {:induction false} EarliestIsLeast(lib: Library, attached: seq<Frame>, ids: Ids)
    ensures var e := EarliestSelfCertification(lib, attached, ids);
            (forall f | f in attached :: !Earlier(SelfCertified(lib, f, ids), e))
            && (e.At? ==> exists f :: f in attached && SelfCertified(lib, f, ids) == e)
  {
    if attached != [] {
      EarliestIsLeast(lib, attached[1..], ids);
      assert attached == [attached[0]] + attached[1..];
    }
  }

  lemma EarliestForgetsOrder(lib: Library, xs: seq<Frame>, ys: seq<Frame>, ids: Ids)
    requires Elements(xs) == Elements(ys)
    ensures EarliestSelfCertification(lib, xs, ids) == EarliestSelfCertification(lib, ys, ids)
  {
    EarliestIsLeast(lib, xs, ids);
    EarliestIsLeast(lib, ys, ids);
    forall f
      ensures f in xs <==> f in ys
    {
      assert f in Elements(xs) <==> f in Elements(ys);
    }
  }

  function SectionKey(lib: Library, head: Frame, attached: seq<Frame>, ids: Ids): Key {
    if head.tag != PUBLIC_SUBKEY_TAG then Key(EarliestSelfCertification(lib, attached, ids), [], head.body)
    else
      var created := lib.subkeyCreated(head.body);
      Key(if created.Some? then At(created.value) else Never, [], head.body)
  }

  type Sections = map<Frame, seq<Frame>>

  function Attached(sections: Sections, head: Frame): seq<Frame> {
    if head in sections then sections[head] else []
  }

  function SectionOrder(lib: Library, sections: Sections, ids: Ids): (Frame, Frame) -> bool {
    (a: Frame, b: Frame) => KeyLe(SectionKey(lib, a, Attached(sections, a), ids),
                                  SectionKey(lib, b, Attached(sections, b), ids))
  }

  function SectionHeads(lib: Library, heads: seq<Frame>, sections: Sections, tag: nat, ids: Ids): seq<Frame> {
    Sort(Filter(heads, Tagged(tag)), SectionOrder(lib, sections, ids))
  }

  function Tagged(tag: nat): Frame -> bool {
    (h: Frame) => h.tag == tag
  }

  function AllSectionHeads(lib: Library, heads: seq<Frame>, sections: Sections, ids: Ids): seq<Frame> {
    SectionHeads(lib, heads, sections, USER_ID_TAG, ids)
    + SectionHeads(lib, heads, sections, USER_ATTRIBUTE_TAG, ids)
    + SectionHeads(lib, heads, sections, PUBLIC_SUBKEY_TAG, ids)
  }

  function SectionFrames(lib: Library, heads: seq<Frame>, sections: Sections): seq<Frame> {
    if heads == [] then []
    else [heads[0]] + Ordered(lib, heads[0], Attached(sections, heads[0])) + SectionFrames(lib, heads[1..], sections)
  }

  /** The packets in the order they are written. */
  function Emitted(lib: Library, heads: seq<Frame>, sections: Sections, primary: Frame, ids: Ids,
                   withPrimary: bool): seq<Frame>
  {
    (if withPrimary then [primary] else [])
    + Ordered(lib, primary, Attached(sections, primary))
    + SectionFrames(lib, AllSectionHeads(lib, heads, sections, ids), sections)
  }

  /** Tables that list the same heads and the same attachments, in any order. */
  predicate SameTables(h1: seq<Frame>, s1: Sections, h2: seq<Frame>, s2: Sections) {
    NoDuplicates(h1) && NoDuplicates(h2) && Elements(h1) == Elements(h2)
    && s1.Keys == s2.Keys
    && forall h | h in s1 :: NoDuplicates(s1[h]) && NoDuplicates(s2[h]) && Elements(s1[h]) == Elements(s2[h])
  }

  lemma {:induction false} SortAgrees<T(!new)>(xs: seq<T>, le1: (T, T) -> bool, le2: (T, T) -> bool)
    requires forall x, y | x in xs && y in xs :: le1(x, y) == le2(x, y)
    ensures Sort(xs, le1) == Sort(xs, le2)
  {
    if xs != [] {
      SortAgrees(xs[1..], le1, le2);
      SortElements(xs[1..], le1);
      InsertAgrees(xs[0], Sort(xs[1..], le1), le1, le2);
    }
  }

  lemma {:induction false} InsertAgrees<T>(x: T, xs: seq<T>, le1: (T, T) -> bool, le2: (T, T) -> bool)
    requires forall y | y in xs :: le1(x, y) == le2(x, y)
    ensures Insert(x, xs, le1) == Insert(x, xs, le2)
  {
    if xs != [] {
      InsertAgrees(x, xs[1..], le1, le2);
    }
  }

  lemma SectionKeyForgetsOrder(lib: Library, s1: Sections, s2: Sections, ids: Ids, head: Frame)
    requires s1.Keys == s2.Keys && forall h | h in s1 :: Elements(s1[h]) == Elements(s2[h])
    ensures SectionKey(lib, head, Attached(s1, head), ids) == SectionKey(lib, head, Attached(s2, head), ids)
  {
    EarliestForgetsOrder(lib, Attached(s1, head), Attached(s2, head), ids);
  }

  lemma SectionOrderSeparates(lib: Library, sections: Sections, ids: Ids, s: set<Frame>, tag: nat)
    requires forall h | h in s :: h.tag == tag
    ensures Preorder(SectionOrder(lib, sections, ids)) && Separates(SectionOrder(lib, sections, ids), s)
  {
    KeyedPreorder(h => SectionKey(lib, h, Attached(sections, h), ids), SectionOrder(lib, sections, ids));
  }

  lemma SectionHeadsForgetOrder(lib: Library, h1: seq<Frame>, s1: Sections, h2: seq<Frame>, s2: Sections, tag: nat,
                                ids: Ids)
    requires SameTables(h1, s1, h2, s2)
    ensures SectionHeads(lib, h1, s1, tag, ids) == SectionHeads(lib, h2, s2, tag, ids)
  {
    var p := Tagged(tag);
    var le1, le2 := SectionOrder(lib, s1, ids), SectionOrder(lib, s2, ids);
    SectionOrderSeparates(lib, s1, ids, Elements(Filter(h1, p)), tag);
    FilterSortAlike(h1, h2, p, le1);
    forall a, b
      ensures le1(a, b) == le2(a, b)
    {
      SectionKeyForgetsOrder(lib, s1, s2, ids, a);
      SectionKeyForgetsOrder(lib, s1, s2, ids, b);
    }
    SortAgrees(Filter(h2, p), le1, le2);
  }

  lemma {:induction false} SectionFramesForgetOrder(lib: Library, heads: seq<Frame>, s1: Sections, s2: Sections)
    requires s1.Keys == s2.Keys
    requires forall h | h in s1 :: NoDuplicates(s1[h]) && NoDuplicates(s2[h]) && Elements(s1[h]) == Elements(s2[h])
    ensures SectionFrames(lib, heads, s1) == SectionFrames(lib, heads, s2)
  {
    if heads != [] {
      SectionFramesForgetOrder(lib, heads[1..], s1, s2);
      OrderedForgetsOrder(lib, heads[0], Attached(s1, heads[0]), Attached(s2, heads[0]));
    }
  }

  /** What is written depends on what is in the table, not on the order it was put there. */
  lemma EmittedForgetsOrder(lib: Library, h1: seq<Frame>, s1: Sections, h2: seq<Frame>, s2: Sections, primary: Frame,
                            ids: Ids, withPrimary: bool)
    requires SameTables(h1, s1, h2, s2)
    ensures Emitted(lib, h1, s1, primary, ids, withPrimary) == Emitted(lib, h2, s2, primary, ids, withPrimary)
  {
    OrderedForgetsOrder(lib, primary, Attached(s1, primary), Attached(s2, primary));
    SectionHeadsForgetOrder(lib, h1, s1, h2, s2, USER_ID_TAG, ids);
    SectionHeadsForgetOrder(lib, h1, s1, h2, s2, USER_ATTRIBUTE_TAG, ids);
    SectionHeadsForgetOrder(lib, h1, s1, h2, s2, PUBLIC_SUBKEY_TAG, ids);
    SectionFramesForgetOrder(lib, AllSectionHeads(lib, h1, s1, ids), s1, s2);
  }
}
