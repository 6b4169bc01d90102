/** Differences between two states of a certificate, stored as fragments, and the history they fold to. */
module CertificateDeltas {
  import opened Wrappers
  import opened Packets
  import opened CertificateOrder
  import opened Certificates

  type State = set<Placement>

  datatype Delta = Delta(deletions: Option<Bytes>, additions: Option<Bytes>)

  function Primaries(state: State): set<Frame> {
    set p | p in state && p.frame.None? && p.head.tag == PRIMARY_KEY_TAG :: p.head
  }

  ghost function PrimaryOf(state: State): Option<Frame> {
    if Primaries(state) == {} then None
    else
      var h :| h in Primaries(state);
      Some(h)
  }

  // ----- applying a delta -----

  /** The heads removed with everything under them: named bare, with no attachment named beside them. */
  function BareHeads(removed: State): set<Frame> {
    set p | p in removed && p.frame.None? && p.head.tag != PRIMARY_KEY_TAG
            && !(exists q :: q in removed && q.head == p.head && q.frame.Some?) :: p.head
  }

  function Applied(state: State, removed: State, added: State): State {
    (set p | p in state && p.head !in BareHeads(removed) && (p.frame.None? || p !in removed)) + added
  }

  function ParsedOrEmpty(data: Option<Bytes>, primary: Option<Frame>): Result<State, CertificateError> {
    if data.None? then Ok({}) else ParsedFragment(data.value, primary)
  }

  ghost function ApplyDelta(state: State, delta: Delta): Result<State, CertificateError> {
    var primary := PrimaryOf(state);
    match ParsedOrEmpty(delta.deletions, primary)
    case Err(e) => Err(e)
    case Ok(removed) =>
      match ParsedOrEmpty(delta.additions, primary)
      case Err(e) => Err(e)
      case Ok(added) => Ok(Applied(state, removed, added))
  }

  // ----- computing a delta -----

  /** The placements a deletion names: a component that went is named bare, one that only lost
      attachments is named together with them. */
  function Deletions(previous: State, result: State, primary: Frame): State {
    var removed := previous - result;
    var gone := set p | p in removed && p.frame.None? :: p.head;
    (set p | p in removed && p.head !in gone) + (set p | p in removed && p.head != primary :: Placement(p.head, None))
  }

  function Additions(previous: State, result: State, primary: Frame): State {
    var added := result - previous;
    added + set p | p in added && p.head != primary :: Placement(p.head, None)
  }

  ghost function FragmentOrNone(lib: Library, placements: State, primary: Frame): Result<Option<Bytes>,
                                                                                         CertificateError>
  {
    if placements == {} then Ok(None)
    else
      match FragmentOf(lib, placements, Some(primary))
      case Err(e) => Err(e)
      case Ok(data) => Ok(Some(data))
  }

  ghost function DeltaFragments(lib: Library, previous: State, result: State): Result<Delta, CertificateError> {
    var primaries := Primaries(previous + result);
    if |primaries| != 1 then Err(NoSharedPrimary)
    else
      var primary :| primary in primaries;
      match FragmentOrNone(lib, Deletions(previous, result, primary), primary)
      case Err(e) => Err(e)
      case Ok(deletions) =>
        match FragmentOrNone(lib, Additions(previous, result, primary), primary)
        case Err(e) => Err(e)
        case Ok(additions) => Ok(Delta(deletions, additions))
  }

  // ----- round trip -----

  lemma OnePrimary(state: State, primary: Frame)
    requires IsFragment(state, primary) && Placement(primary, None) in state
    ensures Primaries(state) == {primary} && PrimaryOf(state) == Some(primary) && |Primaries(state)| == 1
  {
    assert primary in Primaries(state);
    forall h | h in Primaries(state)
      ensures h == primary
    {
      var p :| p in state && p.frame.None? && p.head.tag == PRIMARY_KEY_TAG && h == p.head;
    }
    assert Primaries(state) == {primary};
  }

  lemma DeletionsAreFragment(previous: State, result: State, primary: Frame)
    requires IsFragment(previous, primary)
    ensures var d := Deletions(previous, result, primary);
            IsFragment(d, primary) && Grounded(d, primary) && Placement(primary, None) !in d
  {
  }

  lemma AdditionsAreFragment(previous: State, result: State, primary: Frame)
    requires IsFragment(result, primary)
    ensures var a := Additions(previous, result, primary);
            IsFragment(a, primary) && Grounded(a, primary)
            && (Placement(primary, None) in a <==> Placement(primary, None) in result - previous)
  {
  }

  /** A fragment written under a primary reads back under it, when it does not carry the primary itself. */
  lemma FragmentReadsBack(lib: Library, placements: State, primary: Frame)
    requires IsFragment(placements, primary) && Grounded(placements, primary) && Placement(primary, None) !in placements
    requires lib.parsePrimary(primary.body).Some?
    ensures FragmentOrNone(lib, placements, primary).Ok?
    ensures ParsedOrEmpty(FragmentOrNone(lib, placements, primary).value, Some(primary)) == Ok(placements)
  {
    FragmentRoundTrip(lib, placements, primary);
    GroundedClosure(placements, primary);
  }

  lemma DeltaOf(lib: Library, previous: State, result: State, primary: Frame)
    requires IsFragment(previous, primary) && IsFragment(result, primary)
      && Placement(primary, None) in previous + result
    requires FragmentOrNone(lib, Deletions(previous, result, primary), primary).Ok?
    requires FragmentOrNone(lib, Additions(previous, result, primary), primary).Ok?
    ensures DeltaFragments(lib, previous, result)
            == Ok(Delta(FragmentOrNone(lib, Deletions(previous, result, primary), primary).value,
                        FragmentOrNone(lib, Additions(previous, result, primary), primary).value))
  {
    OnePrimary(previous + result, primary);
  }

  /** Removing and adding what differs leads from one state to the other, as long as the primary stays. */
  lemma AppliedDifference(previous: State, result: State, primary: Frame)
    requires IsFragment(previous, primary) && Grounded(result, primary)
    requires Placement(primary, None) in result
    ensures Applied(previous, Deletions(previous, result, primary), Additions(previous, result, primary)) == result
  {
    var d := Deletions(previous, result, primary);
    forall p
      ensures p in Applied(previous, d, Additions(previous, result, primary)) <==> p in result
    {
      if p in previous && p in result {
        KeptStays(previous, result, primary, p);
      } else if p in previous {
        RemovedGoes(previous, result, primary, p);
      }
    }
  }

  lemma KeptStays(previous: State, result: State, primary: Frame, p: Placement)
    requires IsFragment(previous, primary) && Grounded(result, primary) && Placement(primary, None) in result
    requires p in previous && p in result
    ensures var d := Deletions(previous, result, primary); p.head !in BareHeads(d) && (p.frame.None? || p !in d)
  {
  }

  lemma RemovedGoes(previous: State, result: State, primary: Frame, p: Placement)
    requires IsFragment(previous, primary) && Grounded(result, primary) && Placement(primary, None) in result
    requires p in previous && p !in result
    ensures var d := Deletions(previous, result, primary); p.head in BareHeads(d) || (p.frame.Some? && p in d)
    ensures p !in Additions(previous, result, primary)
  {
    var d, removed := Deletions(previous, result, primary), previous - result;
    var bare := Placement(p.head, None);
    if bare in removed {
      assert p.head != primary;
      assert bare in d;
      assert forall q | q in d && q.head == p.head :: q.frame.None?;
      assert p.head in BareHeads(d);
    } else {
      assert p in d;
    }
  }

  /** The delta from one state of a certificate to another leads there. Starting from nothing,
      the first delta carries the primary key itself. */
  lemma DeltaRoundTrip(lib: Library, previous: State, result: State, primary: Frame)
    requires previous == {} || IsCertificate(lib, previous, primary)
    requires IsCertificate(lib, result, primary)
    ensures DeltaFragments(lib, previous, result).Ok?
    ensures ApplyDelta(previous, DeltaFragments(lib, previous, result).value) == Ok(result)
  {
    if previous == {} {
      FirstDelta(lib, result, primary);
    } else {
      LaterDelta(lib, previous, result, primary);
      AppliedDifference(previous, result, primary);
    }
  }

  lemma FirstDelta(lib: Library, result: State, primary: Frame)
    requires IsCertificate(lib, result, primary)
    ensures DeltaFragments(lib, {}, result).Ok?
    ensures ApplyDelta({}, DeltaFragments(lib, {}, result).value) == Ok(result)
  {
    assert Deletions({}, result, primary) == {};
    assert Additions({}, result, primary) == result;
    assert {} + result == result;
    WholeReadsBack(lib, result, primary);
    DeltaOf(lib, {}, result, primary);
    assert Applied({}, {}, result) == result;
  }

  lemma WholeReadsBack(lib: Library, state: State, primary: Frame)
    requires IsCertificate(lib, state, primary)
    ensures FragmentOrNone(lib, state, primary).Ok? && FragmentOrNone(lib, state, primary).value.Some?
    ensures ParsedOrEmpty(FragmentOrNone(lib, state, primary).value, None) == Ok(state)
  {
    CertificateRoundTrip(lib, state, primary);
    WholeRoundTrip(lib, state, primary);
  }

  lemma LaterDelta(lib: Library, previous: State, result: State, primary: Frame)
    requires IsCertificate(lib, previous, primary) && IsFragment(result, primary)
    ensures DeltaFragments(lib, previous, result).Ok?
    ensures ApplyDelta(previous, DeltaFragments(lib, previous, result).value)
            == Ok(Applied(previous, Deletions(previous, result, primary), Additions(previous, result, primary)))
  {
    DeletionsAreFragment(previous, result, primary);
    AdditionsAreFragment(previous, result, primary);
    FragmentReadsBack(lib, Deletions(previous, result, primary), primary);
    FragmentReadsBack(lib, Additions(previous, result, primary), primary);
    DeltaOf(lib, previous, result, primary);
    OnePrimary(previous, primary);
  }

  /** From a certificate, the delta leads to the intended state exactly when that state holds the
      primary key: no delta can take the primary away. */
  lemma DeltaRoundTripExactly(lib: Library, previous: State, result: State, primary: Frame)
    requires IsCertificate(lib, previous, primary) && IsFragment(result, primary) && Grounded(result, primary)
    ensures DeltaFragments(lib, previous, result).Ok?
    ensures ApplyDelta(previous, DeltaFragments(lib, previous, result).value) == Ok(result)
      <==> Placement(primary, None) in result
  {
    LaterDelta(lib, previous, result, primary);
    if Placement(primary, None) in result {
      AppliedDifference(previous, result, primary);
    } else {
      assert Placement(primary, None) in Applied(previous, Deletions(previous, result, primary),
                                                 Additions(previous, result, primary));
    }
  }

  /** A delta is empty exactly when nothing changed. */
  lemma EmptyDelta(lib: Library, previous: State, result: State, primary: Frame)
    requires IsCertificate(lib, previous, primary) && IsCertificate(lib, result, primary)
    ensures DeltaFragments(lib, previous, result) == Ok(Delta(None, None)) <==> previous == result
  {
    DeltaRoundTrip(lib, previous, result, primary);
    if previous == result {
      assert Deletions(previous, result, primary) == {} && Additions(previous, result, primary) == {};
      DeltaOf(lib, previous, result, primary);
    }
    if DeltaFragments(lib, previous, result) == Ok(Delta(None, None)) {
      assert Applied(previous, {}, {}) == previous;
    }
  }

  // ----- folding a history -----

  ghost function Folded(deltas: seq<Delta>): Result<State, CertificateError> {
    if deltas == [] then Ok({})
    else
      match Folded(deltas[..|deltas| - 1])
      case Err(e) => Err(e)
      case Ok(state) => ApplyDelta(state, deltas[|deltas| - 1])
  }

  /** The deltas along a chain of states, the first of them from nothing. */
  ghost function DeltasAlong(lib: Library, states: seq<State>): seq<Delta> {
    if states == [] then []
    else
      var n := |states| - 1;
      var previous := if n == 0 then {} else states[n - 1];
      var delta := DeltaFragments(lib, previous, states[n]);
      DeltasAlong(lib, states[..n]) + [if delta.Ok? then delta.value else Delta(None, None)]
  }

  /** Folding the deltas of any chain of states, from nothing, gives the last state. */
  lemma {:induction false} FoldedHistory(lib: Library, states: seq<State>, primary: Frame)
    requires forall s | s in states :: IsCertificate(lib, s, primary)
    ensures Folded(DeltasAlong(lib, states)) == Ok(if states == [] then {} else states[|states| - 1])
  {
    if states != [] {
      var n := |states| - 1;
      var earlier := states[..n];
      FoldedHistory(lib, earlier, primary);
      var previous := if n == 0 then {} else states[n - 1];
      assert n > 0 ==> earlier[|earlier| - 1] == previous;
      DeltaRoundTrip(lib, previous, states[n], primary);
      var deltas := DeltasAlong(lib, states);
      assert deltas[..|deltas| - 1] == DeltasAlong(lib, earlier);
    }
  }

  // ----- what a delta names, and what applying one does -----

  /** A delta names only what changed: the components that went, each by itself, and what went from under those that
      stay; and what came, with the component it came under. */
  lemma DeltaNamesExactly(lib: Library, previous: State, result: State, primary: Frame, p: Placement)
    requires IsCertificate(lib, previous, primary) && IsCertificate(lib, result, primary)
    ensures DeltaFragments(lib, previous, result).Ok?
    ensures var delta := DeltaFragments(lib, previous, result).value;
            var removed, added := ParsedOrEmpty(delta.deletions, Some(primary)),
                                  ParsedOrEmpty(delta.additions, Some(primary));
            && removed.Ok? && added.Ok?
            && (p in removed.value <==>
                  if p.frame.None?
                    then p.head != primary && exists q :: q in previous && q !in result && q.head == p.head
                  else p in previous && p !in result
                       && !(Placement(p.head, None) in previous && Placement(p.head, None) !in result))
            && (p in added.value <==>
                  || (p in result && p !in previous)
                  || (p.frame.None? && p.head != primary
                      && exists q :: q in result && q !in previous && q.head == p.head))
  {
    DeletionsAreFragment(previous, result, primary);
    AdditionsAreFragment(previous, result, primary);
    FragmentReadsBack(lib, Deletions(previous, result, primary), primary);
    FragmentReadsBack(lib, Additions(previous, result, primary), primary);
    DeltaOf(lib, previous, result, primary);
    DeletionsNamed(previous, result, primary, p);
    AdditionsNamed(previous, result, primary, p);
  }

  lemma DeletionsNamed(previous: State, result: State, primary: Frame, p: Placement)
    requires Placement(primary, None) in result
    ensures p in Deletions(previous, result, primary) <==>
            if p.frame.None? then p.head != primary && exists q :: q in previous && q !in result && q.head == p.head
            else p in previous && p !in result
                 && !(Placement(p.head, None) in previous && Placement(p.head, None) !in result)
  {
    var removed := previous - result;
    var gone := set q | q in removed && q.frame.None? :: q.head;
    assert p.head in gone <==> Placement(p.head, None) in removed by {
      if p.head in gone {
        var q :| q in removed && q.frame.None? && q.head == p.head;
        assert q == Placement(p.head, None);
      }
    }
    if p.frame.None? {
      assert p == Placement(p.head, None);
      if q :| q in previous && q !in result && q.head == p.head {
        assert q in removed;
      }
    }
  }

  lemma AdditionsNamed(previous: State, result: State, primary: Frame, p: Placement)
    ensures p in Additions(previous, result, primary) <==>
            || (p in result && p !in previous)
            || (p.frame.None? && p.head != primary && exists q :: q in result && q !in previous && q.head == p.head)
  {
    if p.frame.None? {
      assert p == Placement(p.head, None);
      if q :| q in result && q !in previous && q.head == p.head {
        assert q in result - previous;
      }
    }
  }

  /** What applying a delta does: a component named by itself goes with everything under it, an attachment named goes,
      everything else stays, and what is added comes. The primary key cannot go. */
  lemma AppliesExactly(state: State, delta: Delta, p: Placement)
    ensures var removed, added := ParsedOrEmpty(delta.deletions, PrimaryOf(state)),
                                  ParsedOrEmpty(delta.additions, PrimaryOf(state));
            && (ApplyDelta(state, delta).Ok? <==> removed.Ok? && added.Ok?)
            && (ApplyDelta(state, delta).Ok? ==>
                  (p in ApplyDelta(state, delta).value <==>
                     || p in added.value
                     || (p in state
                         && !(p.head.tag != 6 && Placement(p.head, None) in removed.value
                              && forall q | q in removed.value && q.head == p.head :: q.frame.None?)
                         && (p.frame.None? || p !in removed.value))))
  {
    var removed := ParsedOrEmpty(delta.deletions, PrimaryOf(state));
    if removed.Ok? {
      NamedBare(removed.value, p.head);
    }
  }

  lemma NamedBare(removed: State, head: Frame)
    ensures head in BareHeads(removed) <==>
            head.tag != 6 && Placement(head, None) in removed
            && forall q | q in removed && q.head == head :: q.frame.None?
  {
    if head in BareHeads(removed) {
      var p :| p in removed && p.frame.None? && p.head == head && p.head.tag != PRIMARY_KEY_TAG
               && !(exists q :: q in removed && q.head == p.head && q.frame.Some?);
      assert p == Placement(head, None);
    }
    if head.tag != 6 && Placement(head, None) in removed && forall q | q in removed && q.head == head :: q.frame.None? {
      assert Placement(head, None).frame.None?;
    }
  }
}
