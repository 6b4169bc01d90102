/** The chain of seals over the daily audit logs: every seal is signed with a key that is used once, and names
    the public half of the key that will sign the next one. Signatures are symbolic. */
module Sealing {
  import opened Wrappers
  import opened Packets

  type Digest = Bytes

  type Key = nat

  datatype PublicKey = Public(key: Key)

  datatype Message = Message(datetime: string, next: PublicKey, digest: Digest)

  /** What a key makes of a message; a signature that failed to come out right is spoiled. */
  datatype Signature = Signed(key: Key, message: Message) | Spoiled

  datatype Record = Record(message: Message, signature: Signature)

  /** A private key file, which a crash can leave unfinished. */
  datatype KeyFile = Partial | Whole(key: Key)

  /** The step before which a run is cut short, by a crash or by an error of the tools it calls. */
  datatype Fault = Never | KeyGeneration | KeyWriting | Signing | BadSignature | Publishing | Replacing

  // ----- verifying -----

  function Verify(h: Bytes -> Digest, public: PublicKey, data: Bytes, record: Record): Option<PublicKey> {
    if record.signature != Signed(public.key, record.message) then None
    else if h(data) != record.message.digest then None
    else Some(record.message.next)
  }

  /** Verifies seal after seal, each with the key that the one before it named. */
  function VerifyAll(h: Bytes -> Digest, public: PublicKey, days: seq<Bytes>, seals: seq<Record>): Option<PublicKey>
    requires |seals| <= |days|
    decreases |seals|
  {
    if seals == [] then Some(public)
    else
      var next := Verify(h, public, days[0], seals[0]);
      if next.None? then None else VerifyAll(h, next.value, days[1..], seals[1..])
  }

  /** The key that the seal of a day has to be signed with. */
  function KeyAt(root: PublicKey, seals: seq<Record>, i: nat): PublicKey
    requires i <= |seals|
  {
    if i == 0 then root else seals[i - 1].message.next
  }

  /** A chain verifies from its root exactly when every seal does with the key due, and gives the last key named. */
  lemma {:induction false} ChainVerifies(h: Bytes -> Digest, root: PublicKey, days: seq<Bytes>, seals: seq<Record>)
    requires |seals| <= |days|
    ensures VerifyAll(h, root, days, seals).Some? <==>
      forall i | 0 <= i < |seals| :: Verify(h, KeyAt(root, seals, i), days[i], seals[i]).Some?
    ensures VerifyAll(h, root, days, seals).Some?
      ==> VerifyAll(h, root, days, seals) == Some(KeyAt(root, seals, |seals|))
    decreases |seals|
  {
    if seals != [] {
      var next, rest, later := seals[0].message.next, seals[1..], days[1..];
      ChainVerifies(h, next, later, rest);
      assert forall i | 0 <= i < |rest| :: KeyAt(next, rest, i) == KeyAt(root, seals, i + 1);
      if forall i | 0 <= i < |seals| :: Verify(h, KeyAt(root, seals, i), days[i], seals[i]).Some? {
        forall i | 0 <= i < |rest|
          ensures Verify(h, KeyAt(next, rest, i), later[i], rest[i]).Some?
        {
          assert Verify(h, KeyAt(root, seals, i + 1), days[i + 1], seals[i + 1]).Some?;
        }
        assert Verify(h, KeyAt(root, seals, 0), days[0], seals[0]).Some?;
      }
      if VerifyAll(h, root, days, seals).Some? {
        forall i | 0 <= i < |seals|
          ensures Verify(h, KeyAt(root, seals, i), days[i], seals[i]).Some?
        {
          if i > 0 {
            assert Verify(h, KeyAt(next, rest, i - 1), later[i - 1], rest[i - 1]).Some?;
          }
        }
      }
    }
  }

  // ----- forks -----

  /** No key has signed two messages. */
  ghost predicate SignsOnce(signed: set<(Key, Message)>) {
    forall s, t | s in signed && t in signed && s.0 == t.0 :: s == t
  }

  /** A signature that was not made cannot be shown. */
  predicate Made(signed: set<(Key, Message)>, seals: seq<Record>) {
    forall i | 0 <= i < |seals| && seals[i].signature.Signed? ::
      (seals[i].signature.key, seals[i].signature.message) in signed
  }

  /** Two chains that verify from the same root are the same record for record, as far as both go, when no key
      has signed twice; and so are the logs they seal, unless their digests collide. */
  lemma {:induction false} NoFork(h: Bytes -> Digest, root: PublicKey, signed: set<(Key, Message)>,
                                  days: seq<Bytes>, seals: seq<Record>, days': seq<Bytes>, seals': seq<Record>, i: nat)
    requires SignsOnce(signed) && Made(signed, seals) && Made(signed, seals')
    requires |seals| <= |days| && VerifyAll(h, root, days, seals).Some?
    requires |seals'| <= |days'| && VerifyAll(h, root, days', seals').Some?
    requires i < |seals| && i < |seals'|
    ensures seals[i] == seals'[i] && h(days[i]) == h(days'[i])
    ensures KeyAt(root, seals, i + 1) == KeyAt(root, seals', i + 1)
  {
    ChainVerifies(h, root, days, seals);
    ChainVerifies(h, root, days', seals');
    if i > 0 {
      NoFork(h, root, signed, days, seals, days', seals', i - 1);
    }
    assert Verify(h, KeyAt(root, seals, i), days[i], seals[i]).Some?;
    assert Verify(h, KeyAt(root, seals', i), days'[i], seals'[i]).Some?;
    var k := KeyAt(root, seals, i).key;
    assert (k, seals[i].message) in signed && (k, seals'[i].message) in signed;
  }

  // ----- the sealing service -----

  ghost predicate Unused(signed: set<(Key, Message)>, key: Key) {
    forall s | s in signed :: s.0 != key
  }

  /** The seals verify from the root, all that was signed was signed once, with keys that were made for it, and
      the key due next was made too. */
  ghost predicate Sound(h: Bytes -> Digest, root: PublicKey, days: seq<Bytes>, seals: seq<Record>,
                        signed: set<(Key, Message)>, minted: set<Key>)
  {
    && |seals| <= |days|
    && VerifyAll(h, root, days, seals) == Some(KeyAt(root, seals, |seals|))
    && Made(signed, seals) && SignsOnce(signed)
    && (forall s | s in signed :: s.0 in minted)
    && KeyAt(root, seals, |seals|).key in minted
  }

  lemma {:induction false} VerifyExtends(h: Bytes -> Digest, root: PublicKey, days: seq<Bytes>, seals: seq<Record>,
                                         record: Record)
    requires |seals| < |days| && VerifyAll(h, root, days, seals).Some?
    ensures VerifyAll(h, root, days, seals + [record])
      == Verify(h, VerifyAll(h, root, days, seals).value, days[|seals|], record)
    decreases |seals|
  {
    if seals == [] {
      assert (seals + [record])[1..] == [];
    } else {
      assert (seals + [record])[1..] == seals[1..] + [record];
      VerifyExtends(h, seals[0].message.next, days[1..], seals[1..], record);
    }
  }

  lemma {:induction false} LongerLog(h: Bytes -> Digest, root: PublicKey, days: seq<Bytes>, data: Bytes,
                                     seals: seq<Record>)
    requires |seals| <= |days|
    ensures VerifyAll(h, root, days + [data], seals) == VerifyAll(h, root, days, seals)
    decreases |seals|
  {
    if seals != [] {
      assert (days + [data])[1..] == days[1..] + [data];
      LongerLog(h, seals[0].message.next, days[1..], data, seals[1..]);
    }
  }

  lemma SignStep(h: Bytes -> Digest, root: PublicKey, days: seq<Bytes>, seals: seq<Record>,
                 signed: set<(Key, Message)>, minted: set<Key>, message: Message)
    requires Sound(h, root, days, seals, signed, minted) && Unused(signed, KeyAt(root, seals, |seals|).key)
    ensures Sound(h, root, days, seals, signed + {(KeyAt(root, seals, |seals|).key, message)}, minted)
  {
  }

  lemma PublishStep(h: Bytes -> Digest, root: PublicKey, days: seq<Bytes>, seals: seq<Record>,
                    signed: set<(Key, Message)>, minted: set<Key>, record: Record)
    requires Sound(h, root, days, seals, signed, minted) && |seals| < |days|
    requires Verify(h, KeyAt(root, seals, |seals|), days[|seals|], record).Some?
    requires (KeyAt(root, seals, |seals|).key, record.message) in signed && record.message.next.key in minted
    ensures Sound(h, root, days, seals + [record], signed, minted)
    ensures KeyAt(root, seals + [record], |seals| + 1) == record.message.next
  {
    VerifyExtends(h, root, days, seals, record);
  }

  /** Nobody can show a longer chain than the one published while the key that is due has not signed. */
  lemma NoLongerChain(h: Bytes -> Digest, root: PublicKey, days: seq<Bytes>, seals: seq<Record>,
                      signed: set<(Key, Message)>, minted: set<Key>, days': seq<Bytes>, seals': seq<Record>)
    requires Sound(h, root, days, seals, signed, minted) && Unused(signed, KeyAt(root, seals, |seals|).key)
    requires |seals'| <= |days'| && VerifyAll(h, root, days', seals').Some? && Made(signed, seals')
    ensures |seals'| <= |seals| && seals' == seals[..|seals'|]
  {
    ChainVerifies(h, root, days', seals');
    var n := |seals|;
    forall i | 0 <= i < n && i < |seals'|
      ensures seals[i] == seals'[i] && KeyAt(root, seals, i + 1) == KeyAt(root, seals', i + 1)
    {
      NoFork(h, root, signed, days, seals, days', seals', i);
    }
    if n < |seals'| {
      assert false;
    }
  }

  class Service {
    const h: Bytes -> Digest
    var hasKeys: bool
    var current: Option<KeyFile>
    var next: Option<KeyFile>
    var root: Option<PublicKey>
    var days: seq<Bytes>
    var seals: seq<Record>
    ghost var signed: set<(Key, Message)>
    ghost var minted: set<Key>

    ghost predicate Valid()
      reads this
    {
      && (current.Some? || next.Some? ==> hasKeys)
      && (root.None? ==> seals == [] && signed == {} && next.None?)
      && (root.Some? ==> Sound(h, root.value, days, seals, signed, minted) && KeysValid(root.value))
    }

    /** At rest the current key is the one due, and unused. A file beside it marks a round that was cut short,
        before the round's seal was published or after. */
    ghost predicate KeysValid(root: PublicKey)
      reads this
    {
      && current.Some? && current.value.Whole?
      && (next.None? ==> current.value.key == KeyAt(root, seals, |seals|).key && Unused(signed, current.value.key))
    }

    function Expected(): Option<PublicKey>
      reads this
    {
      if seals == [] then root else Some(seals[|seals| - 1].message.next)
    }

    /** The states in which the service may go on: only the current key, and it is the one the chain names. */
    predicate Resting()
      reads this
    {
      && root.Some? && hasKeys && next.None?
      && current.Some? && current.value.Whole?
      && Expected() == Some(Public(current.value.key))
    }

    /** The service rests exactly when the chain has a root and no round was cut short; then the day files
        verify from the root up to the current key, and nobody can show a longer chain. No key ever signs twice. */
    lemma RestingVerifies(days': seq<Bytes>, seals': seq<Record>)
      requires Valid()
      ensures SignsOnce(signed) && Made(signed, seals)
      ensures Resting() <==> root.Some? && next.None?
      ensures Resting()
        ==> |seals| <= |days| && VerifyAll(h, root.value, days, seals) == Some(Public(current.value.key))
      ensures Resting() && |seals'| <= |days'| && VerifyAll(h, root.value, days', seals').Some? && Made(signed, seals')
              ==> |seals'| <= |seals| && seals' == seals[..|seals'|]
    {
      if Resting() && |seals'| <= |days'| && VerifyAll(h, root.value, days', seals').Some? && Made(signed, seals') {
        NoLongerChain(h, root.value, days, seals, signed, minted, days', seals');
      }
    }

    constructor (h: Bytes -> Digest)
      ensures Valid() && seals == [] && days == [] && root.None? && !hasKeys
    {
      this.h := h;
      hasKeys, current, next, root := false, None, None, None;
      days, seals, signed, minted := [], [], {}, {};
    }

    /** A further day's log is closed and will not change any more. */
    method AddDay(data: Bytes)
      requires Valid()
      modifies this`days
      ensures Valid() && days == old(days) + [data]
    {
      if root.Some? {
        LongerLog(h, root.value, days, data, seals);
      }
      days := days + [data];
    }

    /** Makes the first key and publishes its public half as the root of the chain. */
    method Initialise(key: Key, fault: Fault) returns (ok: bool)
      requires Valid() && root.None? && key !in minted
      modifies this
      ensures Valid() && days == old(days) && seals == old(seals)
      ensures ok <==> !old(hasKeys) && fault == Never
      ensures hasKeys
      ensures ok ==> Resting() && root == Some(Public(key)) && minted == old(minted) + {key}
      ensures minted <= old(minted) + {key}
      ensures !ok ==> root.None? && (old(hasKeys) ==> hasKeys && current == old(current))
      ensures signed == old(signed)
    {
      if hasKeys {
        return false;
      }
      hasKeys := true;
      if fault == KeyGeneration {
        return false;
      }
      current, minted := Some(Partial), minted + {key};
      if fault == KeyWriting {
        return false;
      }
      current := Some(Whole(key));
      if fault != Never {
        return false;
      }
      root := Some(Public(key));
      return true;
    }

    /** Accepts exactly the resting states, after making the first key if there is no root yet. */
    method Prepare(key: Key, fault: Fault) returns (ok: bool)
      requires Valid() && key !in minted
      modifies this
      ensures Valid() && days == old(days) && seals == old(seals)
      ensures ok <==> Resting()
      ensures old(root).Some?
        ==> hasKeys == old(hasKeys) && current == old(current) && next == old(next) && root == old(root)
                                  && signed == old(signed) && minted == old(minted)
      ensures old(root).None? ==> hasKeys
      ensures old(root).None? ==> (ok <==> !old(hasKeys) && fault == Never) && minted <= old(minted) + {key}
      ensures old(root).None? ==> signed == old(signed) && root == if ok then Some(Public(key)) else None
    {
      if root.None? {
        ok := Initialise(key, fault);
        return;
      }
      if !hasKeys || current.None? || next.Some? {
        return false;
      }
      return current.value.Whole? && Some(Public(current.value.key)) == Expected();
    }

    /** Makes the next key's file. */
    method MakeKey(key: Key, fault: Fault) returns (ok: bool)
      requires Valid() && root.Some? && key !in minted && next.None?
      modifies this`next, this`minted
      ensures Valid()
      ensures ok <==> fault != KeyGeneration && fault != KeyWriting
      ensures next
        == if fault == KeyGeneration then None else if fault == KeyWriting then Some(Partial) else Some(Whole(key))
      ensures minted == if fault == KeyGeneration then old(minted) else old(minted) + {key}
    {
      if fault == KeyGeneration {
        return false;
      }
      minted := minted + {key};
      if fault == KeyWriting {
        next := Some(Partial);
        return false;
      }
      next := Some(Whole(key));
      return true;
    }

    /** Signs the record of a day with the current key, which names the next one. */
    method SignRecord(day: nat, datetime: string, key: Key, fault: Fault) returns (record: Record)
      requires Valid() && root.Some? && next.Some?
      requires current == Some(Whole(KeyAt(root.value, seals, |seals|).key)) && Unused(signed, current.value.key)
      requires day == |seals| && day < |days|
      modifies this`signed
      ensures Valid()
      ensures record.message == Message(datetime, Public(key), h(days[day]))
      ensures record.signature == if fault == BadSignature then Spoiled else Signed(current.value.key, record.message)
      ensures signed == old(signed) + {(current.value.key, record.message)}
    {
      var signer := current.value.key;
      var message := Message(datetime, Public(key), h(days[day]));
      SignStep(h, root.value, days, seals, signed, minted, message);
      signed := signed + {(signer, message)};
      return Record(message, if fault == BadSignature then Spoiled else Signed(signer, message));
    }

    /** Publishes a seal and then puts the next key in the place of the current one. */
    method Publish(record: Record, fault: Fault) returns (ok: bool)
      requires Valid() && root.Some? && |seals| < |days| && next == Some(Whole(record.message.next.key))
      requires Verify(h, KeyAt(root.value, seals, |seals|), days[|seals|], record).Some?
      requires (KeyAt(root.value, seals, |seals|).key, record.message) in signed
      requires record.message.next.key in minted && Unused(signed, record.message.next.key)
      modifies this`seals, this`current, this`next
      ensures Valid() && seals == old(seals) + [record]
      ensures ok <==> fault != Replacing
      ensures ok ==> Resting()
      ensures !ok ==> current == old(current) && next == old(next)
    {
      PublishStep(h, root.value, days, seals, signed, minted, record);
      seals := seals + [record];
      if fault == Replacing {
        return false;
      }
      current, next := next, None;
      return true;
    }

    /** The next key's file after a round in which it was made or begun. */
    static function LeftBehind(key: Key, fault: Fault): Option<KeyFile> {
      match fault
      case Never => None
      case KeyGeneration => None
      case KeyWriting => Some(Partial)
      case _ => Some(Whole(key))
    }

    /** One round: a new key, a seal signed with the current one, its publication, and the change of keys. A round
        that is cut short once the new key's file exists leaves that file behind, and every later round fails on it. */
    method Seal(day: nat, datetime: string, key: Key, fault: Fault) returns (ok: bool)
      requires Valid() && root.Some? && key !in minted
      requires day < |days| && day <= |seals|
      modifies this`current, this`next, this`seals, this`signed, this`minted
      ensures Valid()
      ensures ok <==> fault == Never && day == old(|seals|) && old(next).None?
      ensures ok ==> Resting()
      ensures if ok || (fault == Replacing && day == old(|seals|) && old(next).None?)
                then |seals| == day + 1 && seals[..day] == old(seals)
                  && seals[day].message == Message(datetime, Public(key), h(days[day]))
                else seals == old(seals)
      ensures !ok ==> current == old(current)
      ensures next == if day == old(|seals|) && old(next).None? then LeftBehind(key, fault) else old(next)
      ensures !ok && next == old(next) ==> signed == old(signed)
    {
      if day < |seals| || next.Some? {
        return false;
      }
      assert Unused(signed, key);
      var made := MakeKey(key, fault);
      if !made || fault == Signing {
        return false;
      }
      var record := SignRecord(day, datetime, key, fault);
      if record.signature != Signed(current.value.key, record.message) || fault == Publishing {
        return false;
      }
      ok := Publish(record, fault);
    }

    /** What the daily job does, given how many days are due: checks that there are no more seals than that, checks
        the state, makes the first key if there is no root and no key directory yet, and seals the first day that
        has no seal. Either step may be cut short. */
    method SealNext(due: nat, datetime: string, first: Key, firstFault: Fault, key: Key, fault: Fault)
      returns (ok: bool)
      requires Valid() && due <= |days| && first !in minted && key !in minted && first != key
      modifies this
      ensures Valid() && days == old(days)
      ensures
        var initial := old(root).None? && !old(hasKeys) && firstFault == Never;
        var ready := old(|seals|) <= due && (old(Resting()) || initial);
        var published := old(|seals|) < due && fault in {Never, Replacing};
        && (ok <==> ready && (fault == Never || old(|seals|) == due))
        && (ready ==> root == if old(root).None? then Some(Public(first)) else old(root))
        && (ready ==> |seals| == if published then old(|seals|) + 1 else old(|seals|))
        && (!ready ==> root == old(root) && seals == old(seals) && signed == old(signed))
        && (!ready && old(|seals|) <= due ==> !Resting())
      ensures ok ==> Resting()
      ensures |old(seals)| <= |seals| && seals[..|old(seals)|] == old(seals)
    {
      if |seals| > due {
        return false;
      }
      ok := Prepare(first, firstFault);
      if !ok || |seals| == due {
        return;
      }
      ok := Seal(|seals|, datetime, key, fault);
    }
  }
}
