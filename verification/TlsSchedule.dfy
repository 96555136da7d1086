/** The key schedule of lib/picotls.c over symbolic terms, against section 7.1 of RFC 8446. */
module TlsSchedule {
  import opened Common

  // ----- messages and terms ----------------------------------------------------------------------------------------

  /** A cipher suite and the hash it goes with. */
  datatype Suite = Suite(id: nat, hash: nat)

  /** The public value of a private key, in a group. */
  datatype Share = Share(group: nat, key: nat)

  datatype Cookie = Cookie(ch1Hash: Term, sentKeyShare: bool, signature: Term)

  datatype Identity = Identity(ticket: nat, binder: Term)

  datatype Modes = Modes(psk: bool, pskDhe: bool)

  datatype ClientHello = ClientHello(
    random: nat, suites: seq<Suite>, groups: seq<nat>, shares: seq<Share>, cookie: Option<Cookie>,
    modes: Modes, earlyData: bool, identities: seq<Identity>)

  datatype Message =
    | Hello(ch: ClientHello)
    | ServerHello(random: nat, suite: Suite, share: Option<Share>, psk: Option<nat>)
    | RetryRequest(suite: Suite, group: Option<nat>, cookie: Option<Cookie>)
    | EncryptedExtensions(earlyData: bool)
    | CertificateRequest
    | Certificate(chain: nat)
    | CertificateVerify(signature: Term)
    | Finished(verifyData: Term)
    | EndOfEarlyData
    | NewSessionTicket(nonce: nat)

  /** What is hashed: a ClientHello up to its binders, the binders, any other message, the header of a
      message_hash, a digest. */
  datatype Atom =
    | Truncated(ch: ClientHello)
    | Binders(binders: seq<Term>)
    | Whole(m: Message)
    | MessageHash(alg: nat)
    | Digest(t: Term)

  type Bytes = seq<Atom>

  datatype Label =
    | Derived | ResBinder | ClientEarly | ClientHandshake | ServerHandshake | ClientApp | ServerApp
    | ResMaster | Resumption | FinishedKey

  /** Symbolic values: two terms are equal only if they were made the same way. */
  datatype Term =
    | Zeros
    | Nothing
    | Atomic(id: nat)
    | Dh(client: nat, server: nat)
    | Hash(alg: nat, bytes: seq<Atom>)
    | Extract(alg: nat, salt: Term, ikm: Term)
    | Expand(alg: nat, secret: Term, tag: Label, context: Term)
    | Hmac(alg: nat, key: Term, data: Term)
    | Signature(byServer: bool, data: Term)
    | CookieMac(cookieKey: nat, random: nat, suite: nat, group: nat, ch1Hash: Term, sentKeyShare: bool)

  function WithoutBinders(ch: ClientHello): (r: ClientHello) {
    ch.(identities := seq(|ch.identities|, i requires 0 <= i < |ch.identities| => ch.identities[i].(binder := Nothing)))
  }

  /** The part of the message that binders cover, and the rest. */
  function Covered(ch: ClientHello): (b: Bytes) {
    [Truncated(WithoutBinders(ch))]
  }

  function Uncovered(ch: ClientHello): (b: Bytes) {
    if ch.identities == [] then []
    else [Binders(seq(|ch.identities|, i requires 0 <= i < |ch.identities| => ch.identities[i].binder))]
  }

  function Wire(m: Message): (b: Bytes) {
    if m.Hello? then Covered(m.ch) + Uncovered(m.ch) else [Whole(m)]
  }

  function WireAll(ms: seq<Message>): (b: Bytes) {
    if ms == [] then [] else WireAll(ms[..|ms| - 1]) + Wire(ms[|ms| - 1])
  }

  // ----- section 7.1 of RFC 8446 -------------------------------------------------------------------------------------

  function OrZeros(t: Option<Term>): (r: Term) {
    if t.None? then Zeros else t.value
  }

  function EarlySecret(alg: nat, psk: Option<Term>): (t: Term) {
    Extract(alg, Zeros, OrZeros(psk))
  }

  function NextSalt(alg: nat, secret: Term): (t: Term) {
    Expand(alg, secret, Derived, Hash(alg, []))
  }

  function HandshakeSecret(alg: nat, psk: Option<Term>, dh: Option<Term>): (t: Term) {
    Extract(alg, NextSalt(alg, EarlySecret(alg, psk)), OrZeros(dh))
  }

  function MasterSecret(alg: nat, psk: Option<Term>, dh: Option<Term>): (t: Term) {
    Extract(alg, NextSalt(alg, HandshakeSecret(alg, psk, dh)), Zeros)
  }

  /** Derive-Secret */
  function DeriveSecret(alg: nat, secret: Term, tag: Label, transcript: Bytes): (t: Term) {
    Expand(alg, secret, tag, Hash(alg, transcript))
  }

  /** The verify_data of a Finished message or a binder (section 4.4.4). */
  function VerifyData(alg: nat, base: Term, transcript: Bytes): (t: Term) {
    Hmac(alg, Expand(alg, base, FinishedKey, Nothing), Hash(alg, transcript))
  }

  /** Section 4.4.1: a ClientHello answered by a retry is replaced by its hash. */
  function Retried(alg: nat, ch1: Bytes): (b: Bytes) {
    [MessageHash(alg), Digest(Hash(alg, ch1))]
  }

  // ----- the schedule ------------------------------------------------------------------------------------------------

  datatype HashCtx = HashCtx(algo: nat, data: Bytes)

  /** ptls_key_schedule_t; without hashes it does not exist yet. */
  datatype Sched = Sched(generation: nat, secret: Term, hashes: seq<HashCtx>)

  /** Candidate hashes are distinct and have seen the same bytes. */
  ghost predicate Uniform(s: Sched) {
    && s.hashes != []
    && (forall i, j :: 0 <= i < j < |s.hashes| ==> s.hashes[i].algo != s.hashes[j].algo)
    && (forall i :: 0 <= i < |s.hashes| ==> s.hashes[i].data == s.hashes[0].data)
  }

  function Alg(s: Sched): (alg: nat)
    requires s.hashes != []
  {
    s.hashes[0].algo
  }

  function Transcript(s: Sched): (b: Bytes)
    requires s.hashes != []
  {
    s.hashes[0].data
  }

  ghost predicate Has(s: Sched, alg: nat) {
    exists i :: 0 <= i < |s.hashes| && s.hashes[i].algo == alg
  }

  /** After `generation` extractions the secret is the one the standard names. */
  ghost predicate Follows(generation: nat, secret: Term, alg: nat, psk: Option<Term>, dh: Option<Term>) {
    && (generation == 1 ==> secret == EarlySecret(alg, psk))
    && (generation == 2 ==> secret == HandshakeSecret(alg, psk, dh))
    && (generation == 3 ==> secret == MasterSecret(alg, psk, dh))
  }

  ghost predicate Conforms(s: Sched, psk: Option<Term>, dh: Option<Term>) {
    s.hashes != [] && Follows(s.generation, s.secret, Alg(s), psk, dh)
  }

  /** key_schedule_new: a context for every hash that can still be chosen, the preferred one first. */
  method NewSched(preferred: Option<Suite>, offered: seq<Suite>) returns (s: Sched)
    requires preferred.Some? || offered != []
    ensures Uniform(s) && Transcript(s) == [] && s.generation == 0 && s.secret == Zeros
    ensures preferred.Some? ==> Alg(s) == preferred.value.hash
    ensures forall i :: 0 <= i < |offered| ==> Has(s, offered[i].hash)
    ensures preferred.Some? && offered == [] ==> s.hashes == [HashCtx(preferred.value.hash, [])]
  {
    var hashes: seq<HashCtx> := [];
    if preferred.Some? { hashes := [HashCtx(preferred.value.hash, [])]; }
    for i := 0 to |offered|
      invariant forall j, k :: 0 <= j < k < |hashes| ==> hashes[j].algo != hashes[k].algo
      invariant forall j :: 0 <= j < |hashes| ==> hashes[j].data == []
      invariant preferred.Some? ==> hashes != [] && hashes[0].algo == preferred.value.hash
      invariant preferred.None? && i > 0 ==> hashes != []
      invariant forall j :: 0 <= j < |hashes| ==>
                  (preferred.Some? && hashes[j].algo == preferred.value.hash)
                  || exists k :: 0 <= k < i && offered[k].hash == hashes[j].algo
      invariant forall k :: 0 <= k < i ==> Has(Sched(0, Zeros, hashes), offered[k].hash)
      invariant offered == [] ==> preferred.Some? && hashes == [HashCtx(preferred.value.hash, [])]
    {
      ghost var before := Sched(0, Zeros, hashes);
      var seen := preferred.Some? && offered[i].hash == preferred.value.hash;
      var j := 0;
      while j < i && !seen
        invariant 0 <= j <= i
        invariant seen ==> (preferred.Some? && offered[i].hash == preferred.value.hash)
                           || exists k :: 0 <= k < i && offered[k].hash == offered[i].hash
        invariant !seen ==> (preferred.Some? ==> offered[i].hash != preferred.value.hash)
                            && forall k :: 0 <= k < j ==> offered[k].hash != offered[i].hash
        decreases i - j, !seen
      {
        if offered[j].hash == offered[i].hash { seen := true; } else { j := j + 1; }
      }
      if seen {
        if preferred.Some? && offered[i].hash == preferred.value.hash {
          assert before.hashes[0].algo == offered[i].hash;
        } else {
          var k :| 0 <= k < i && offered[k].hash == offered[i].hash;
          assert Has(before, offered[k].hash);
        }
      } else {
        ghost var after := Sched(0, Zeros, hashes + [HashCtx(offered[i].hash, [])]);
        assert after.hashes[|hashes|].algo == offered[i].hash;
        forall k | 0 <= k < i
          ensures Has(after, offered[k].hash)
        {
          Kept(before, HashCtx(offered[i].hash, []), offered[k].hash);
        }
        hashes := hashes + [HashCtx(offered[i].hash, [])];
      }
    }
    s := Sched(0, Zeros, hashes);
  }

  lemma Kept(s: Sched, h: HashCtx, alg: nat)
    requires Has(s, alg)
    ensures Has(s.(hashes := s.hashes + [h]), alg)
  {
    var i :| 0 <= i < |s.hashes| && s.hashes[i].algo == alg;
    assert (s.hashes + [h])[i].algo == alg;
  }

  /** key_schedule_extract */
  function ExtractStep(s: Sched, ikm: Option<Term>): (r: Sched)
    requires s.hashes != []
  {
    var salt := if s.generation != 0 then NextSalt(Alg(s), s.secret) else s.secret;
    s.(generation := s.generation + 1, secret := Extract(Alg(s), salt, OrZeros(ikm)))
  }

  /** From one generation to the next along section 7.1. */
  lemma ExtractConforms(s: Sched, psk: Option<Term>, dh: Option<Term>, ikm: Option<Term>)
    requires s.hashes != [] && s.generation <= 2
    requires s.generation == 0 ==> s.secret == Zeros && ikm == psk
    requires s.generation > 0 ==> Conforms(s, psk, dh)
    requires s.generation == 1 ==> ikm == dh
    requires s.generation == 2 ==> ikm == None
    ensures Conforms(ExtractStep(s, ikm), psk, dh)
  {}

  /** ptls__key_schedule_update_hash: every candidate takes the bytes. */
  method UpdateHash(s: Sched, msg: Bytes) returns (r: Sched)
    requires Uniform(s)
    ensures r == Updated(s, msg)
    ensures |s.hashes| == 1 ==> r == s.(hashes := [HashCtx(Alg(s), Transcript(s) + msg)])
  {
    var hashes := s.hashes;
    for i := 0 to |hashes|
      invariant |hashes| == |s.hashes|
      invariant forall k :: 0 <= k < i ==> hashes[k] == HashCtx(s.hashes[k].algo, s.hashes[k].data + msg)
      invariant forall k :: i <= k < |hashes| ==> hashes[k] == s.hashes[k]
    {
      hashes := hashes[i := HashCtx(hashes[i].algo, hashes[i].data + msg)];
    }
    r := s.(hashes := hashes);
    assert hashes == Updated(s, msg).hashes;
  }

  function Updated(s: Sched, msg: Bytes): (r: Sched) {
    s.(hashes := seq(|s.hashes|, i requires 0 <= i < |s.hashes| => HashCtx(s.hashes[i].algo, s.hashes[i].data + msg)))
  }

  lemma UpdatedUniform(s: Sched, msg: Bytes)
    requires Uniform(s)
    ensures Uniform(Updated(s, msg)) && Transcript(Updated(s, msg)) == Transcript(s) + msg
            && Alg(Updated(s, msg)) == Alg(s)
    ensures forall alg :: Has(s, alg) ==> Has(Updated(s, msg), alg)
    ensures forall psk, dh :: Conforms(s, psk, dh) ==> Conforms(Updated(s, msg), psk, dh)
  {
    var r := Updated(s, msg);
    forall alg | Has(s, alg)
      ensures Has(r, alg)
    {
      var i :| 0 <= i < |s.hashes| && s.hashes[i].algo == alg;
      assert r.hashes[i].algo == alg;
    }
  }

  /** key_schedule_select_one: the other candidates go; unless the first one stays and no reset is asked
      for, the early secret is computed again, without a pre-shared key.  There is no result when the hash is
      not a candidate: the source then indexes its array with SIZE_MAX. */
  method SelectOne(s: Sched, hash: nat, reset: bool) returns (r: Option<Sched>)
    requires Uniform(s) && s.generation == 1
    ensures r.Some? <==> Has(s, hash)
    ensures r.Some? ==> r.value.hashes == [HashCtx(hash, Transcript(s))] && r.value.generation == 1
    ensures r.Some? ==> r.value.secret == if reset || Alg(s) != hash then EarlySecret(hash, None) else s.secret
  {
    var found: Option<nat> := None;
    for i := 0 to |s.hashes|
      invariant found.None? ==> forall k :: 0 <= k < i ==> s.hashes[k].algo != hash
      invariant found.Some? ==> found.value < i && s.hashes[found.value].algo == hash
    {
      if s.hashes[i].algo == hash { found := Some(i); }
    }
    if found.None? { return None; }
    var one := s.(hashes := [s.hashes[found.value]]);
    if found.value != 0 || reset {
      one := ExtractStep(one.(generation := 0, secret := Zeros), None);
    }
    r := Some(one);
  }

  /** key_schedule_transform_post_ch1hash, with the one hash that is left. */
  function TransformCh1(s: Sched): (r: Sched)
    requires |s.hashes| == 1
  {
    s.(hashes := [HashCtx(Alg(s), Retried(Alg(s), Transcript(s)))])
  }

  /** derive_secret: a snapshot of the transcript. */
  function Derive(s: Sched, tag: Label): (t: Term)
    requires s.hashes != []
  {
    DeriveSecret(Alg(s), s.secret, tag, Transcript(s))
  }

  /** calc_verify_data */
  function Verify(s: Sched, base: Term): (t: Term)
    requires s.hashes != []
  {
    VerifyData(Alg(s), base, Transcript(s))
  }
}
