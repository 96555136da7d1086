/** The handshake of lib/picotls.c: the handlers of both sides on the connection state, over symbolic
    messages, and what holds in every state that can be reached without an error. */
module TlsHandshake {
  import opened Common
  import opened TlsSchedule

  datatype State =
    | ClientHandshakeStart
    | ClientExpectServerHello
    | ClientExpectSecondServerHello
    | ClientExpectEncryptedExtensions
    | ClientExpectCertificateRequestOrCertificate
    | ClientExpectCertificate
    | ClientExpectCertificateVerify
    | ClientExpectFinished
    | ServerExpectClientHello
    | ServerExpectSecondClientHello
    | ServerExpectCertificate
    | ServerExpectCertificateVerify
    | ServerExpectEndOfEarlyData
    | ServerExpectFinished
    | ClientPostHandshake
    | ServerPostHandshake

  /** ptls_get_read_epoch */
  function ReadEpoch(s: State): (e: nat) {
    match s
    case ClientHandshakeStart | ClientExpectServerHello | ClientExpectSecondServerHello => 0
    case ServerExpectClientHello | ServerExpectSecondClientHello => 0
    case ServerExpectEndOfEarlyData => 1
    case ClientPostHandshake | ServerPostHandshake => 3
    case _ => 2
  }

  /** One direction of traffic_protection: `armed` when there is an AEAD context. */
  datatype Traffic = Traffic(secret: Term, epoch: nat, armed: bool)

  /** The parts of ptls_context_t and of the handshake properties that the handlers consult.  `verify`
      is what the certificate callback makes of signed data and a signature. */
  datatype Config = Config(
    suites: seq<Suite>, groups: seq<nat>, requireDhe: bool, omitEndOfEarlyData: bool, verify: (Term, Term) -> bool,
    saveTicket: bool, negotiateBeforeKeyExchange: bool,
    requireClientAuth: bool, maxEarlyData: bool, encryptTicket: bool, ticketLifetime: bool,
    enforceRetry: bool, retryUsesCookie: bool, cookieKey: nat)

  /** A session ticket as the client keeps it. */
  datatype StoredTicket = StoredTicket(id: nat, secret: Term, suite: Suite, group: nat, earlyData: bool)

  /** What the server makes of an identity it accepts. */
  datatype Accepted = Accepted(psk: Term, suite: Suite, earlyData: bool)

  type Lookup = nat -> Option<Accepted>

  datatype Mode = Full | PskOnly | PskDhe

  function FirstIn<T(==)>(wanted: seq<T>, have: seq<T>): (r: Option<T>)
    ensures r.Some? ==> r.value in wanted && r.value in have
    ensures r.None? ==> forall x :: x in wanted ==> x !in have
  {
    if wanted == [] then None else if wanted[0] in have then Some(wanted[0]) else FirstIn(wanted[1..], have)
  }

  /** select_key_share */
  function FirstShare(shares: seq<Share>, groups: seq<nat>): (r: Option<Share>)
    ensures r.Some? ==> r.value in shares && r.value.group in groups
  {
    if shares == [] then None else if shares[0].group in groups then Some(shares[0])
      else FirstShare(shares[1..], groups)
  }

  function HasMode(m: Modes): (b: bool) {
    m.psk || m.pskDhe
  }

  /** The key with which a binder is made (section 7.1). */
  function BinderKey(alg: nat, psk: Option<Term>): (t: Term) {
    DeriveSecret(alg, EarlySecret(alg, psk), ResBinder, [])
  }

  /** calc_cookie_signature */
  function CookieSignature(key: nat, random: nat, suite: Suite, group: nat, ch1Hash: Term,
                           sentKeyShare: bool): (t: Term) {
    CookieMac(key, random, suite.id, group, ch1Hash, sentKeyShare)
  }

  /** What becomes of a message on the client: NoSlot when the hash it chooses is no candidate any more, and the
      source reads outside its key schedule. */
  datatype Verdict = Refused | Handled | NoSlot

  datatype HelloResult = Fail | Retry(hrr: Message) | StatelessRetry(hrr: Message) | Flight(messages: seq<Message>)

  class Tls {
    const isServer: bool
    const cfg: Config
    var state: State
    var sched: Sched
    var enc: Traffic
    var dec: Traffic
    var pendingHandshakeSecret: Option<Term>
    var isPsk: bool
    var suite: Option<Suite>

    // client
    var keyShare: Option<nat>
    var keyShareCtx: Option<nat>
    var offeredPsk: bool
    var usingEarlyData: bool
    var certificateRequested: bool

    // server
    var clientRandom: nat
    var pendingTrafficSecret: Term
    var ticketSecret: Option<Term>

    // what went into the secrets, and the transcripts at the points the standard names
    ghost var psk: Option<Term>
    ghost var ticketHash: Option<nat>
    ghost var dh: Option<Term>
    ghost var hello: Bytes
    ghost var flight: Bytes
    ghost var certBase: Bytes
    ghost var certSignature: Term
    ghost var finBase: Bytes
    ghost var finData: Term

    constructor (isServer: bool, cfg: Config)
      requires cfg.suites != [] && cfg.groups != []
      ensures Valid() && this.isServer == isServer && this.cfg == cfg
      ensures state == if isServer then ServerExpectClientHello else ClientHandshakeStart
      ensures !offeredPsk && !usingEarlyData && keyShare == None && !isPsk && !certificateRequested
    {
      this.isServer, this.cfg := isServer, cfg;
      state := if isServer then ServerExpectClientHello else ClientHandshakeStart;
      sched := Sched(0, Zeros, []);
      enc, dec := Traffic(Zeros, 0, false), Traffic(Zeros, 0, false);
      pendingHandshakeSecret, isPsk, suite := None, false, None;
      keyShare, keyShareCtx, offeredPsk, usingEarlyData, certificateRequested := None, None, false, false, false;
      clientRandom, pendingTrafficSecret, ticketSecret := 0, Zeros, None;
      psk, dh, ticketHash := None, None, None;
    }

    // ----- what every reachable state satisfies ------------------------------------------------------------------

    ghost predicate OneHash(generation: nat)
      reads this
    {
      |sched.hashes| == 1 && sched.generation == generation && Conforms(sched, psk, dh)
    }

    ghost function Handshake(tag: Label): (t: Term)
      requires sched.hashes != []
      reads this
    {
      DeriveSecret(Alg(sched), HandshakeSecret(Alg(sched), psk, dh), tag, hello)
    }

    ghost function App(tag: Label): (t: Term)
      requires sched.hashes != []
      reads this
    {
      DeriveSecret(Alg(sched), MasterSecret(Alg(sched), psk, dh), tag, flight)
    }

    /** The CertificateVerify that was accepted covers the transcript before it and ends at `end`. */
    ghost predicate Certified(end: Bytes)
      requires sched.hashes != []
      reads this
    {
      cfg.verify(Hash(Alg(sched), certBase), certSignature) && end == certBase + Wire(CertificateVerify(certSignature))
    }

    /** The Finished that was accepted has the verify data of the peer's handshake secret. */
    ghost predicate Confirmed(tag: Label, end: Bytes)
      requires sched.hashes != []
      reads this
    {
      finData == VerifyData(Alg(sched), Handshake(tag), finBase) && end == finBase + Wire(Finished(finData))
    }

    /** The pre-shared key is in the secrets exactly when the server chose it and the hash is the ticket's. */
    ghost predicate KeyCounts()
      requires sched.hashes != []
      reads this
    {
      psk.Some? <==> isPsk && ticketHash == Some(Alg(sched))
    }

    /** The client after ServerHello: handshake keys in place, the pending one only for early data. */
    ghost predicate ClientMiddle()
      reads this
    {
      && OneHash(2) && dec.secret == Handshake(ServerHandshake)
      && (if pendingHandshakeSecret.Some? then pendingHandshakeSecret.value else enc.secret)
         == Handshake(ClientHandshake)
      && (usingEarlyData ==> pendingHandshakeSecret.Some?) && (certificateRequested ==> !isPsk) && KeyCounts()
    }

    /** The server after its flight. */
    ghost predicate ServerMiddle()
      reads this
    {
      && OneHash(3) && enc == Traffic(App(ServerApp), 3, true) && pendingTrafficSecret == App(ClientApp)
      && (if pendingHandshakeSecret.Some? then pendingHandshakeSecret.value else dec.secret)
         == Handshake(ClientHandshake)
      && (cfg.requireClientAuth ==> !isPsk)
    }

    ghost predicate Valid()
      reads this
    {
      && cfg.suites != [] && cfg.groups != []
      && dec.epoch == ReadEpoch(state)
      && (isServer ==> (pendingHandshakeSecret.Some? <==> state == ServerExpectEndOfEarlyData))
      && match state
         case ClientHandshakeStart =>
           && !isServer && sched.hashes == [] && pendingHandshakeSecret.None? && !usingEarlyData && !isPsk && psk.None?
              && dh.None?
           && !certificateRequested
         case ClientExpectServerHello =>
           && !isServer && Uniform(sched) && sched.generation == 1 && Conforms(sched, psk, dh)
              && pendingHandshakeSecret.None?
           && (forall s :: s in cfg.suites ==> Has(sched, s.hash)) && (keyShare.Some? ==> keyShareCtx.Some?) && !isPsk
           && !certificateRequested && (psk.Some? ==> offeredPsk)
              && ticketHash == (if psk.Some? then Some(Alg(sched)) else None)
         case ClientExpectSecondServerHello =>
           && !isServer && OneHash(1) && pendingHandshakeSecret.None? && !usingEarlyData
           && (keyShare.Some? ==> keyShareCtx.Some?) && !isPsk && !certificateRequested && (psk.Some? ==> offeredPsk)
           && (psk.Some? <==> ticketHash == Some(Alg(sched)))
         case ClientExpectEncryptedExtensions => !isServer && ClientMiddle()
         case ClientExpectCertificateRequestOrCertificate | ClientExpectCertificate | ClientExpectCertificateVerify =>
           !isServer && ClientMiddle() && !isPsk
         case ClientExpectFinished => !isServer && ClientMiddle() && (isPsk || Certified(Transcript(sched)))
         case ClientPostHandshake =>
           && !isServer && OneHash(3) && dec == Traffic(App(ServerApp), 3, true)
              && enc == Traffic(App(ClientApp), 3, true)
           && Confirmed(ServerHandshake, flight) && (isPsk || Certified(finBase)) && KeyCounts()
         case ServerExpectClientHello => isServer && psk.None? && dh.None? && !isPsk
         case ServerExpectSecondClientHello =>
           isServer && OneHash(1) && suite.Some? && psk.None? && dh.None? && Alg(sched) == suite.value.hash && !isPsk
         case ServerExpectEndOfEarlyData => isServer && ServerMiddle() && !cfg.requireClientAuth
           && !cfg.omitEndOfEarlyData
         case ServerExpectCertificate | ServerExpectCertificateVerify => isServer && ServerMiddle()
         case ServerExpectFinished =>
           isServer && ServerMiddle() && (cfg.requireClientAuth ==> Certified(Transcript(sched)))
         case ServerPostHandshake =>
           && isServer && OneHash(3) && enc == Traffic(App(ServerApp), 3, true)
              && dec == Traffic(App(ClientApp), 3, true)
           && Confirmed(ClientHandshake, Transcript(sched)) && (cfg.requireClientAuth ==> !isPsk && Certified(finBase))
    }

    /** With one hash, updating is appending. */
    method Absorb(b: Bytes)
      requires |sched.hashes| == 1
      modifies this`sched
      ensures sched == old(sched).(hashes := [HashCtx(old(Alg(sched)), old(Transcript(sched)) + b)])
    {
      sched := UpdateHash(sched, b);
    }

    // ----- the client ----------------------------------------------------------------------------------------------

    predicate Usable(ticket: Option<StoredTicket>) {
      ticket.Some? && ticket.value.suite in cfg.suites && ticket.value.group in cfg.groups
    }

    /** What the ClientHello says, binder apart. */
    function Offer(ticket: Option<StoredTicket>, random: nat, key: nat, cookie: Option<Cookie>,
                   second: bool): (ch: ClientHello)
      reads this
    {
      ClientHello(
        random, cfg.suites, cfg.groups, if keyShare.Some? then [Share(keyShare.value, key)] else [], cookie,
        if cfg.saveTicket || Usable(ticket) then Modes(!cfg.requireDhe, true) else Modes(false, false),
        Usable(ticket) && usingEarlyData && !second,
        if Usable(ticket) then [Identity(ticket.value.id, Nothing)] else [])
    }

    /** The first part of send_client_hello: what is offered and with which key schedule. */
    method PrepareFirstHello(ticket: Option<StoredTicket>, wantEarlyData: bool)
      requires Valid() && state == ClientHandshakeStart
      modifies this
      ensures offeredPsk == (old(offeredPsk) || Usable(ticket)) && isPsk == old(isPsk)
              && certificateRequested == old(certificateRequested)
      ensures usingEarlyData == (Usable(ticket) && ticket.value.earlyData && wantEarlyData)
      ensures keyShare == (if old(keyShare).Some? then old(keyShare)
                           else if Usable(ticket) then Some(ticket.value.group)
                           else if cfg.negotiateBeforeKeyExchange then None else Some(cfg.groups[0]))
      ensures psk == (if Usable(ticket) then Some(ticket.value.secret) else None) && dh.None?
      ensures Uniform(sched) && sched.generation == 1 && Conforms(sched, psk, dh) && Transcript(sched) == []
      ensures Usable(ticket) ==> Alg(sched) == ticket.value.suite.hash
      ensures ticketHash == if Usable(ticket) then Some(ticket.value.suite.hash) else None
      ensures forall s :: s in cfg.suites ==> Has(sched, s.hash)
      ensures state == old(state) && dec == old(dec) && pendingHandshakeSecret == old(pendingHandshakeSecret)
    {
      hide Valid, Uniform, Has, Conforms, ExtractStep;
      StartFacts();
      AdoptTicket(ticket, wantEarlyData);
      StartSchedule(if Usable(ticket) then Some(ticket.value.suite) else None,
        if Usable(ticket) then Some(ticket.value.secret) else None);
      ticketHash := if Usable(ticket) then Some(ticket.value.suite.hash) else None;
    }

    method AdoptTicket(ticket: Option<StoredTicket>, wantEarlyData: bool)
      requires cfg.groups != [] && !usingEarlyData
      modifies this`offeredPsk, this`keyShare, this`suite, this`usingEarlyData
      ensures offeredPsk == (old(offeredPsk) || Usable(ticket))
      ensures usingEarlyData == (Usable(ticket) && ticket.value.earlyData && wantEarlyData)
      ensures keyShare == (if old(keyShare).Some? then old(keyShare)
                           else if Usable(ticket) then Some(ticket.value.group)
                           else if cfg.negotiateBeforeKeyExchange then None else Some(cfg.groups[0]))
    {
      if Usable(ticket) {
        offeredPsk := true;
        if keyShare.None? { keyShare := Some(ticket.value.group); }
        suite := Some(ticket.value.suite);
        if ticket.value.earlyData && wantEarlyData { usingEarlyData := true; }
      } else {
        suite := None;
      }
      if keyShare.None? && !cfg.negotiateBeforeKeyExchange { keyShare := Some(cfg.groups[0]); }
    }

    /** A schedule for every hash that may be chosen, the ticket's first, with the early secret. */
    method StartSchedule(preferred: Option<Suite>, secret: Option<Term>)
      requires cfg.suites != [] && dh.None?
      modifies this`sched, this`psk
      ensures psk == secret && Uniform(sched) && sched.generation == 1 && Conforms(sched, psk, dh)
              && Transcript(sched) == []
      ensures preferred.Some? ==> Alg(sched) == preferred.value.hash
      ensures forall s :: s in cfg.suites ==> Has(sched, s.hash)
    {
      var fresh' := NewSched(preferred, cfg.suites);
      sched := ExtractStep(fresh', secret);
      psk := secret;
      forall s | s in cfg.suites
        ensures Has(sched, s.hash)
      {
        var i :| 0 <= i < |cfg.suites| && cfg.suites[i] == s;
        SameHashes(fresh', sched, s.hash);
      }
    }

    /** The second part: the binder covers everything before it; then the whole message is hashed. */
    method FillBinder(offer: ClientHello) returns (ch: ClientHello)
      requires Uniform(sched) && |offer.identities| <= 1
      modifies this`sched
      ensures ch == offer.(identities := ch.identities) && |ch.identities| == |offer.identities|
      ensures offer.identities != [] ==>
                ch.identities[0] == Identity(offer.identities[0].ticket, VerifyData(old(Alg(sched)),
                  DeriveSecret(old(Alg(sched)), old(sched.secret), ResBinder, []),
                    old(Transcript(sched)) + Covered(ch)))
      ensures Covered(ch) == Covered(offer)
      ensures sched == Updated(old(sched), Wire(Hello(ch)))
    {
      ch := offer;
      ghost var s0 := sched;
      if offer.identities != [] {
        var key := DeriveSecret(Alg(sched), sched.secret, ResBinder, []);
        UpdatedUniform(sched, Covered(offer));
        sched := UpdateHash(sched, Covered(offer));
        ch := offer.(identities := [Identity(offer.identities[0].ticket, Verify(sched, key))]);
        assert WithoutBinders(ch) == WithoutBinders(offer);
        sched := UpdateHash(sched, Uncovered(ch));
        TwoUpdates(s0, Covered(ch), Uncovered(ch));
      } else {
        sched := UpdateHash(sched, Wire(Hello(ch)));
      }
    }

    /** send_client_hello on the first flight. */
    method SendClientHello(ticket: Option<StoredTicket>, wantEarlyData: bool, random: nat, key: nat)
      returns (ch: ClientHello)
      requires Valid() && state == ClientHandshakeStart
      modifies this
      ensures Valid() && state == ClientExpectServerHello
      ensures offeredPsk == (old(offeredPsk) || Usable(ticket)) && certificateRequested == old(certificateRequested)
      ensures usingEarlyData == (Usable(ticket) && ticket.value.earlyData && wantEarlyData)
      ensures keyShare == (if old(keyShare).Some? then old(keyShare)
                           else if Usable(ticket) then Some(ticket.value.group)
                           else if cfg.negotiateBeforeKeyExchange then None else Some(cfg.groups[0]))
      ensures keyShareCtx == if keyShare.Some? then Some(key) else None
      ensures psk == (if Usable(ticket) then Some(ticket.value.secret) else None) && dh.None?
      ensures ticketHash == if Usable(ticket) then Some(ticket.value.suite.hash) else None
      ensures Transcript(sched) == Wire(Hello(ch)) && (Usable(ticket) ==> Alg(sched) == ticket.value.suite.hash)
      ensures ch == Offer(ticket, random, key, None, false).(identities := ch.identities)
      ensures Usable(ticket) ==> ch.identities == [Identity(ticket.value.id,
              VerifyData(Alg(sched), BinderKey(Alg(sched), psk), Covered(ch)))]
      ensures !Usable(ticket) ==> ch.identities == []
      ensures usingEarlyData ==> enc == Traffic(DeriveSecret(Alg(sched), EarlySecret(Alg(sched), psk), ClientEarly,
              Wire(Hello(ch))), 1, true)
    {
      hide Valid, Uniform, Has, Follows, Conforms, ExtractStep, Derive, DeriveSecret, HandshakeSecret, MasterSecret,
           EarlySecret, VerifyData, Wire, ClientMiddle, ServerMiddle, OneHash, ReadEpoch, Updated, Covered;
      StartFacts();
      PrepareFirstHello(ticket, wantEarlyData);
      keyShareCtx := if keyShare.Some? then Some(key) else None;
      ghost var s0 := sched;
      ch := FillBinder(Offer(ticket, random, key, None, false));
      UpdatedUniform(s0, Wire(Hello(ch)));
      assert [] + Wire(Hello(ch)) == Wire(Hello(ch)) && [] + Covered(ch) == Covered(ch);
      EarlyKeys(s0, sched, psk, dh, Wire(Hello(ch)));
      if usingEarlyData {
        enc := Traffic(Derive(sched, ClientEarly), 1, true);
      }
      state := ClientExpectServerHello;
      AfterFirstHello();
    }

    lemma StartFacts()
      requires Valid() && state == ClientHandshakeStart
      ensures cfg.suites != [] && cfg.groups != [] && !isServer && dec.epoch == 0 && pendingHandshakeSecret.None?
              && !isPsk
      ensures !certificateRequested && !usingEarlyData && psk.None? && dh.None?
    {}

    lemma AfterFirstHello()
      requires cfg.suites != [] && cfg.groups != [] && !isServer && state == ClientExpectServerHello && dec.epoch == 0
      requires Uniform(sched) && sched.generation == 1 && Conforms(sched, psk, dh) && pendingHandshakeSecret.None?
      requires (forall s :: s in cfg.suites ==> Has(sched, s.hash)) && (keyShare.Some? ==> keyShareCtx.Some?) && !isPsk
      requires !certificateRequested && (psk.Some? ==> offeredPsk)
               && ticketHash == (if psk.Some? then Some(Alg(sched)) else None)
      ensures Valid()
    {
      hide Follows, Has, Uniform;
    }

    /** The checks of decode_server_hello. */
    predicate Acceptable(m: Message)
      requires m.ServerHello?
      reads this
    {
      && m.suite in cfg.suites && (m.share.Some? ==> keyShare == Some(m.share.value.group))
      && (m.psk.Some? ==> offeredPsk && m.psk.value == 0) && (m.share.Some? || m.psk.Some?)
    }

    /** No candidate is left for the hash: after a retry only the one it named is. */
    predicate Slotless(hash: nat)
      requires state == ClientExpectSecondServerHello ==> sched.hashes != []
      reads this
    {
      state == ClientExpectSecondServerHello && hash != Alg(sched)
    }

    /** client_handle_hello for a ServerHello that is not a retry. */
    method ClientHandleHello(m: Message) returns (v: Verdict)
      requires Valid() && (state == ClientExpectServerHello || state == ClientExpectSecondServerHello) && m.ServerHello?
      modifies this
      ensures old(sched.hashes) != []
      ensures v == if !old(Acceptable(m)) then Refused else if old(Slotless(m.suite.hash)) then NoSlot else Handled
      ensures v.Handled? ==> Valid() && state == ClientExpectEncryptedExtensions
      ensures v.Handled? ==> isPsk == m.psk.Some? && usingEarlyData == old(usingEarlyData)
                             && certificateRequested == old(certificateRequested)
      ensures v.Handled? ==> Alg(sched) == m.suite.hash
                             && hello == old(Transcript(sched)) + Wire(m) == Transcript(sched)
      ensures v.Handled? ==> dh == if m.share.Some? then Some(Dh(old(keyShareCtx).value, m.share.value.key)) else None
      ensures v.Handled? ==> psk == if (old(offeredPsk) && m.psk.None?) || old(Alg(sched)) != m.suite.hash then None
              else old(psk)
      ensures v.Handled? ==> ticketHash == old(ticketHash)
                             && (psk.Some? <==> m.psk.Some? && ticketHash == Some(m.suite.hash))
      ensures v.Handled? ==> pendingHandshakeSecret.Some? == old(usingEarlyData)
                             && (old(usingEarlyData) ==> enc == old(enc))
    {
      hide Wire, Follows, Conforms, ClientMiddle, Acceptable, Slotless;
      BeforeHello(m.suite);
      if !Acceptable(m) { return Refused; }
      AcceptableFacts(m);
      hide Valid, Uniform, Has;
      var one := SelectOne(sched, m.suite.hash, offeredPsk && m.psk.None?);
      if one.None? { return NoSlot; }
      EnterHandshake(m, one.value);
      HelloMeaning();
      v := Handled;
    }

    lemma HelloMeaning()
      requires Valid() && state == ClientExpectEncryptedExtensions
      ensures sched.hashes != [] && KeyCounts()
    {}

    /** The rest of client_handle_hello, from the schedule with the chosen hash on. */
    method EnterHandshake(m: Message, one: Sched)
      requires Valid() && (state == ClientExpectServerHello || state == ClientExpectSecondServerHello) && m.ServerHello?
      requires Acceptable(m) && sched.hashes != [] && Has(sched, m.suite.hash)
      requires one.hashes == [HashCtx(m.suite.hash, Transcript(sched))] && one.generation == 1
      requires one.secret == if (offeredPsk && m.psk.None?) || Alg(sched) != m.suite.hash
                             then EarlySecret(m.suite.hash, None) else sched.secret
      modifies this
      ensures Valid() && state == ClientExpectEncryptedExtensions
      ensures isPsk == m.psk.Some? && usingEarlyData == old(usingEarlyData)
              && certificateRequested == old(certificateRequested)
      ensures Alg(sched) == m.suite.hash && hello == old(Transcript(sched)) + Wire(m) == Transcript(sched)
      ensures dh == if m.share.Some? then Some(Dh(old(keyShareCtx).value, m.share.value.key)) else None
      ensures psk == if (old(offeredPsk) && m.psk.None?) || old(Alg(sched)) != m.suite.hash then None else old(psk)
      ensures ticketHash == old(ticketHash)
      ensures pendingHandshakeSecret.Some? == old(usingEarlyData) && (old(usingEarlyData) ==> enc == old(enc))
    {
      hide Valid, Uniform, Has, Follows, Conforms, ExtractStep, Derive, DeriveSecret, HandshakeSecret, MasterSecret,
           EarlySecret, VerifyData, Wire, ClientMiddle, ServerMiddle, OneHash, ReadEpoch, Updated, Acceptable;
      BeforeHello(m.suite);
      AcceptableFacts(m);
      ghost var reset := offeredPsk && m.psk.None?;
      var secret := if m.share.Some? then Some(Dh(keyShareCtx.value, m.share.value.key)) else None;
      var s2, clientKey, serverKey := ChooseHash(sched, one, m, reset, secret, psk, dh);
      ghost var psk' := if reset || Alg(sched) != m.suite.hash then None else psk;
      KeyFollows(m);
      InstallHandshake(m, s2, clientKey, serverKey, psk', secret);
    }

    /** Whether the key stays depends on the choice of the server and on the hash. */
    lemma KeyFollows(m: Message)
      requires Valid() && (state == ClientExpectServerHello || state == ClientExpectSecondServerHello) && m.ServerHello?
      requires sched.hashes != [] && Acceptable(m) && Has(sched, m.suite.hash)
      ensures var psk' := if (offeredPsk && m.psk.None?) || Alg(sched) != m.suite.hash then None else psk;
              psk'.Some? <==> m.psk.Some? && ticketHash == Some(m.suite.hash)
    {
      hide Follows, Uniform;
      if state == ClientExpectSecondServerHello {
        var i :| 0 <= i < |sched.hashes| && sched.hashes[i].algo == m.suite.hash;
        assert i == 0;
      }
    }

    /** The handshake keys take effect, the sending one only when no early data is under way. */
    method InstallHandshake(m: Message, s: Sched, clientKey: Term, serverKey: Term, ghost psk': Option<Term>,
                            ghost dh': Option<Term>)
      requires cfg.suites != [] && cfg.groups != [] && !isServer && m.ServerHello? && pendingHandshakeSecret.None?
               && !certificateRequested
      requires |s.hashes| == 1 && s.generation == 2 && Follows(2, s.secret, Alg(s), psk', dh')
      requires clientKey == DeriveSecret(Alg(s), HandshakeSecret(Alg(s), psk', dh'), ClientHandshake, Transcript(s))
      requires serverKey == DeriveSecret(Alg(s), HandshakeSecret(Alg(s), psk', dh'), ServerHandshake, Transcript(s))
      requires psk'.Some? <==> m.psk.Some? && ticketHash == Some(Alg(s))
      modifies this
      ensures Valid() && ticketHash == old(ticketHash)
      ensures state == ClientExpectEncryptedExtensions && sched == s && psk == psk' && dh == dh'
              && hello == Transcript(s)
      ensures isPsk == m.psk.Some? && usingEarlyData == old(usingEarlyData)
              && certificateRequested == old(certificateRequested)
      ensures pendingHandshakeSecret.Some? == old(usingEarlyData) && (old(usingEarlyData) ==> enc == old(enc))
    {
      hide Valid, Follows, DeriveSecret, HandshakeSecret, ReadEpoch, OneHash;
      sched, suite, isPsk, dec, state := s, Some(m.suite), m.psk.Some?, Traffic(serverKey, 2, true),
        ClientExpectEncryptedExtensions;
      psk, dh, hello := psk', dh', Transcript(s);
      if usingEarlyData {
        pendingHandshakeSecret := Some(clientKey);
      } else {
        enc := Traffic(clientKey, 2, true);
      }
      AfterHello(clientKey);
    }

    lemma BeforeHello(choice: Suite)
      requires Valid() && (state == ClientExpectServerHello || state == ClientExpectSecondServerHello)
      ensures cfg.suites != [] && cfg.groups != [] && !isServer && Uniform(sched) && sched.hashes != []
              && sched.generation == 1
      ensures Conforms(sched, psk, dh) && pendingHandshakeSecret.None? && (keyShare.Some? ==> keyShareCtx.Some?)
      ensures !certificateRequested && (choice in cfg.suites ==> (Has(sched, choice.hash) <==> !Slotless(choice.hash)))
    {
      hide Follows;
      if state == ClientExpectSecondServerHello && choice.hash == Alg(sched) {
        assert sched.hashes[0].algo == choice.hash;
      }
    }

    lemma AcceptableFacts(m: Message)
      requires m.ServerHello? && Acceptable(m)
      ensures m.suite in cfg.suites && (m.share.Some? ==> keyShare == Some(m.share.value.group))
    {}

    lemma AfterHello(key: Term)
      requires cfg.suites != [] && cfg.groups != [] && !isServer && state == ClientExpectEncryptedExtensions
      requires |sched.hashes| == 1 && sched.generation == 2 && Follows(2, sched.secret, Alg(sched), psk, dh)
      requires dec.epoch == 2 && dec.secret == DeriveSecret(Alg(sched), HandshakeSecret(Alg(sched), psk, dh),
               ServerHandshake, hello)
      requires key == DeriveSecret(Alg(sched), HandshakeSecret(Alg(sched), psk, dh), ClientHandshake, hello)
      requires if usingEarlyData then pendingHandshakeSecret == Some(key)
               else pendingHandshakeSecret == None && enc.secret == key
      requires !certificateRequested && KeyCounts()
      ensures Valid()
    {
      hide Follows, DeriveSecret, HandshakeSecret;
    }

    /** handle_hello_retry_request: the first ClientHello becomes its hash, and a second one goes out in
        the clear. */
    method ClientHandleRetry(m: Message, ticket: Option<StoredTicket>, random: nat, key: nat)
      returns (v: Verdict, ch: ClientHello)
      requires Valid() && (state == ClientExpectServerHello || state == ClientExpectSecondServerHello)
               && m.RetryRequest?
      modifies this
      ensures old(sched.hashes) != []
      ensures v == if m.suite !in cfg.suites then Refused else if old(Slotless(m.suite.hash)) then NoSlot
                   else if old(Retryable(m)) then Handled else Refused
      ensures v.Handled? ==> Valid() && state == ClientExpectSecondServerHello
                             && offeredPsk == (old(offeredPsk) || Usable(ticket))
      ensures v.Handled? ==> keyShare == (if m.group.Some? then m.group else old(keyShare)) && keyShareCtx == Some(key)
      ensures v.Handled? ==> certificateRequested == old(certificateRequested) && Alg(sched) == m.suite.hash
                             && dh == old(dh)
      ensures v.Handled? ==> Transcript(sched) ==
                             Retried(Alg(sched), old(Transcript(sched))) + Wire(m) + Wire(Hello(ch))
      ensures v.Handled? ==> ch == Offer(ticket, random, key, m.cookie, true).(identities := ch.identities)
      ensures v.Handled? ==> ticketHash == old(ticketHash) && isPsk == old(isPsk)
    {
      hide Wire, Follows, Conforms, ClientMiddle, Slotless, Retried;
      ch := ClientHello(0, [], [], [], None, Modes(false, false), false, []);
      BeforeHello(m.suite);
      if m.suite !in cfg.suites { return Refused, ch; }
      hide Valid, Uniform, Has;
      var one := SelectOne(sched, m.suite.hash, false);
      if one.None? { return NoSlot, ch; }
      if !Retryable(m) { return Refused, ch; }
      ch := SendSecondHello(m, one.value, ticket, random, key);
      v := Handled;
    }

    /** The checks on the group of a retry request. */
    predicate Retryable(m: Message)
      requires m.RetryRequest?
      reads this
    {
      (m.group.Some? ==> m.group.value in cfg.groups) && (m.group.None? ==> keyShare.Some?)
    }

    method SendSecondHello(m: Message, one: Sched, ticket: Option<StoredTicket>, random: nat, key: nat)
      returns (ch: ClientHello)
      requires Valid() && (state == ClientExpectServerHello || state == ClientExpectSecondServerHello)
               && m.RetryRequest?
      requires Retryable(m) && m.suite in cfg.suites && sched.hashes != [] && Has(sched, m.suite.hash)
      requires one.hashes == [HashCtx(m.suite.hash, Transcript(sched))] && one.generation == 1
      requires one.secret == if Alg(sched) != m.suite.hash then EarlySecret(m.suite.hash, None) else sched.secret
      modifies this
      ensures Valid() && state == ClientExpectSecondServerHello && offeredPsk == (old(offeredPsk) || Usable(ticket))
      ensures keyShare == (if m.group.Some? then m.group else old(keyShare)) && keyShareCtx == Some(key)
      ensures certificateRequested == old(certificateRequested) && Alg(sched) == m.suite.hash && dh == old(dh)
      ensures Transcript(sched) == Retried(Alg(sched), old(Transcript(sched))) + Wire(m) + Wire(Hello(ch))
      ensures ch == Offer(ticket, random, key, m.cookie, true).(identities := ch.identities)
      ensures ticketHash == old(ticketHash) && isPsk == old(isPsk)
    {
      hide Valid, Uniform, Has, Follows, Conforms, ExtractStep, Derive, DeriveSecret, HandshakeSecret, MasterSecret,
           EarlySecret, VerifyData, Wire, ClientMiddle, ServerMiddle, OneHash, ReadEpoch, Updated, Covered;
      BeforeHello(m.suite);
      RetryFacts(m.suite.hash);
      RollSchedule(m, one);
      Reoffer(m, ticket, key);
      ghost var s2 := sched;
      OneIsUniform(s2);
      ch := FillBinder(Offer(ticket, random, key, m.cookie, true));
      UpdatedOne(s2, Wire(Hello(ch)));
      AfterRetry();
    }

    /** The fields that a retry changes; early data is over, and the second ClientHello goes out in the
        clear. */
    method Reoffer(m: Message, ticket: Option<StoredTicket>, key: nat)
      requires m.RetryRequest?
      modifies this`enc, this`usingEarlyData, this`keyShare, this`suite, this`offeredPsk, this`keyShareCtx, this`state
      ensures state == ClientExpectSecondServerHello && offeredPsk == (old(offeredPsk) || Usable(ticket))
              && !usingEarlyData
      ensures keyShare == (if m.group.Some? then m.group else old(keyShare)) && keyShareCtx == Some(key)
    {
      if usingEarlyData {
        enc := enc.(armed := false);
        usingEarlyData := false;
      }
      if m.group.Some? { keyShare := m.group; }
      suite := Some(m.suite);
      if Usable(ticket) {
        offeredPsk := true;
        suite := Some(ticket.value.suite);
      }
      keyShareCtx, state := Some(key), ClientExpectSecondServerHello;
    }

    /** The schedule over a retry: one hash, the first ClientHello replaced, the retry appended. */
    method RollSchedule(m: Message, one: Sched)
      requires Uniform(sched) && sched.generation == 1 && Conforms(sched, psk, dh) && m.RetryRequest?
      requires one.hashes == [HashCtx(m.suite.hash, Transcript(sched))] && one.generation == 1
      requires one.secret == if Alg(sched) != m.suite.hash then EarlySecret(m.suite.hash, None) else sched.secret
      modifies this`sched, this`psk
      ensures |sched.hashes| == 1 && sched.generation == 1 && Follows(1, sched.secret, Alg(sched), psk, dh)
      ensures Alg(sched) == m.suite.hash && Transcript(sched) == Retried(Alg(sched), old(Transcript(sched))) + Wire(m)
      ensures psk == if old(Alg(sched)) != m.suite.hash then None else old(psk)
    {
      hide Uniform, Has, Follows, EarlySecret, Wire;
      var s1 := TransformCh1(one);
      OneIsUniform(s1);
      var s2 := UpdateHash(s1, Wire(m));
      RetryKeys(sched, one, s2, psk, dh);
      if Alg(sched) != m.suite.hash { psk := None; }
      sched := s2;
    }

    lemma RetryFacts(hash: nat)
      requires Valid() && (state == ClientExpectServerHello || state == ClientExpectSecondServerHello)
      requires sched.hashes != [] && Has(sched, hash)
      ensures !isPsk && dec.epoch == 0 && (psk.Some? ==> offeredPsk)
      ensures var psk' := if Alg(sched) != hash then None else psk; psk'.Some? <==> ticketHash == Some(hash)
    {
      hide Follows, Uniform;
      if state == ClientExpectSecondServerHello {
        var i :| 0 <= i < |sched.hashes| && sched.hashes[i].algo == hash;
        assert i == 0;
      }
    }

    lemma AfterRetry()
      requires cfg.suites != [] && cfg.groups != [] && !isServer && state == ClientExpectSecondServerHello
               && dec.epoch == 0
      requires |sched.hashes| == 1 && sched.generation == 1 && Follows(1, sched.secret, Alg(sched), psk, dh)
      requires pendingHandshakeSecret.None? && !usingEarlyData && keyShareCtx.Some? && !isPsk && !certificateRequested
      requires (psk.Some? ==> offeredPsk) && (psk.Some? <==> ticketHash == Some(Alg(sched)))
      ensures Valid()
    {
      hide Follows;
    }

    /** client_handle_encrypted_extensions */
    method ClientHandleEncryptedExtensions(m: Message) returns (ok: bool)
      requires Valid() && state == ClientExpectEncryptedExtensions && m.EncryptedExtensions?
      modifies this
      ensures ok <==> m.earlyData ==> old(usingEarlyData)
      ensures ok ==> Valid() && state == if isPsk then ClientExpectFinished
              else ClientExpectCertificateRequestOrCertificate
      ensures ok ==> sched == old(sched).(hashes := [HashCtx(old(Alg(sched)), old(Transcript(sched)) + Wire(m))])
      ensures ok ==> usingEarlyData == m.earlyData && certificateRequested == old(certificateRequested)
                     && SameSecrets(this)
    {
      hide Wire, DeriveSecret, HandshakeSecret, MasterSecret, VerifyData, Follows;
      if m.earlyData && !usingEarlyData { return false; }
      if !m.earlyData { usingEarlyData := false; }
      Absorb(Wire(m));
      state := if isPsk then ClientExpectFinished else ClientExpectCertificateRequestOrCertificate;
      ok := true;
    }

    /** client_handle_certificate_request */
    method ClientHandleCertificateRequest(m: Message)
      requires Valid() && state == ClientExpectCertificateRequestOrCertificate && m.CertificateRequest?
      modifies this
      ensures Valid() && state == ClientExpectCertificate && certificateRequested
      ensures sched == old(sched).(hashes := [HashCtx(old(Alg(sched)), old(Transcript(sched)) + Wire(m))])
      ensures usingEarlyData == old(usingEarlyData) && SameSecrets(this)
    {
      hide Wire, DeriveSecret, HandshakeSecret, MasterSecret, VerifyData, Follows;
      state := ClientExpectCertificate;
      certificateRequested := true;
      Absorb(Wire(m));
    }

    /** handle_certificate on both sides; `accepted` is the verdict on the chain. */
    method HandleCertificate(m: Message, accepted: bool) returns (ok: bool)
      requires Valid() && m.Certificate?
      requires state == ClientExpectCertificateRequestOrCertificate || state == ClientExpectCertificate
               || state == ServerExpectCertificate
      modifies this
      ensures ok == accepted
      ensures ok ==> Valid() && state == if isServer then ServerExpectCertificateVerify
              else ClientExpectCertificateVerify
      ensures ok ==> sched == old(sched).(hashes := [HashCtx(old(Alg(sched)), old(Transcript(sched)) + Wire(m))])
      ensures ok ==> usingEarlyData == old(usingEarlyData) && certificateRequested == old(certificateRequested)
                     && SameSecrets(this)
    {
      hide Wire, DeriveSecret, HandshakeSecret, MasterSecret, VerifyData, Follows;
      if !accepted { return false; }
      Absorb(Wire(m));
      state := if isServer then ServerExpectCertificateVerify else ClientExpectCertificateVerify;
      ok := true;
    }

    /** handle_certificate_verify: the signature is over the transcript up to the certificate. */
    method HandleCertificateVerify(m: Message) returns (ok: bool)
      requires Valid() && m.CertificateVerify?
               && (state == ClientExpectCertificateVerify || state == ServerExpectCertificateVerify)
      modifies this`certBase, this`certSignature, this`sched, this`state
      ensures ok == cfg.verify(Hash(old(Alg(sched)), old(Transcript(sched))), m.signature)
      ensures ok ==> Valid() && state == if isServer then ServerExpectFinished else ClientExpectFinished
      ensures ok ==> sched == old(sched).(hashes := [HashCtx(old(Alg(sched)), old(Transcript(sched)) + Wire(m))])
      ensures ok ==> usingEarlyData == old(usingEarlyData) && certificateRequested == old(certificateRequested)
                     && SameSecrets(this)
    {
      hide Valid, Wire, Middle, MiddleOf, OneHash, ClientMiddle, ServerMiddle, Handshake, App, KeyCounts;
      SignedFacts();
      ok := cfg.verify(Hash(Alg(sched), Transcript(sched)), m.signature);
      if ok {
        assert m == CertificateVerify(m.signature);
        SignedMiddle(m);
        certBase, certSignature := Transcript(sched), m.signature;
        Absorb(Wire(m));
        state := if isServer then ServerExpectFinished else ClientExpectFinished;
        AfterSigned();
      }
    }

    /** The middle of the handshake, on either side, but for the state, with key schedule s. */
    ghost predicate MiddleOf(s: Sched)
      reads this`enc, this`dec, this`psk, this`dh, this`hello, this`flight, this`pendingTrafficSecret,
            this`pendingHandshakeSecret, this`isPsk, this`ticketHash, this`certificateRequested, this`usingEarlyData
    {
      && cfg.suites != [] && cfg.groups != [] && dec.epoch == 2 && |s.hashes| == 1
      && Follows(s.generation, s.secret, Alg(s), psk, dh) && s.generation == (if isServer then 3 else 2)
      && var hs, ap := HandshakeSecret(Alg(s), psk, dh), MasterSecret(Alg(s), psk, dh);
         var client := DeriveSecret(Alg(s), hs, ClientHandshake, hello);
         if isServer
         then && enc == Traffic(DeriveSecret(Alg(s), ap, ServerApp, flight), 3, true)
              && pendingTrafficSecret == DeriveSecret(Alg(s), ap, ClientApp, flight)
              && pendingHandshakeSecret.None? && dec.secret == client && (cfg.requireClientAuth ==> !isPsk)
         else && dec.secret == DeriveSecret(Alg(s), hs, ServerHandshake, hello) && (certificateRequested ==> !isPsk)
              && (psk.Some? <==> isPsk && ticketHash == Some(Alg(s)))
                 && (usingEarlyData ==> pendingHandshakeSecret.Some?)
              && (if pendingHandshakeSecret.Some? then pendingHandshakeSecret.value else enc.secret) == client
    }

    ghost predicate Middle()
      reads this
    {
      MiddleOf(sched)
    }

    lemma SignedFacts()
      requires Valid() && (state == ClientExpectCertificateVerify || state == ServerExpectCertificateVerify)
      ensures MiddleOf(sched) && |sched.hashes| == 1 && isServer == (state == ServerExpectCertificateVerify)
    {
      hide Follows, DeriveSecret, HandshakeSecret, MasterSecret, Wire;
    }

    lemma SignedMiddle(m: Message)
      requires MiddleOf(sched) && |sched.hashes| == 1
      ensures MiddleOf(sched.(hashes := [HashCtx(Alg(sched), Transcript(sched) + Wire(m))]))
    {
      hide Follows, DeriveSecret, HandshakeSecret, MasterSecret, Wire;
    }

    lemma AfterSigned()
      requires MiddleOf(sched) && |sched.hashes| == 1
               && state == (if isServer then ServerExpectFinished else ClientExpectFinished)
      requires Certified(Transcript(sched))
      ensures Valid()
    {
      hide Follows, DeriveSecret, HandshakeSecret, MasterSecret, Wire;
    }

    /** Whether the client owes an EndOfEarlyData. */
    predicate OwesEndOfEarlyData()
      reads this
    {
      pendingHandshakeSecret.Some? && usingEarlyData && !cfg.omitEndOfEarlyData
    }

    /** client_handle_finished: the server is confirmed, the application keys follow, and what the client
        still owes goes out under its handshake key. */
    method ClientHandleFinished(m: Message, chain: nat) returns (ok: bool, out: seq<Message>)
      requires Valid() && state == ClientExpectFinished && m.Finished?
      modifies this
      ensures sched.hashes != [] && old(sched.hashes) != []
      ensures ok <==> m.verifyData == VerifyData(old(Alg(sched)), old(dec.secret), old(Transcript(sched)))
      ensures ok ==> Valid() && state == ClientPostHandshake && psk == old(psk) && dh == old(dh) && hello == old(hello)
      ensures ok ==> Alg(sched) == old(Alg(sched)) && flight == old(Transcript(sched)) + Wire(m) && isPsk == old(isPsk)
      ensures ok ==> ticketHash == old(ticketHash) && suite == old(suite)
      ensures ok ==> out == Closing(Alg(sched), flight, Handshake(ClientHandshake), old(OwesEndOfEarlyData()),
              old(certificateRequested), chain)
      ensures ok ==> Transcript(sched) == flight + WireAll(out)
    {
      hide Valid, Uniform, Has, Follows, Conforms, ExtractStep, Derive, DeriveSecret, HandshakeSecret, MasterSecret,
           EarlySecret, VerifyData, Wire, ClientMiddle, ServerMiddle, OneHash, ReadEpoch, Updated, Closing;
      FinishedFacts();
      out := [];
      ok := m.verifyData == Verify(sched, dec.secret);
      if ok { out := Conclude(m, chain); }
    }

    method Conclude(m: Message, chain: nat) returns (out: seq<Message>)
      requires Valid() && state == ClientExpectFinished && m.Finished? && sched.hashes != []
      requires m.verifyData == VerifyData(Alg(sched), dec.secret, Transcript(sched))
      modifies this
      ensures Valid() && state == ClientPostHandshake && psk == old(psk) && dh == old(dh) && hello == old(hello)
              && sched.hashes != []
      ensures Alg(sched) == old(Alg(sched)) && flight == old(Transcript(sched)) + Wire(m)
      ensures isPsk == old(isPsk) && ticketHash == old(ticketHash) && suite == old(suite)
      ensures out == Closing(Alg(sched), flight, Handshake(ClientHandshake), old(OwesEndOfEarlyData()),
              old(certificateRequested), chain)
      ensures Transcript(sched) == flight + WireAll(out)
    {
      hide Valid, Uniform, Has, Follows, Conforms, ExtractStep, Derive, DeriveSecret, HandshakeSecret, MasterSecret,
           EarlySecret, VerifyData, Wire, ClientMiddle, ServerMiddle, OneHash, ReadEpoch, Updated, Closing, WireAll;
      FinishedFacts();
      var s0 := UpdateHash(sched, Wire(m));
      var s1 := ExtractStep(s0, None);
      AppKeys(sched, s0, s1, psk, dh);
      var own := if pendingHandshakeSecret.Some? then pendingHandshakeSecret.value else enc.secret;
      var s2;
      s2, out := SendClosing(s1, own, OwesEndOfEarlyData(), certificateRequested, chain);
      InstallApp(s1, s2, m);
    }

    method InstallApp(s1: Sched, s2: Sched, m: Message)
      requires cfg.suites != [] && cfg.groups != [] && !isServer && m.Finished? && |sched.hashes| == 1
      requires KeyCounts()
      requires isPsk || (cfg.verify(Hash(Alg(sched), certBase), certSignature)
               && Transcript(sched) == certBase + Wire(CertificateVerify(certSignature)))
      requires m.verifyData == VerifyData(Alg(sched),
               DeriveSecret(Alg(sched), HandshakeSecret(Alg(sched), psk, dh), ServerHandshake, hello),
                 Transcript(sched))
      requires |s1.hashes| == 1 && Alg(s1) == Alg(sched) && Transcript(s1) == Transcript(sched) + Wire(m)
      requires Follows(3, s1.secret, Alg(s1), psk, dh) && |s2.hashes| == 1 && s2.generation == 3
               && s2.secret == s1.secret && Alg(s2) == Alg(s1)
      requires Derive(s1, ServerApp) == DeriveSecret(Alg(s1), MasterSecret(Alg(s1), psk, dh), ServerApp, Transcript(s1))
      requires Derive(s1, ClientApp) == DeriveSecret(Alg(s1), MasterSecret(Alg(s1), psk, dh), ClientApp, Transcript(s1))
      modifies this
      ensures Valid() && state == ClientPostHandshake && psk == old(psk) && dh == old(dh) && hello == old(hello)
              && sched == s2
      ensures flight == Transcript(s1) && isPsk == old(isPsk) && ticketHash == old(ticketHash) && suite == old(suite)
    {
      hide Valid, Follows, Derive, DeriveSecret, HandshakeSecret, MasterSecret, VerifyData, Wire, Certified, Confirmed,
           Handshake, App;
      assert m == Finished(m.verifyData);
      finBase, finData, flight := Transcript(sched), m.verifyData, Transcript(s1);
      sched, dec, enc := s2, Traffic(Derive(s1, ServerApp), 3, true), Traffic(Derive(s1, ClientApp), 3, true);
      usingEarlyData, certificateRequested, pendingHandshakeSecret, state := false, false, None, ClientPostHandshake;
      AfterClientFinished();
    }

    lemma FinishedFacts()
      requires Valid() && state == ClientExpectFinished
      ensures cfg.suites != [] && cfg.groups != [] && !isServer && |sched.hashes| == 1 && Uniform(sched)
              && sched.generation == 2
      ensures Follows(2, sched.secret, Alg(sched), psk, dh) && dec.secret == Handshake(ServerHandshake)
      ensures (if pendingHandshakeSecret.Some? then pendingHandshakeSecret.value else enc.secret)
              == Handshake(ClientHandshake)
      ensures (isPsk || Certified(Transcript(sched))) && KeyCounts()
    {
      hide Follows, DeriveSecret, HandshakeSecret, Wire;
    }

    lemma AfterClientFinished()
      requires cfg.suites != [] && cfg.groups != [] && !isServer && state == ClientPostHandshake
      requires |sched.hashes| == 1 && sched.generation == 3 && Follows(3, sched.secret, Alg(sched), psk, dh)
      requires dec == Traffic(DeriveSecret(Alg(sched), MasterSecret(Alg(sched), psk, dh), ServerApp, flight), 3, true)
      requires enc == Traffic(DeriveSecret(Alg(sched), MasterSecret(Alg(sched), psk, dh), ClientApp, flight), 3, true)
      requires finData == VerifyData(Alg(sched),
               DeriveSecret(Alg(sched), HandshakeSecret(Alg(sched), psk, dh), ServerHandshake, hello), finBase)
      requires flight == finBase + Wire(Finished(finData))
      requires KeyCounts()
      requires isPsk || (cfg.verify(Hash(Alg(sched), certBase), certSignature)
               && finBase == certBase + Wire(CertificateVerify(certSignature)))
      ensures Valid()
    {
      hide Follows, DeriveSecret, HandshakeSecret, MasterSecret, Wire, VerifyData;
    }

    // ----- the server ---------------------------------------------------------------------------------------------

    /** The pre-shared key exchange modes that are left when a key exchange is required. */
    function ModesLeft(ch: ClientHello): (m: Modes) {
      if cfg.requireDhe then ch.modes.(psk := false) else ch.modes
    }

    predicate MayUsePsk(ch: ClientHello) {
      ch.identities != [] && HasMode(ModesLeft(ch)) && cfg.encryptTicket && !cfg.requireClientAuth
    }

    /** The retry request sent for ch: the key share is named unless the client's can be used. */
    function RetryFor(ch: ClientHello, suite: Suite, group: nat, cookie: Option<Cookie>): (m: Message) {
      RetryRequest(suite, if FirstShare(ch.shares, cfg.groups).Some? then None else Some(group), cookie)
    }

    /** server_handle_hello on the first flight, where it ends in a retry. */
    method SendRetry(ch: ClientHello, cs: Suite, group: nat) returns (r: HelloResult)
      requires Valid() && state == ServerExpectClientHello && FirstIn(ch.groups, cfg.groups) == Some(group)
      modifies this
      ensures Valid()
      ensures cfg.retryUsesCookie ==> r == StatelessRetry(RetryFor(ch, cs, group, Some(CookieFor(ch, cs, group))))
                                      && state == old(state)
      ensures !cfg.retryUsesCookie ==>
                && r == Retry(RetryFor(ch, cs, group, None)) && state == ServerExpectSecondClientHello
                && suite == Some(cs) && clientRandom == ch.random
                && Transcript(sched) == Retried(cs.hash, Wire(Hello(ch))) + Wire(RetryFor(ch, cs, group, None))
    {
      hide Valid, Uniform, Has, Follows, Conforms, ExtractStep, Derive, DeriveSecret, HandshakeSecret, MasterSecret,
           EarlySecret, VerifyData, Wire, ClientMiddle, ServerMiddle, OneHash, ReadEpoch, Updated, RetryFor;
      ServerStart();
      var s0 := NewSched(Some(cs), []);
      var s1 := UpdateHash(s0, Wire(Hello(ch)));
      assert [] + Wire(Hello(ch)) == Wire(Hello(ch));
      if cfg.retryUsesCookie {
        return StatelessRetry(RetryFor(ch, cs, group, Some(CookieFor(ch, cs, group))));
      }
      var s2 := ExtractStep(TransformCh1(s1), None);
      FirstExtract(TransformCh1(s1), s2, None);
      var hrr := RetryFor(ch, cs, group, None);
      OneIsUniform(s2);
      var s3 := UpdateHash(s2, Wire(hrr));
      suite, clientRandom, sched, state := Some(cs), ch.random, s3, ServerExpectSecondClientHello;
      AfterServerRetry();
      r := Retry(hrr);
    }

    /** The cookie holds the hash of the first ClientHello, under the server's signature. */
    function CookieFor(ch: ClientHello, cs: Suite, group: nat): (c: Cookie) {
      var h := Hash(cs.hash, Wire(Hello(ch)));
      var sent := FirstShare(ch.shares, cfg.groups).None?;
      Cookie(h, sent, CookieSignature(cfg.cookieKey, ch.random, cs, group, h, sent))
    }

    lemma ServerStart()
      requires Valid() && state == ServerExpectClientHello
      ensures cfg.suites != [] && cfg.groups != [] && isServer && dec.epoch == 0 && pendingHandshakeSecret.None?
      ensures psk.None? && dh.None? && !isPsk
    {}

    lemma AfterServerRetry()
      requires cfg.suites != [] && cfg.groups != [] && isServer && dec.epoch == 0 && pendingHandshakeSecret.None?
               && !isPsk
      requires state == ServerExpectSecondClientHello && suite.Some? && psk.None? && dh.None?
      requires |sched.hashes| == 1 && sched.generation == 1 && Follows(1, sched.secret, Alg(sched), psk, dh)
               && Alg(sched) == suite.value.hash
      ensures Valid()
    {
      hide Follows;
    }

    /** The part of the schedule that a cookie stands for: the hash of the first ClientHello and the
        retry request, rebuilt from the second ClientHello. */
    function FromCookie(ch: ClientHello, cs: Suite, share: Share): (b: Bytes)
      requires ch.cookie.Some?
    {
      [MessageHash(cs.hash), Digest(ch.cookie.value.ch1Hash)]
      + Wire(RetryRequest(cs, if ch.cookie.value.sentKeyShare then Some(share.group) else None, ch.cookie))
    }

    predicate CookieHolds(ch: ClientHello, cs: Suite, share: Share)
      requires ch.cookie.Some?
    {
      var c := ch.cookie.value;
      c.signature == CookieSignature(cfg.cookieKey, ch.random, cs, share.group, c.ch1Hash, c.sentKeyShare)
    }

    /** The schedule right before the ClientHello at hand is hashed: nothing, what a stateful retry left,
        or what the cookie stands for. */
    method BeginHello(ch: ClientHello, cs: Suite, share: Option<Share>) returns (second: bool)
      requires Valid() && (state == ServerExpectClientHello || state == ServerExpectSecondClientHello)
      requires state == ServerExpectSecondClientHello ==> suite == Some(cs)
      modifies this`sched, this`suite, this`clientRandom
      ensures cfg.suites != [] && cfg.groups != [] && isServer && dec.epoch == 0 && pendingHandshakeSecret.None?
              && psk.None? && dh.None? && !isPsk
      ensures suite == Some(cs) && |sched.hashes| == 1 && Alg(sched) == cs.hash
      ensures second == (state == ServerExpectSecondClientHello || (ch.cookie.Some? && share.Some?))
      ensures second ==> sched.generation == 1 && Follows(1, sched.secret, Alg(sched), None, None)
      ensures !second ==> sched == Sched(0, Zeros, [HashCtx(cs.hash, [])])
      ensures state == ServerExpectSecondClientHello ==> Transcript(sched) == old(Transcript(sched))
      ensures state == ServerExpectClientHello && second ==> Transcript(sched) == FromCookie(ch, cs, share.value)
    {
      hide Valid, Uniform, Has, Follows, Conforms, ExtractStep, Derive, DeriveSecret, HandshakeSecret, MasterSecret,
           EarlySecret, VerifyData, Wire, ClientMiddle, ServerMiddle, OneHash, ReadEpoch, Updated;
      second := state == ServerExpectSecondClientHello;
      if second {
        SecondStart();
      } else {
        ServerStart();
        suite, clientRandom := Some(cs), ch.random;
        var s0 := NewSched(Some(cs), []);
        if ch.cookie.Some? && share.Some? {
          var c := ch.cookie.value;
          var s1 := UpdateHash(s0, [MessageHash(cs.hash), Digest(c.ch1Hash)]);
          var s2 := ExtractStep(s1, None);
          FirstExtract(s1, s2, None);
          OneIsUniform(s2);
          s0 := UpdateHash(s2, Wire(RetryRequest(cs, if c.sentKeyShare then Some(share.value.group)
            else None, ch.cookie)));
          assert [] + [MessageHash(cs.hash), Digest(c.ch1Hash)] == [MessageHash(cs.hash), Digest(c.ch1Hash)];
          second := true;
        }
        sched := s0;
      }
    }

    lemma SecondStart()
      requires Valid() && state == ServerExpectSecondClientHello
      ensures cfg.suites != [] && cfg.groups != [] && isServer && dec.epoch == 0 && pendingHandshakeSecret.None?
      ensures psk.None? && dh.None? && !isPsk && suite.Some?
      ensures |sched.hashes| == 1 && Alg(sched) == suite.value.hash && sched.generation == 1
              && Follows(1, sched.secret, Alg(sched), None, None)
    {
      hide Follows;
    }

    /** The first identity that can be used, as try_psk_handshake finds it. */
    method FindIdentity(ids: seq<Identity>, lookup: Lookup, cs: Suite) returns (index: Option<nat>)
      ensures index == FirstUsable(ids, lookup, cs, 0)
    {
      var i := 0;
      while i < |ids|
        invariant 0 <= i <= |ids| && FirstUsable(ids, lookup, cs, 0) == FirstUsable(ids, lookup, cs, i)
      {
        var a := lookup(ids[i].ticket);
        if a.Some? && a.value.suite == cs { return Some(i); }
        i := i + 1;
      }
      index := None;
    }

    /** Which identity server_handle_hello settles on. */
    function ChosenIdentity(ch: ClientHello, second: bool, lookup: Lookup, cs: Suite): (index: Option<nat>)
      ensures index.Some? ==> index.value < |ch.identities| && lookup(ch.identities[index.value].ticket).Some?
                              && MayUsePsk(ch) && !second
    {
      if !second && MayUsePsk(ch) then FirstUsable(ch.identities, lookup, cs, 0) else None
    }

    function PskOf(ch: ClientHello, lookup: Lookup, index: Option<nat>): (t: Option<Term>)
      requires index.Some? ==> index.value < |ch.identities| && lookup(ch.identities[index.value].ticket).Some?
    {
      if index.None? then None else Some(lookup(ch.identities[index.value].ticket).value.psk)
    }

    predicate BinderHolds(ch: ClientHello, lookup: Lookup, index: Option<nat>, alg: nat)
      requires index.Some? ==> index.value < |ch.identities| && lookup(ch.identities[index.value].ticket).Some?
    {
      index.Some? ==> ch.identities[index.value].binder == VerifyData(alg, BinderKey(alg, PskOf(ch, lookup, index)),
        Covered(ch))
    }

    /** The ClientHello is hashed, and the early secret extracted unless a retry has done so: with the
        pre-shared key if an identity is accepted, whose binder must then hold. */
    method TakeHello(ch: ClientHello, second: bool, lookup: Lookup) returns (ok: bool, index: Option<nat>)
      requires suite.Some? && |sched.hashes| == 1 && Alg(sched) == suite.value.hash && psk.None? && dh.None? && !isPsk
      requires second ==> sched.generation == 1 && Follows(1, sched.secret, Alg(sched), None, None)
      requires !second ==> sched == Sched(0, Zeros, [HashCtx(suite.value.hash, [])])
      modifies this`sched, this`isPsk, this`psk
      ensures index == ChosenIdentity(ch, second, lookup, suite.value)
              && ok == BinderHolds(ch, lookup, index, suite.value.hash)
      ensures ok ==> |sched.hashes| == 1 && sched.generation == 1 && Alg(sched) == suite.value.hash
      ensures ok ==> Transcript(sched) == old(Transcript(sched)) + Wire(Hello(ch))
      ensures ok ==> isPsk == index.Some? && psk == PskOf(ch, lookup, index)
                     && Follows(1, sched.secret, Alg(sched), psk, None)
    {
      hide Uniform, Follows, ExtractStep, DeriveSecret, EarlySecret, VerifyData, Updated, Covered, Uncovered,
           BinderKey, FirstUsable;
      OneIsUniform(sched);
      index := None;
      if !second && MayUsePsk(ch) { index := FindIdentity(ch.identities, lookup, suite.value); }
      if index.None? {
        sched := UpdateHash(sched, Wire(Hello(ch)));
        if !second {
          var s0 := sched;
          sched := ExtractStep(s0, None);
          FirstExtract(s0, sched, None);
        }
        return true, index;
      }
      var secret := lookup(ch.identities[index.value].ticket).value.psk;
      var s1 := ExtractStep(sched, Some(secret));
      FirstExtract(sched, s1, Some(secret));
      var key := DeriveSecret(Alg(s1), s1.secret, ResBinder, Transcript(s1));
      OneIsUniform(s1);
      var s2 := UpdateHash(s1, Covered(ch));
      assert [] + Covered(ch) == Covered(ch);
      if ch.identities[index.value].binder != Verify(s2, key) { return false, index; }
      OneIsUniform(s2);
      sched := UpdateHash(s2, Uncovered(ch));
      isPsk, psk := true, Some(secret);
      ok := true;
      assert [] + Wire(Hello(ch)) == Covered(ch) + Uncovered(ch);
    }

    /** Early data is accepted with the first identity only. */
    predicate TakesEarlyData(ch: ClientHello, lookup: Lookup, index: Option<nat>)
      requires index.Some? ==> index.value < |ch.identities| && lookup(ch.identities[index.value].ticket).Some?
    {
      index == Some(0) && ch.earlyData && cfg.maxEarlyData && lookup(ch.identities[0].ticket).value.earlyData
    }

    function ModeOf(ch: ClientHello, index: Option<nat>): (m: Mode) {
      if index.None? then Full else if ModesLeft(ch).psk then PskOnly else PskDhe
    }

    function ServerHelloFor(random: nat, cs: Suite, mode: Mode, group: nat, key: nat,
                            index: Option<nat>): (m: Message) {
      ServerHello(random, cs, if mode == PskOnly then None else Some(Share(group, key)), index)
    }

    /** The rest of server_handle_hello: key exchange, ServerHello, handshake keys, the messages under
        them, application keys.  The client's application secret waits for its Finished. */
    method SendFlight(mode: Mode, early: bool, share: Option<Share>, random: nat, key: nat, index: Option<nat>,
                      chain: nat)
      returns (messages: seq<Message>)
      requires cfg.suites != [] && cfg.groups != [] && isServer && pendingHandshakeSecret.None? && dh.None?
               && suite.Some?
      requires |sched.hashes| == 1 && sched.generation == 1 && Follows(1, sched.secret, Alg(sched), psk, None)
      requires (mode == Full) == index.None? && isPsk == index.Some? && (mode != PskOnly ==> share.Some?)
      requires (isPsk ==> !cfg.requireClientAuth) && (early ==> isPsk)
      modifies this
      ensures |sched.hashes| == 1 && ticketSecret.None?
      ensures Valid() && isPsk == old(isPsk) && psk == old(psk) && suite == old(suite) && Alg(sched) == old(Alg(sched))
      ensures state == if early && !cfg.omitEndOfEarlyData then ServerExpectEndOfEarlyData
                       else if cfg.requireClientAuth then ServerExpectCertificate else ServerExpectFinished
      ensures dh == if mode == PskOnly then None else Some(Dh(share.value.key, key))
      ensures messages != [] && messages[0] == ServerHelloFor(random, suite.value, mode,
              if share.Some? then share.value.group else 0, key, index)
      ensures hello == old(Transcript(sched)) + Wire(messages[0])
      ensures messages[1..] == Opening(Alg(sched), hello, Handshake(ServerHandshake), early, mode == Full,
              cfg.requireClientAuth, chain)
      ensures Transcript(sched) == flight == hello + WireAll(messages[1..])
      ensures state == ServerExpectEndOfEarlyData ==>
                dec == Traffic(DeriveSecret(Alg(sched), EarlySecret(Alg(sched), psk), ClientEarly,
                  old(Transcript(sched))), 1, true)
    {
      hide Valid, Uniform, Has, Follows, Conforms, ExtractStep, Derive, DeriveSecret, HandshakeSecret, MasterSecret,
           EarlySecret, VerifyData, Wire, ClientMiddle, ServerMiddle, OneHash, ReadEpoch, Updated, Opening, WireAll;
      var sh := ServerHelloFor(random, suite.value, mode, if share.Some? then share.value.group else 0, key, index);
      var secret := if mode == PskOnly then None else Some(Dh(share.value.key, key));
      var s4, out, keys := BuildFlight(sched, sh, secret, early, mode == Full, cfg.requireClientAuth, chain, psk);
      Install(s4, keys, early && !cfg.omitEndOfEarlyData, Transcript(sched) + Wire(sh), secret);
      messages := [sh] + out;
      assert messages[1..] == out;
    }

    /** The traffic protection that server_handle_hello leaves: reading early data or handshake messages,
        sending application data. */
    method Install(s: Sched, keys: Keys, wait: bool, ghost hello': Bytes, ghost dh': Option<Term>)
      requires cfg.suites != [] && cfg.groups != [] && isServer && (isPsk ==> !cfg.requireClientAuth)
      requires wait ==> isPsk && !cfg.omitEndOfEarlyData
      requires |s.hashes| == 1 && s.generation == 3 && Follows(3, s.secret, Alg(s), psk, dh')
      requires keys.clientHandshake == DeriveSecret(Alg(s), HandshakeSecret(Alg(s), psk, dh'), ClientHandshake, hello')
      requires keys.serverApp == DeriveSecret(Alg(s), MasterSecret(Alg(s), psk, dh'), ServerApp, Transcript(s))
      requires keys.clientApp == DeriveSecret(Alg(s), MasterSecret(Alg(s), psk, dh'), ClientApp, Transcript(s))
      modifies this`dh, this`hello, this`flight, this`sched, this`enc, this`dec, this`pendingTrafficSecret,
               this`ticketSecret, this`pendingHandshakeSecret, this`state
      ensures Valid() && sched == s && dh == dh' && hello == hello' && flight == Transcript(s) && ticketSecret.None?
      ensures state == if wait then ServerExpectEndOfEarlyData
              else if cfg.requireClientAuth then ServerExpectCertificate else ServerExpectFinished
      ensures wait ==> dec == Traffic(keys.clientEarly, 1, true)
    {
      hide *;
      dh, hello, flight := dh', hello', Transcript(s);
      sched, enc, pendingTrafficSecret, ticketSecret := s, Traffic(keys.serverApp, 3, true), keys.clientApp, None;
      dec := if wait then Traffic(keys.clientEarly, 1, true) else Traffic(keys.clientHandshake, 2, true);
      pendingHandshakeSecret := if wait then Some(keys.clientHandshake) else None;
      state := if wait then ServerExpectEndOfEarlyData else if cfg.requireClientAuth then ServerExpectCertificate
        else ServerExpectFinished;
      AfterFlight(keys.clientHandshake);
    }

    lemma AfterFlight(clientKey: Term)
      requires cfg.suites != [] && cfg.groups != [] && isServer
      requires |sched.hashes| == 1 && sched.generation == 3 && Follows(3, sched.secret, Alg(sched), psk, dh)
      requires enc == Traffic(DeriveSecret(Alg(sched), MasterSecret(Alg(sched), psk, dh), ServerApp, flight), 3, true)
      requires pendingTrafficSecret == DeriveSecret(Alg(sched), MasterSecret(Alg(sched), psk, dh), ClientApp, flight)
      requires clientKey == DeriveSecret(Alg(sched), HandshakeSecret(Alg(sched), psk, dh), ClientHandshake, hello)
      requires isPsk ==> !cfg.requireClientAuth
      requires if state == ServerExpectEndOfEarlyData
               then dec.epoch == 1 && pendingHandshakeSecret == Some(clientKey) && isPsk && !cfg.omitEndOfEarlyData
               else dec == Traffic(clientKey, 2, true) && pendingHandshakeSecret.None?
                    && state == if cfg.requireClientAuth then ServerExpectCertificate else ServerExpectFinished
      ensures Valid()
    {
      hide Follows, DeriveSecret, HandshakeSecret, MasterSecret;
    }

    /** send_session_ticket: what the client will still send is predicted and hashed to get at the
        resumption secret; then the transcript is put back. */
    method SendSessionTicket()
      requires Valid() && (state == ServerExpectEndOfEarlyData || state == ServerExpectFinished
               || state == ServerExpectCertificate)
      requires sched.hashes != [] && Transcript(sched) == flight
      modifies this`sched, this`ticketSecret
      ensures Valid() && sched == old(sched) && ticketSecret == Some(Predicted())
    {
      hide Follows, DeriveSecret, HandshakeSecret, Wire, Closing, WireAll, VerifyData;
      var backup := sched.hashes;
      var secret := if pendingHandshakeSecret.Some? then pendingHandshakeSecret.value else dec.secret;
      var s, _ := SendClosing(sched, secret, pendingHandshakeSecret.Some? && !cfg.omitEndOfEarlyData, false, 0);
      sched := s;
      ticketSecret := Some(Expand(Alg(sched), Derive(sched, ResMaster), Resumption, Nothing));
      sched := sched.(hashes := backup);
      MasterIs(sched, psk, dh);
    }

    /** The checks of server_handle_hello before anything is sent; the second flight must match the first. */
    predicate Sound(ch: ClientHello)
      reads this
    {
      && (ch.earlyData ==> ch.identities != []) && FirstIn(ch.suites, cfg.suites).Some?
      && (state == ServerExpectSecondClientHello ==>
            !ch.earlyData && ch.random == clientRandom && FirstIn(ch.suites, cfg.suites) == suite)
    }

    /** server_handle_hello */
    method ServerHandleHello(ch: ClientHello, lookup: Lookup, random: nat, key: nat, chain: nat)
      returns (r: HelloResult)
      requires Valid() && (state == ServerExpectClientHello || state == ServerExpectSecondClientHello)
      modifies this
      ensures !r.Fail? ==> Valid()
      ensures r.Retry? ==> state == ServerExpectSecondClientHello
      ensures r.Flight? ==> state == ServerExpectEndOfEarlyData || state == ServerExpectCertificate
                            || state == ServerExpectFinished
      ensures var cs, share := FirstIn(ch.suites, cfg.suites), FirstShare(ch.shares, cfg.groups);
              var group := FirstIn(ch.groups, cfg.groups);
              var first := old(state) == ServerExpectClientHello;
              var cookie := first && ch.cookie.Some? && share.Some?;
              var second := !first || cookie;
              if !old(Sound(ch)) then r.Fail?
              else if first && !cookie && (share.None? || cfg.enforceRetry) then
                if group.None? then r.Fail?
                else if cfg.retryUsesCookie then
                  r == StatelessRetry(RetryFor(ch, cs.value, group.value, Some(CookieFor(ch, cs.value, group.value))))
                else && r == Retry(RetryFor(ch, cs.value, group.value, None)) && suite == cs
                     && clientRandom == ch.random
                     && Transcript(sched) == Retried(cs.value.hash, Wire(Hello(ch))) + Wire(r.hrr)
              else
                var index := ChosenIdentity(ch, second, lookup, cs.value);
                var mode := ModeOf(ch, index);
                if (cookie && !CookieHolds(ch, cs.value, share.value)) || !BinderHolds(ch, lookup, index, cs.value.hash)
                   || (mode != PskOnly && share.None?) then r.Fail?
                else
                  var base := (if !first then old(Transcript(sched)) else if cookie then FromCookie(ch, cs.value,
                    share.value) else []) + Wire(Hello(ch));
                  && r.Flight? && Answered(ch, lookup, cs.value, share, index, base, random, key, chain, r.messages)
    {
      hide Valid, RetryFor, CookieFor, FromCookie, CookieHolds, BinderHolds, ChosenIdentity, PskOf, ModeOf, Answered,
           Wire, Retried, FirstIn, FirstShare, Follows;
      if !Sound(ch) { return Fail; }
      var cs := FirstIn(ch.suites, cfg.suites).value;
      var share := FirstShare(ch.shares, cfg.groups);
      if state == ServerExpectClientHello && !(ch.cookie.Some? && share.Some?) && (share.None? || cfg.enforceRetry) {
        var group := FirstIn(ch.groups, cfg.groups);
        if group.None? { return Fail; }
        r := SendRetry(ch, cs, group.value);
        return;
      }
      if state == ServerExpectClientHello && ch.cookie.Some? && !CookieHolds(ch, cs, share.value) { return Fail; }
      r := Answer(ch, lookup, cs, share, random, key, chain);
    }

    /** What holds once the server has answered ch. */
    ghost predicate Answered(ch: ClientHello, lookup: Lookup, cs: Suite, share: Option<Share>, index: Option<nat>,
                             base: Bytes,
                             random: nat, key: nat, chain: nat, messages: seq<Message>)
      requires index.Some? ==> index.value < |ch.identities| && lookup(ch.identities[index.value].ticket).Some?
      reads this
    {
      var mode, early := ModeOf(ch, index), TakesEarlyData(ch, lookup, index);
      && |sched.hashes| == 1 && Alg(sched) == cs.hash && isPsk == index.Some? && psk == PskOf(ch, lookup, index)
      && (mode != PskOnly ==> share.Some?) && dh == (if mode == PskOnly then None else Some(Dh(share.value.key, key)))
      && messages != [] && messages[0] == ServerHelloFor(random, cs, mode, if share.Some? then share.value.group
         else 0, key, index)
      && hello == base + Wire(messages[0])
      && messages[1..] == Opening(cs.hash, hello, Handshake(ServerHandshake), early, mode == Full,
         cfg.requireClientAuth, chain)
      && Transcript(sched) == flight == hello + WireAll(messages[1..])
      && (state == ServerExpectEndOfEarlyData <==> early && !cfg.omitEndOfEarlyData)
      && (state == ServerExpectCertificate <==> cfg.requireClientAuth)
      && (state == ServerExpectEndOfEarlyData ==>
            dec == Traffic(DeriveSecret(cs.hash, EarlySecret(cs.hash, psk), ClientEarly, base), 1, true))
      && (ticketSecret.Some? ==> ticketSecret.value == Predicted())
    }

    /** The resumption secret as the server predicts it. */
    ghost function Predicted(): (t: Term)
      requires sched.hashes != []
      reads this
    {
      ResumptionSecret(Alg(sched), MasterSecret(Alg(sched), psk, dh),
        flight + WireAll(Closing(Alg(sched), flight, Handshake(ClientHandshake), pendingHandshakeSecret.Some?, false,
          0)))
    }

    method Answer(ch: ClientHello, lookup: Lookup, cs: Suite, share: Option<Share>, random: nat, key: nat, chain: nat)
      returns (r: HelloResult)
      requires Valid() && (state == ServerExpectClientHello || state == ServerExpectSecondClientHello)
      requires state == ServerExpectSecondClientHello ==> suite == Some(cs)
      modifies this
      ensures var first := old(state) == ServerExpectClientHello;
              var cookie := first && ch.cookie.Some? && share.Some?;
              var second := !first || cookie;
              var index := ChosenIdentity(ch, second, lookup, cs);
              if !BinderHolds(ch, lookup, index, cs.hash) || (ModeOf(ch, index) != PskOnly && share.None?) then r.Fail?
              else
                var base := (if !first then old(Transcript(sched)) else if cookie then FromCookie(ch, cs, share.value)
                  else []) + Wire(Hello(ch));
                && r.Flight? && Valid() && Answered(ch, lookup, cs, share, index, base, random, key, chain, r.messages)
                && (state == ServerExpectEndOfEarlyData || state == ServerExpectCertificate
                   || state == ServerExpectFinished)
    {
      hide Valid, FromCookie, CookieHolds, BinderHolds, ChosenIdentity, PskOf, Wire, Follows, Opening, DeriveSecret,
           EarlySecret, Closing, Answered;
      var second := BeginHello(ch, cs, share);
      var ok, index := TakeHello(ch, second, lookup);
      if !ok || (ModeOf(ch, index) != PskOnly && share.None?) { return Fail; }
      var messages := Deliver(ch, lookup, share, random, key, index, chain);
      r := Flight(messages);
    }

    /** The flight, and a ticket if the client can use one. */
    method Deliver(ch: ClientHello, lookup: Lookup, share: Option<Share>, random: nat, key: nat, index: Option<nat>,
                   chain: nat)
      returns (messages: seq<Message>)
      requires cfg.suites != [] && cfg.groups != [] && isServer && pendingHandshakeSecret.None? && dh.None?
               && suite.Some?
      requires |sched.hashes| == 1 && sched.generation == 1 && Alg(sched) == suite.value.hash
               && Follows(1, sched.secret, Alg(sched), psk, None)
      requires index.Some? ==> index.value < |ch.identities| && lookup(ch.identities[index.value].ticket).Some?
                               && MayUsePsk(ch)
      requires isPsk == index.Some? && psk == PskOf(ch, lookup, index) && (ModeOf(ch, index) != PskOnly ==> share.Some?)
      modifies this
      ensures Valid() && (state == ServerExpectEndOfEarlyData || state == ServerExpectCertificate
              || state == ServerExpectFinished)
      ensures Answered(ch, lookup, old(suite).value, share, index, old(Transcript(sched)), random, key, chain, messages)
    {
      hide Valid, PskOf, Wire, Follows, Opening, DeriveSecret, EarlySecret, Closing;
      messages := SendFlight(ModeOf(ch, index), TakesEarlyData(ch, lookup, index), share, random, key, index, chain);
      if HasMode(ModesLeft(ch)) && cfg.ticketLifetime { SendSessionTicket(); }
    }

    /** server_handle_end_of_early_data: the handshake key is commissioned. */
    method ServerHandleEndOfEarlyData(m: Message)
      requires Valid() && state == ServerExpectEndOfEarlyData && m.EndOfEarlyData?
      modifies this
      ensures Valid() && state == ServerExpectFinished
      ensures sched == old(sched).(hashes := [HashCtx(old(Alg(sched)), old(Transcript(sched)) + Wire(m))])
      ensures psk == old(psk) && dh == old(dh) && hello == old(hello) && flight == old(flight) && isPsk == old(isPsk)
      ensures dec == Traffic(old(pendingHandshakeSecret).value, 2, true) && enc == old(enc)
              && ticketSecret == old(ticketSecret)
    {
      hide Wire, DeriveSecret, HandshakeSecret, MasterSecret, VerifyData, Follows;
      dec := Traffic(pendingHandshakeSecret.value, 2, true);
      pendingHandshakeSecret := None;
      Absorb(Wire(m));
      state := ServerExpectFinished;
    }

    /** server_handle_finished: the client is confirmed, and its application secret takes effect. */
    method ServerHandleFinished(m: Message) returns (ok: bool)
      requires Valid() && state == ServerExpectFinished && m.Finished?
      modifies this`finBase, this`finData, this`dec, this`sched, this`state
      ensures sched.hashes != [] && old(sched.hashes) != []
      ensures ok <==> m.verifyData == VerifyData(old(Alg(sched)), old(dec.secret), old(Transcript(sched)))
      ensures ok ==> Valid() && state == ServerPostHandshake
      ensures ok ==> sched == old(sched).(hashes := [HashCtx(old(Alg(sched)), old(Transcript(sched)) + Wire(m))])
      ensures ok ==> psk == old(psk) && dh == old(dh) && hello == old(hello) && flight == old(flight)
                     && isPsk == old(isPsk)
      ensures ok ==> ticketSecret == old(ticketSecret)
    {
      hide Valid, Wire, DeriveSecret, HandshakeSecret, MasterSecret, VerifyData, Follows;
      ServerFinishedFacts();
      ok := m.verifyData == Verify(sched, dec.secret);
      if ok {
        assert m == Finished(m.verifyData);
        finBase, finData := Transcript(sched), m.verifyData;
        dec := Traffic(pendingTrafficSecret, 3, true);
        Absorb(Wire(m));
        state := ServerPostHandshake;
        AfterServerFinished();
      }
    }

    lemma ServerFinishedFacts()
      requires Valid() && state == ServerExpectFinished
      ensures isServer && Middle() && (cfg.requireClientAuth ==> Certified(Transcript(sched)))
    {
      hide Follows, DeriveSecret, HandshakeSecret, MasterSecret, Wire;
    }

    lemma AfterServerFinished()
      requires isServer && state == ServerPostHandshake && cfg.suites != [] && cfg.groups != []
               && pendingHandshakeSecret.None?
      requires |sched.hashes| == 1 && sched.generation == 3 && Follows(3, sched.secret, Alg(sched), psk, dh)
      requires enc == Traffic(App(ServerApp), 3, true) && dec == Traffic(App(ClientApp), 3, true)
      requires Confirmed(ClientHandshake, Transcript(sched)) && (cfg.requireClientAuth ==> !isPsk && Certified(finBase))
      ensures Valid()
    {
      hide Follows, DeriveSecret, HandshakeSecret, MasterSecret, Wire, VerifyData;
    }

    /** client_handle_new_session_ticket: the secret that a stored ticket stands for. */
    method ClientHandleNewSessionTicket() returns (secret: Term)
      requires Valid() && state == ClientPostHandshake
      ensures secret == ResumptionSecret(Alg(sched), MasterSecret(Alg(sched), psk, dh), Transcript(sched))
    {
      MasterIs(sched, psk, dh);
      secret := Expand(Alg(sched), Derive(sched, ResMaster), Resumption, Nothing);
    }

    // ----- any messages at all -------------------------------------------------------------------------------------

    /** The state named by the message that fits it; anything else is refused. */
    method ClientHandleMessage(m: Message, accepted: bool, ticket: Option<StoredTicket>, random: nat, key: nat,
                               chain: nat) returns (v: Verdict)
      requires Valid() && !isServer && state != ClientHandshakeStart
      modifies this
      ensures old(state) == ClientExpectSecondServerHello ==> old(sched.hashes) != []
      ensures v.Handled? ==> Valid() && state != ClientHandshakeStart && sched.hashes != [] && old(sched.hashes) != []
      ensures v.NoSlot? <==> old(Chooses(m) && Slotless(m.suite.hash))
      ensures v.Handled? && m.RetryRequest? ==> Alg(sched) == m.suite.hash
      ensures v.Handled? && state == ClientExpectSecondServerHello ==> m.RetryRequest?
      ensures v.Handled? ==> ticketHash == old(ticketHash) && (old(isPsk) ==> isPsk && Alg(sched) == old(Alg(sched)))
      ensures v.Handled? && isPsk && !old(isPsk) ==> m.ServerHello? && m.psk.Some? && Alg(sched) == m.suite.hash
    {
      hide Valid, ClientMiddle, OneHash, Conforms, Uniform, Has, Wire, VerifyData, DeriveSecret, HandshakeSecret,
           MasterSecret, Closing, WireAll, Acceptable, Retryable;
      HasHashes();
      v := Refused;
      match state {
        case ClientExpectServerHello | ClientExpectSecondServerHello =>
          if m.ServerHello? {
            v := ClientHandleHello(m);
          } else if m.RetryRequest? {
            ghost var ch;
            v, ch := ClientHandleRetry(m, ticket, random, key);
          }
        case ClientExpectEncryptedExtensions =>
          if m.EncryptedExtensions? {
            var ok := ClientHandleEncryptedExtensions(m);
            v := if ok then Handled else Refused;
          }
        case ClientExpectCertificateRequestOrCertificate =>
          if m.CertificateRequest? {
            ClientHandleCertificateRequest(m);
            v := Handled;
          } else if m.Certificate? {
            var ok := HandleCertificate(m, accepted);
            v := if ok then Handled else Refused;
          }
        case ClientExpectCertificate =>
          if m.Certificate? {
            var ok := HandleCertificate(m, accepted);
            v := if ok then Handled else Refused;
          }
        case ClientExpectCertificateVerify =>
          if m.CertificateVerify? {
            var ok := HandleCertificateVerify(m);
            v := if ok then Handled else Refused;
          }
        case ClientExpectFinished =>
          if m.Finished? {
            var ok;
            ghost var out;
            ok, out := ClientHandleFinished(m, chain);
            v := if ok then Handled else Refused;
          }
        case ClientPostHandshake =>
          if m.NewSessionTicket? {
            var _ := ClientHandleNewSessionTicket();
            v := Handled;
          }
        case _ =>
      }
      if v.Handled? { HasHashes(); }
    }

    /** The message gets as far as the choice of a hash. */
    predicate Chooses(m: Message)
      reads this
    {
      (m.ServerHello? && Acceptable(m)) || (m.RetryRequest? && m.suite in cfg.suites)
    }

    lemma HasHashes()
      requires Valid() && !isServer && state != ClientHandshakeStart
      ensures sched.hashes != [] && (state == ClientExpectServerHello || state == ClientExpectSecondServerHello
              ==> !isPsk)
    {
      hide Follows, DeriveSecret, HandshakeSecret, MasterSecret, VerifyData, Wire;
    }

    method ServerHandleMessage(m: Message, accepted: bool, lookup: Lookup, random: nat, key: nat, chain: nat)
      returns (ok: bool)
      requires Valid() && isServer
      modifies this
      ensures ok ==> Valid()
    {
      hide Valid, ServerMiddle, OneHash, Conforms, Wire, VerifyData, DeriveSecret, HandshakeSecret, MasterSecret,
           Answered, BinderHolds, ChosenIdentity, ModeOf, RetryFor, CookieFor, CookieHolds, FromCookie, Sound, FirstIn,
             FirstShare;
      ok := false;
      match state {
        case ServerExpectClientHello | ServerExpectSecondClientHello =>
          if m.Hello? {
            var r := ServerHandleHello(m.ch, lookup, random, key, chain);
            ok := !r.Fail?;
          }
        case ServerExpectCertificate =>
          if m.Certificate? { ok := HandleCertificate(m, accepted); }
        case ServerExpectCertificateVerify =>
          if m.CertificateVerify? { ok := HandleCertificateVerify(m); }
        case ServerExpectEndOfEarlyData =>
          if m.EndOfEarlyData? {
            ServerHandleEndOfEarlyData(m);
            ok := true;
          }
        case ServerExpectFinished =>
          if m.Finished? { ok := ServerHandleFinished(m); }
        case _ =>
      }
    }

    /** Whatever is received, for as long as nothing is refused: the read epoch is that of the installed
        key, and the end of the handshake means that the peer has been confirmed; unless it chose the
        pre-shared key, by a certificate.  The key is in the secrets then exactly if the hash is the ticket's. */
    method ClientRun(messages: seq<Message>, accepted: nat -> bool, ticket: Option<StoredTicket>, random: nat,
                     keys: nat -> nat, chain: nat)
      returns (v: Verdict)
      requires Valid() && state == ClientExpectServerHello
      modifies this
      ensures v.Handled? ==> Valid() && dec.epoch == ReadEpoch(state) && ticketHash == old(ticketHash)
      ensures v.Handled? && state == ClientPostHandshake ==>
                && sched.hashes != [] && Confirmed(ServerHandshake, flight)
                && (!isPsk ==> Certified(finBase)) && (isPsk ==> (psk.Some? <==> ticketHash == Some(Alg(sched))))
      ensures v.Handled? && state == ClientPostHandshake && KeepsHash(messages, ticketHash) ==> psk.Some?
                                                                                                || Certified(finBase)
      ensures v.NoSlot? ==> ChangesHash(messages)
    {
      hide Valid, Confirmed, Certified, Acceptable, KeepsHash, ChangesHash;
      v := Handled;
      FreshPsk();
      HasHashes();
      ghost var named: nat := 0;
      for i := 0 to |messages|
        invariant v.Handled? && Valid() && !isServer && state != ClientHandshakeStart && sched.hashes != []
                  && ticketHash == old(ticketHash)
        invariant isPsk ==> exists k :: 0 <= k < i && Selects(messages[k]) && messages[k].suite.hash == Alg(sched)
        invariant state == ClientExpectSecondServerHello ==>
                    named < i && messages[named].RetryRequest? && messages[named].suite.hash == Alg(sched)
      {
        var m := messages[i];
        ghost var had := isPsk;
        v := ClientHandleMessage(m, accepted(i), ticket, random, keys(i), chain);
        if v.NoSlot? { Changed(messages, named, i); }
        if !v.Handled? { return; }
        if state == ClientExpectSecondServerHello { named := i; }
        if isPsk && !had { assert Selects(messages[i]); }
      }
      Meaning();
      if isPsk { Kept(messages); }
    }

    lemma FreshPsk()
      requires Valid() && state == ClientExpectServerHello
      ensures !isPsk && !isServer
    {}

    /** A ServerHello that selects the pre-shared key. */
    static predicate Selects(m: Message) {
      m.ServerHello? && m.psk.Some?
    }

    /** Whoever selects the pre-shared key chooses a suite with its hash. */
    static ghost predicate KeepsHash(messages: seq<Message>, hash: Option<nat>) {
      forall i :: 0 <= i < |messages| && Selects(messages[i]) ==> hash == Some(messages[i].suite.hash)
    }

    /** A hash is named after a retry that is not the one the retry named. */
    static ghost predicate ChangesHash(messages: seq<Message>) {
      exists i, j :: 0 <= i < j < |messages| && Differ(messages[i], messages[j])
    }

    static ghost predicate Differ(a: Message, b: Message) {
      a.RetryRequest? && (b.ServerHello? || b.RetryRequest?) && b.suite.hash != a.suite.hash
    }

    static lemma Changed(messages: seq<Message>, i: nat, j: nat)
      requires i < j < |messages| && Differ(messages[i], messages[j])
      ensures ChangesHash(messages)
    {}

    lemma Kept(messages: seq<Message>)
      requires sched.hashes != [] && isPsk
      requires exists k :: 0 <= k < |messages| && Selects(messages[k]) && messages[k].suite.hash == Alg(sched)
      ensures KeepsHash(messages, ticketHash) ==> ticketHash == Some(Alg(sched))
    {}

    lemma Meaning()
      requires Valid()
      ensures dec.epoch == ReadEpoch(state)
      ensures isServer ==> (pendingHandshakeSecret.Some? <==> state == ServerExpectEndOfEarlyData)
      ensures state == ClientPostHandshake ==>
                sched.hashes != [] && Confirmed(ServerHandshake, flight) && (isPsk || Certified(finBase)) && KeyCounts()
      ensures state == ServerPostHandshake ==>
                sched.hashes != [] && Confirmed(ClientHandshake, Transcript(sched))
                  && (cfg.requireClientAuth ==> !isPsk && Certified(finBase))
    {}

    method ServerRun(messages: seq<Message>, accepted: nat -> bool, lookup: Lookup, randoms: nat -> nat,
                     keys: nat -> nat, chain: nat)
      returns (ok: bool)
      requires Valid() && isServer
      modifies this
      ensures ok ==> Valid() && dec.epoch == ReadEpoch(state)
      ensures ok ==> (pendingHandshakeSecret.Some? <==> state == ServerExpectEndOfEarlyData)
      ensures ok && state == ServerPostHandshake ==>
                sched.hashes != [] && Confirmed(ClientHandshake, Transcript(sched))
                  && (cfg.requireClientAuth ==> !isPsk && Certified(finBase))
    {
      hide Valid, Confirmed, Certified;
      ok := true;
      for i := 0 to |messages|
        invariant ok ==> Valid()
      {
        if !ok { return; }
        ok := ServerHandleMessage(messages[i], accepted(i), lookup, randoms(i), keys(i), chain);
      }
      if ok { Meaning(); }
    }

    /** What the handlers in the middle of the handshake leave alone. */
    twostate predicate SameSecrets(t: Tls)
      reads this
    {
      && psk == old(psk) && dh == old(dh) && hello == old(hello) && flight == old(flight) && isPsk == old(isPsk)
      && ticketHash == old(ticketHash) && suite == old(suite)
      && enc == old(enc) && dec == old(dec) && pendingHandshakeSecret == old(pendingHandshakeSecret)
      && pendingTrafficSecret == old(pendingTrafficSecret) && ticketSecret == old(ticketSecret)
    }
  }

  lemma SameHashes(a: Sched, b: Sched, alg: nat)
    requires Has(a, alg) && a.hashes == b.hashes
    ensures Has(b, alg)
  {}

  /** From the candidates' early secret to the handshake secret of the hash chosen. */
  lemma HelloKeys(s: Sched, s0: Sched, s1: Sched, s2: Sched, reset: bool, psk: Option<Term>, dh: Option<Term>,
                  secret: Option<Term>)
    requires s.hashes != [] && s.generation == 1 && Conforms(s, psk, dh) && |s0.hashes| == 1 && s0.generation == 1
    requires s0.secret == if reset || Alg(s) != Alg(s0) then EarlySecret(Alg(s0), None) else s.secret
    requires |s1.hashes| == 1 && s1 == s0.(hashes := s1.hashes) && Alg(s1) == Alg(s0) && s2 == ExtractStep(s1, secret)
    ensures s2.hashes == s1.hashes && s2.generation == 2
    ensures var psk' := if reset || Alg(s) != Alg(s0) then None else psk;
            && Follows(2, s2.secret, Alg(s2), psk', secret)
            && Derive(s2, ServerHandshake) == DeriveSecret(Alg(s2), HandshakeSecret(Alg(s2), psk', secret),
               ServerHandshake, Transcript(s2))
            && Derive(s2, ClientHandshake) == DeriveSecret(Alg(s2), HandshakeSecret(Alg(s2), psk', secret),
               ClientHandshake, Transcript(s2))
  {}

  /** What the client sends once it has confirmed the server (section 4.4 of RFC 8446). */
  function Closing(alg: nat, base: Bytes, secret: Term, endOfEarlyData: bool, certificate: bool,
                   chain: nat): (out: seq<Message>) {
    var a := if endOfEarlyData then [EndOfEarlyData] else [];
    var b := if !certificate then a
             else
               var c := a + [Certificate(chain)];
               c + [CertificateVerify(Signature(false, Hash(alg, base + WireAll(c))))];
    b + [Finished(VerifyData(alg, secret, base + WireAll(b)))]
  }

  /** What the server sends under its handshake key. */
  function Opening(alg: nat, base: Bytes, secret: Term, earlyData: bool, certificate: bool, request: bool,
                   chain: nat): (out: seq<Message>) {
    var a := [EncryptedExtensions(earlyData)];
    var b := if !certificate then a
             else
               var c := a + (if request then [CertificateRequest] else []) + [Certificate(chain)];
               c + [CertificateVerify(Signature(true, Hash(alg, base + WireAll(c))))];
    b + [Finished(VerifyData(alg, secret, base + WireAll(b)))]
  }

  /** ptls_push_message: hashed as it is emitted. */
  method Push(s: Sched, out: seq<Message>, m: Message, ghost base: Bytes) returns (s': Sched, out': seq<Message>)
    requires |s.hashes| == 1 && Transcript(s) == base + WireAll(out)
    ensures out' == out + [m] && |s'.hashes| == 1 && Transcript(s') == base + WireAll(out')
    ensures s' == s.(hashes := [HashCtx(Alg(s), base + WireAll(out'))])
  {
    hide Wire;
    OneIsUniform(s);
    s' := UpdateHash(s, Wire(m));
    out' := out + [m];
    WireAllSnoc(out, m);
    assert base + WireAll(out) + Wire(m) == base + (WireAll(out) + Wire(m));
  }

  lemma WireAllSnoc(ms: seq<Message>, m: Message)
    ensures WireAll(ms + [m]) == WireAll(ms) + Wire(m)
  {
    assert (ms + [m])[..|ms|] == ms;
  }

  /** The messages of client_handle_finished, in the order they are hashed. */
  method SendClosing(s: Sched, secret: Term, endOfEarlyData: bool, certificate: bool, chain: nat)
    returns (s': Sched, out: seq<Message>)
    requires |s.hashes| == 1
    ensures out == Closing(Alg(s), Transcript(s), secret, endOfEarlyData, certificate, chain)
    ensures s' == s.(hashes := [HashCtx(Alg(s), Transcript(s) + WireAll(out))])
  {
    hide Wire, WireAll, VerifyData;
    ghost var base := Transcript(s);
    s', out := s, [];
    NothingSent(base);
    if endOfEarlyData {
      s', out := Push(s', out, EndOfEarlyData, base);
      assert out == [EndOfEarlyData];
    }
    if certificate {
      s', out := Push(s', out, Certificate(chain), base);
      s', out := Push(s', out, CertificateVerify(Signature(false, Hash(Alg(s'), Transcript(s')))), base);
    }
    s', out := Push(s', out, Finished(Verify(s', secret)), base);
  }

  lemma NothingSent(base: Bytes)
    ensures base + WireAll([]) == base
  {}

  /** The keys that server_handle_hello derives for later use. */
  datatype Keys = Keys(clientEarly: Term, clientHandshake: Term, serverApp: Term, clientApp: Term)

  /** From the hashed ClientHello to the application secrets. */
  method BuildFlight(s: Sched, sh: Message, secret: Option<Term>, early: bool, certificate: bool, request: bool,
                     chain: nat, ghost psk: Option<Term>)
    returns (s': Sched, out: seq<Message>, keys: Keys)
    requires |s.hashes| == 1 && s.generation == 1 && Follows(1, s.secret, Alg(s), psk, None)
    ensures |s'.hashes| == 1 && s'.generation == 3 && Alg(s') == Alg(s) && Follows(3, s'.secret, Alg(s), psk, secret)
    ensures var alg, hello := Alg(s), Transcript(s) + Wire(sh);
            var hs, master := HandshakeSecret(alg, psk, secret), MasterSecret(alg, psk, secret);
            && out == Opening(alg, hello, DeriveSecret(alg, hs, ServerHandshake, hello), early, certificate, request,
               chain)
            && Transcript(s') == hello + WireAll(out)
            && keys == Keys(DeriveSecret(alg, EarlySecret(alg, psk), ClientEarly, Transcript(s)),
                            DeriveSecret(alg, hs, ClientHandshake, hello),
                            DeriveSecret(alg, master, ServerApp, Transcript(s')),
                              DeriveSecret(alg, master, ClientApp, Transcript(s')))
  {
    hide Uniform, Follows, ExtractStep, Derive, DeriveSecret, HandshakeSecret, MasterSecret, EarlySecret, Wire,
         Updated, Opening, WireAll;
    EarlyKey(s, psk);
    OneIsUniform(s);
    var s1 := UpdateHash(s, Wire(sh));
    var s2 := ExtractStep(s1, secret);
    SecondExtract(s1, s2, psk, secret);
    var s3;
    s3, out := SendOpening(s2, Derive(s2, ServerHandshake), early, certificate, request, chain);
    s' := ExtractStep(s3, None);
    AppKeys(s2, s3, s', psk, secret);
    keys := Keys(Derive(s, ClientEarly), Derive(s2, ClientHandshake), Derive(s', ServerApp), Derive(s', ClientApp));
  }

  /** The messages of server_handle_hello after ServerHello. */
  method SendOpening(s: Sched, secret: Term, earlyData: bool, certificate: bool, request: bool, chain: nat)
    returns (s': Sched, out: seq<Message>)
    requires |s.hashes| == 1
    ensures out == Opening(Alg(s), Transcript(s), secret, earlyData, certificate, request, chain)
    ensures s' == s.(hashes := [HashCtx(Alg(s), Transcript(s) + WireAll(out))])
  {
    hide Wire, WireAll, VerifyData;
    ghost var base := Transcript(s);
    s', out := s, [];
    NothingSent(base);
    s', out := Push(s', out, EncryptedExtensions(earlyData), base);
    assert out == [EncryptedExtensions(earlyData)];
    if certificate {
      assert out + [] == out;
      if request { s', out := Push(s', out, CertificateRequest, base); }
      s', out := Push(s', out, Certificate(chain), base);
      s', out := Push(s', out, CertificateVerify(Signature(true, Hash(Alg(s'), Transcript(s')))), base);
    }
    s', out := Push(s', out, Finished(Verify(s', secret)), base);
  }

  lemma AppKeys(s: Sched, s0: Sched, s1: Sched, psk: Option<Term>, dh: Option<Term>)
    requires |s.hashes| == 1 && s.generation == 2 && Follows(2, s.secret, Alg(s), psk, dh)
    requires |s0.hashes| == 1 && s0 == s.(hashes := s0.hashes) && Alg(s0) == Alg(s) && s1 == ExtractStep(s0, None)
    ensures s1.hashes == s0.hashes && s1.generation == 3 && Follows(3, s1.secret, Alg(s1), psk, dh)
    ensures Derive(s1, ServerApp) == DeriveSecret(Alg(s1), MasterSecret(Alg(s1), psk, dh), ServerApp, Transcript(s1))
    ensures Derive(s1, ClientApp) == DeriveSecret(Alg(s1), MasterSecret(Alg(s1), psk, dh), ClientApp, Transcript(s1))
  {}

  function FirstUsable(ids: seq<Identity>, lookup: Lookup, cs: Suite, i: nat): (r: Option<nat>)
    requires i <= |ids|
    ensures r.Some? ==> i <= r.value < |ids| && lookup(ids[r.value].ticket).Some?
                        && lookup(ids[r.value].ticket).value.suite == cs
    decreases |ids| - i
  {
    if i == |ids| then None
    else if lookup(ids[i].ticket).Some? && lookup(ids[i].ticket).value.suite == cs then Some(i)
    else FirstUsable(ids, lookup, cs, i + 1)
  }

  /** The first extraction. */
  lemma FirstExtract(s: Sched, s': Sched, psk: Option<Term>)
    requires |s.hashes| == 1 && s.generation == 0 && s.secret == Zeros && s' == ExtractStep(s, psk)
    ensures s'.hashes == s.hashes && s'.generation == 1 && Follows(1, s'.secret, Alg(s'), psk, None)
    ensures DeriveSecret(Alg(s'), s'.secret, ResBinder, []) == BinderKey(Alg(s'), psk)
            && s'.secret == EarlySecret(Alg(s'), psk)
  {}

  /** The pre-shared key of a later connection (sections 4.6.1 and 7.1). */
  function ResumptionSecret(alg: nat, master: Term, transcript: Bytes): (t: Term) {
    Expand(alg, DeriveSecret(alg, master, ResMaster, transcript), Resumption, Nothing)
  }

  lemma MasterIs(s: Sched, psk: Option<Term>, dh: Option<Term>)
    requires s.generation == 3 && s.hashes != [] && Follows(3, s.secret, Alg(s), psk, dh)
    ensures s.secret == MasterSecret(Alg(s), psk, dh)
  {}

  lemma EarlyKey(s: Sched, psk: Option<Term>)
    requires |s.hashes| == 1 && s.generation == 1 && Follows(1, s.secret, Alg(s), psk, None)
    ensures Derive(s, ClientEarly) == DeriveSecret(Alg(s), EarlySecret(Alg(s), psk), ClientEarly, Transcript(s))
  {}

  /** The second extraction. */
  lemma SecondExtract(s: Sched, s': Sched, psk: Option<Term>, dh: Option<Term>)
    requires |s.hashes| == 1 && s.generation == 1 && Follows(1, s.secret, Alg(s), psk, None) && s' == ExtractStep(s, dh)
    ensures s'.hashes == s.hashes && s'.generation == 2 && Follows(2, s'.secret, Alg(s'), psk, dh)
    ensures Derive(s', ServerHandshake) == DeriveSecret(Alg(s'), HandshakeSecret(Alg(s'), psk, dh), ServerHandshake,
            Transcript(s'))
    ensures Derive(s', ClientHandshake) == DeriveSecret(Alg(s'), HandshakeSecret(Alg(s'), psk, dh), ClientHandshake,
            Transcript(s'))
  {}

  /** The schedule from the candidate hashes to the handshake secret, over the ServerHello. */
  method ChooseHash(ghost s: Sched, s0: Sched, m: Message, ghost reset: bool, secret: Option<Term>,
                    ghost psk: Option<Term>, ghost dh: Option<Term>)
    returns (s': Sched, clientKey: Term, serverKey: Term)
    requires s.hashes != [] && s.generation == 1 && Conforms(s, psk, dh) && m.ServerHello?
    requires s0.hashes == [HashCtx(m.suite.hash, Transcript(s))] && s0.generation == 1
    requires s0.secret == if reset || Alg(s) != m.suite.hash then EarlySecret(m.suite.hash, None) else s.secret
    ensures |s'.hashes| == 1 && s'.generation == 2 && Alg(s') == m.suite.hash
            && Transcript(s') == Transcript(s) + Wire(m)
    ensures var psk' := if reset || Alg(s) != m.suite.hash then None else psk;
            && Follows(2, s'.secret, Alg(s'), psk', secret)
            && clientKey == DeriveSecret(Alg(s'), HandshakeSecret(Alg(s'), psk', secret), ClientHandshake,
               Transcript(s'))
            && serverKey == DeriveSecret(Alg(s'), HandshakeSecret(Alg(s'), psk', secret), ServerHandshake,
               Transcript(s'))
  {
    hide Uniform, Has, Follows, ExtractStep, Derive, DeriveSecret, HandshakeSecret, EarlySecret, Wire, Updated;
    OneIsUniform(s0);
    var s1 := UpdateHash(s0, Wire(m));
    s' := ExtractStep(s1, secret);
    HelloKeys(s, s0, s1, s', reset, psk, dh, secret);
    clientKey, serverKey := Derive(s', ClientHandshake), Derive(s', ServerHandshake);
  }

  lemma OneIsUniform(s: Sched)
    requires |s.hashes| == 1
    ensures Uniform(s)
  {}

  lemma UpdatedOne(s: Sched, b: Bytes)
    requires |s.hashes| == 1
    ensures Updated(s, b) == s.(hashes := [HashCtx(Alg(s), Transcript(s) + b)])
  {}

  lemma EarlyKeys(s: Sched, s': Sched, psk: Option<Term>, dh: Option<Term>, b: Bytes)
    requires Uniform(s) && s.generation == 1 && Conforms(s, psk, dh) && s' == Updated(s, b)
    ensures s'.generation == 1 && s'.hashes != [] && s'.secret == EarlySecret(Alg(s'), psk)
            && s.secret == EarlySecret(Alg(s), psk)
    ensures DeriveSecret(Alg(s), s.secret, ResBinder, []) == BinderKey(Alg(s), psk)
    ensures Derive(s', ClientEarly) == DeriveSecret(Alg(s'), EarlySecret(Alg(s'), psk), ClientEarly, Transcript(s'))
  {}

  lemma RetryKeys(s: Sched, s0: Sched, s2: Sched, psk: Option<Term>, dh: Option<Term>)
    requires s.hashes != [] && s.generation == 1 && Conforms(s, psk, dh) && |s0.hashes| == 1 && s0.generation == 1
    requires s0.secret == if Alg(s) != Alg(s0) then EarlySecret(Alg(s0), None) else s.secret
    requires |s2.hashes| == 1 && s2.generation == 1 && s2.secret == s0.secret && Alg(s2) == Alg(s0)
    ensures Follows(1, s2.secret, Alg(s2), if Alg(s) != Alg(s0) then None else psk, dh)
  {}

  lemma TwoUpdates(s: Sched, a: Bytes, b: Bytes)
    ensures Updated(Updated(s, a), b) == Updated(s, a + b)
  {
    forall i | 0 <= i < |s.hashes|
      ensures Updated(Updated(s, a), b).hashes[i] == Updated(s, a + b).hashes[i]
    {
      assert s.hashes[i].data + a + b == s.hashes[i].data + (a + b);
    }
  }
}
