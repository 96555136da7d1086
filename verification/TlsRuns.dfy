/** Handshakes between an honest client and an honest server: direct, with a stateful retry, and with a
    retry whose state travels in a cookie; full, resumed, resumed with a key exchange, with early data
    accepted or not, with and without client authentication. */
module TlsRuns {
  import opened Common
  import opened TlsSchedule
  import opened TlsHandshake

  /** Two connections about to start, configured to understand each other. */
  ghost predicate Paired(c: Tls, s: Tls)
    reads c, s
  {
    && c != s && !c.isServer && s.isServer && c.Valid() && s.Valid()
    && c.state == ClientHandshakeStart && s.state == ServerExpectClientHello
    && !c.offeredPsk && c.keyShare.None? && !c.certificateRequested
    && c.cfg.omitEndOfEarlyData == s.cfg.omitEndOfEarlyData
    && FirstIn(c.cfg.suites, s.cfg.suites).Some? && FirstIn(c.cfg.groups, s.cfg.groups).Some?
    && (forall d :: c.cfg.verify(d, Signature(true, d))) && (forall d :: s.cfg.verify(d, Signature(false, d)))
  }

  /** The server may or may not accept the client's ticket; if it does, it is the same session. */
  ghost predicate SameSession(ticket: Option<StoredTicket>, lookup: Lookup) {
    ticket.Some? && lookup(ticket.value.id).Some? ==>
      lookup(ticket.value.id).value.psk == ticket.value.secret
        && lookup(ticket.value.id).value.suite == ticket.value.suite
  }

  /** Both sides have the same hash, inputs and transcript up to ServerHello; ops are the messages that
      follow it. */
  ghost predicate HelloAgreed(c: Tls, s: Tls, ops: seq<Message>, early: bool, chain: nat)
    reads c, s
  {
    && c != s && !c.isServer && s.isServer && c.Valid() && s.Valid() && c.state == ClientExpectEncryptedExtensions
    && (s.state == ServerExpectEndOfEarlyData || s.state == ServerExpectCertificate || s.state == ServerExpectFinished)
    && |c.sched.hashes| == 1 && |s.sched.hashes| == 1 && Alg(c.sched) == Alg(s.sched)
    && c.psk == s.psk && c.dh == s.dh && c.isPsk == s.isPsk && c.hello == s.hello == Transcript(c.sched)
    && ops == Opening(Alg(s.sched), s.hello, s.Handshake(ServerHandshake), early, !s.isPsk, s.cfg.requireClientAuth,
       chain)
    && Transcript(s.sched) == s.flight == s.hello + WireAll(ops)
    && (early ==> c.usingEarlyData) && !c.certificateRequested
    && c.cfg.omitEndOfEarlyData == s.cfg.omitEndOfEarlyData
    && (s.state == ServerExpectEndOfEarlyData <==> early && !c.cfg.omitEndOfEarlyData)
    && (s.state == ServerExpectCertificate <==> s.cfg.requireClientAuth)
    && (s.ticketSecret.Some? ==> s.ticketSecret.value == s.Predicted())
    && (forall d :: c.cfg.verify(d, Signature(true, d))) && (forall d :: s.cfg.verify(d, Signature(false, d)))
  }

  lemma FirstShareOne(share: Share, groups: seq<nat>)
    ensures FirstShare([share], groups) == if share.group in groups then Some(share) else None
  {
    assert [share][1..] == [];
    assert FirstShare([], groups) == None;
  }

  lemma FirstUsableOne(id: Identity, lookup: Lookup, cs: Suite)
    ensures FirstUsable([id], lookup, cs, 0) ==
              if lookup(id.ticket).Some? && lookup(id.ticket).value.suite == cs then Some(0) else None
  {
    assert FirstUsable([id], lookup, cs, 1) == None;
  }

  /** The group of the client's first key share. */
  function FirstGroup(cfg: Config, usable: bool, ticket: Option<StoredTicket>): (g: Option<nat>)
    requires cfg.groups != [] && (usable ==> ticket.Some?)
  {
    if usable then Some(ticket.value.group) else if cfg.negotiateBeforeKeyExchange then None else Some(cfg.groups[0])
  }

  /** Whether the server takes early data with this answer. */
  ghost predicate Early(s: Tls, ch: ClientHello, lookup: Lookup, index: Option<nat>)
    requires index.Some? ==> index.value < |ch.identities| && lookup(ch.identities[index.value].ticket).Some?
  {
    s.TakesEarlyData(ch, lookup, index)
  }

  /** The client takes the ServerHello that answers its last ClientHello. */
  method Join(c: Tls, s: Tls, ch: ClientHello, lookup: Lookup, cs: Suite, share: Share, index: Option<nat>,
              ghost base: Bytes,
              serverRandom: nat, sk: nat, chain: nat, messages: seq<Message>)
    requires c != s && !c.isServer && s.isServer && c.Valid() && s.Valid()
    requires c.state == ClientExpectServerHello || c.state == ClientExpectSecondServerHello
    requires s.state == ServerExpectEndOfEarlyData || s.state == ServerExpectCertificate
             || s.state == ServerExpectFinished
    requires index.Some? ==> index.value < |ch.identities| && lookup(ch.identities[index.value].ticket).Some?
    requires s.Answered(ch, lookup, cs, Some(share), index, base, serverRandom, sk, chain, messages)
    requires c.sched.hashes != [] && Transcript(c.sched) == base && cs in c.cfg.suites
    requires c.keyShare == Some(share.group) && c.keyShareCtx == Some(share.key)
    requires c.state == ClientExpectSecondServerHello ==> cs.hash == Alg(c.sched)
    requires index.Some? ==> index.value == 0 && c.offeredPsk && c.psk == s.psk && Alg(c.sched) == cs.hash
    requires index.None? && !c.offeredPsk ==> c.psk.None?
    requires Early(s, ch, lookup, index) ==> c.usingEarlyData
    requires c.cfg.omitEndOfEarlyData == s.cfg.omitEndOfEarlyData && !c.certificateRequested
    requires (forall d :: c.cfg.verify(d, Signature(true, d))) && (forall d :: s.cfg.verify(d, Signature(false, d)))
    modifies c
    ensures HelloAgreed(c, s, messages[1..], Early(s, ch, lookup, index), chain)
    ensures c.usingEarlyData == old(c.usingEarlyData) && (c.usingEarlyData ==> c.enc == old(c.enc))
  {
    hide Tls.Valid, Wire, DeriveSecret, EarlySecret, HandshakeSecret, MasterSecret, Opening, WireAll,
         Tls.TakesEarlyData;
    assert c.Acceptable(messages[0]);
    var _ := c.ClientHandleHello(messages[0]);
    OneHashLeft(c);
  }

  /** The server answers a ClientHello that needs no retry, or the one after a retry; only a cookie can make it
      fail. */
  method Reply(s: Tls, ch: ClientHello, lookup: Lookup, cs: Suite, share: Share, serverRandom: nat, sk: nat, chain: nat)
    returns (r: HelloResult, index: Option<nat>, ghost base: Bytes)
    requires s.Valid() && s.isServer && s.Sound(ch)
             && (s.state == ServerExpectClientHello || s.state == ServerExpectSecondClientHello)
    requires FirstIn(ch.suites, s.cfg.suites) == Some(cs) && FirstShare(ch.shares, s.cfg.groups) == Some(share)
    requires s.state == ServerExpectClientHello && ch.cookie.None? ==> !s.cfg.enforceRetry
    requires var second := s.state == ServerExpectSecondClientHello || ch.cookie.Some?;
             s.BinderHolds(ch, lookup, s.ChosenIdentity(ch, second, lookup, cs), cs.hash)
    modifies s
    ensures r.Fail? || r.Flight?
    ensures r.Flight? <==> (old(s.state) == ServerExpectClientHello && ch.cookie.Some? ==> s.CookieHolds(ch, cs, share))
    ensures index == s.ChosenIdentity(ch, old(s.state) == ServerExpectSecondClientHello || ch.cookie.Some?, lookup, cs)
    ensures r.Flight? ==>
              && s.Valid() && (s.state == ServerExpectEndOfEarlyData || s.state == ServerExpectCertificate
                 || s.state == ServerExpectFinished)
              && s.Answered(ch, lookup, cs, Some(share), index, base, serverRandom, sk, chain, r.messages)
    ensures base == (if old(s.state) == ServerExpectSecondClientHello then old(Transcript(s.sched))
                     else if ch.cookie.Some? then s.FromCookie(ch, cs, share) else []) + Wire(Hello(ch))
  {
    hide Tls.Valid, Wire, Tls.Sound, Tls.Answered, Tls.CookieHolds, Tls.FromCookie, Tls.BinderHolds,
         Tls.ChosenIdentity, FirstIn, FirstShare;
    SecondHas(s);
    index := s.ChosenIdentity(ch, s.state == ServerExpectSecondClientHello || ch.cookie.Some?, lookup, cs);
    base := (if s.state == ServerExpectSecondClientHello then Transcript(s.sched)
             else if ch.cookie.Some? then s.FromCookie(ch, cs, share) else []) + Wire(Hello(ch));
    r := s.ServerHandleHello(ch, lookup, serverRandom, sk, chain);
  }

  lemma SecondHas(s: Tls)
    requires s.Valid() && (s.state == ServerExpectClientHello || s.state == ServerExpectSecondClientHello)
    ensures s.state == ServerExpectSecondClientHello ==> s.sched.hashes != []
  {}

  /** Without a retry.  When early data is accepted, the server reads it under the client's key. */
  method DirectHello(c: Tls, s: Tls, ticket: Option<StoredTicket>, wantEarly: bool, lookup: Lookup,
                     random: nat, ck: nat, serverRandom: nat, sk: nat, chain: nat)
    returns (ops: seq<Message>, ghost early: bool)
    requires Paired(c, s) && SameSession(ticket, lookup) && !s.cfg.enforceRetry
    requires var g := FirstGroup(c.cfg, c.Usable(ticket), ticket); g.Some? && g.value in s.cfg.groups
    modifies c, s
    ensures HelloAgreed(c, s, ops, early, chain)
    ensures s.state == ServerExpectEndOfEarlyData ==> c.enc == s.dec
  {
    hide Tls.Valid, Wire, Covered, VerifyData, DeriveSecret, EarlySecret, HandshakeSecret, MasterSecret, BinderKey,
         Opening, WireAll, FirstIn, FirstShare, FirstUsable, Tls.Predicted, Tls.Handshake, HelloAgreed;
    var ch := c.SendClientHello(ticket, wantEarly, random, ck);
    var cs := FirstIn(ch.suites, s.cfg.suites).value;
    var share := ch.shares[0];
    FirstShareOne(share, s.cfg.groups);
    if ch.identities != [] { FirstUsableOne(ch.identities[0], lookup, cs); }
    FirstFacts(c);
    var r, index;
    ghost var base;
    r, index, base := Reply(s, ch, lookup, cs, share, serverRandom, sk, chain);
    assert [] + Wire(Hello(ch)) == Wire(Hello(ch));
    Join(c, s, ch, lookup, cs, share, index, base, serverRandom, sk, chain, r.messages);
    ops, early := r.messages[1..], Early(s, ch, lookup, index);
  }

  lemma FirstFacts(c: Tls)
    requires c.Valid() && c.state == ClientExpectServerHello
    ensures c.sched.hashes != [] && !c.certificateRequested && (c.psk.Some? ==> c.offeredPsk)
  {}

  /** The client's hello, and whether the server has to ask again. */
  ghost predicate NeedsRetry(c: Tls, s: Tls, ticket: Option<StoredTicket>)
    requires c.cfg.groups != []
  {
    var g := FirstGroup(c.cfg, c.Usable(ticket), ticket);
    g.None? || g.value !in s.cfg.groups || s.cfg.enforceRetry
  }

  /** The ClientHello, answered by a retry. */
  method AskAgain(c: Tls, s: Tls, ticket: Option<StoredTicket>, wantEarly: bool, lookup: Lookup, random: nat, ck: nat)
    returns (ch: ClientHello, hrr: Message, cs: Suite, group: nat)
    requires Paired(c, s) && NeedsRetry(c, s, ticket)
    modifies c, s
    ensures c.Valid() && s.Valid() && c.state == ClientExpectServerHello && c.sched.hashes != []
            && Transcript(c.sched) == Wire(Hello(ch))
    ensures ch.random == random && ch.suites == c.cfg.suites && ch.groups == c.cfg.groups && ch.cookie.None?
    ensures FirstIn(c.cfg.suites, s.cfg.suites) == Some(cs) && FirstIn(c.cfg.groups, s.cfg.groups) == Some(group)
    ensures c.keyShare == FirstGroup(c.cfg, c.Usable(ticket), ticket)
    ensures FirstShare(ch.shares, s.cfg.groups).Some? <==> c.keyShare.Some? && c.keyShare.value in s.cfg.groups
    ensures if s.cfg.retryUsesCookie
            then hrr == s.RetryFor(ch, cs, group, Some(s.CookieFor(ch, cs, group)))
            else && hrr == s.RetryFor(ch, cs, group, None) && s.state == ServerExpectSecondClientHello
                 && s.sched.hashes != []
                 && s.suite == Some(cs) && s.clientRandom == random
                 && Transcript(s.sched) == Retried(cs.hash, Wire(Hello(ch))) + Wire(hrr)
  {
    hide Tls.Valid, Wire, Covered, VerifyData, DeriveSecret, EarlySecret, BinderKey, FirstIn, FirstShare,
         Tls.CookieFor, Tls.RetryFor, Retried, Tls.Answered, Tls.BinderHolds, Tls.ChosenIdentity;
    ch := c.SendClientHello(ticket, wantEarly, random, ck);
    cs, group := FirstIn(ch.suites, s.cfg.suites).value, FirstIn(ch.groups, s.cfg.groups).value;
    if ch.shares != [] { FirstShareOne(ch.shares[0], s.cfg.groups); } else { NoShare(s.cfg.groups); }
    FirstFacts(c);
    var r := s.ServerHandleHello(ch, lookup, 0, 0, 0);
    SecondHas'(s);
    hrr := r.hrr;
  }

  lemma NoShare(groups: seq<nat>)
    ensures FirstShare([], groups) == None
  {}

  lemma SecondHas'(s: Tls)
    requires s.Valid()
    ensures s.state == ServerExpectSecondClientHello ==> s.sched.hashes != []
  {}

  /** The client repeats itself as asked. */
  method AskSecond(c: Tls, s: Tls, ticket: Option<StoredTicket>, hrr: Message, cs: Suite, group: nat, ch1: ClientHello,
                   random: nat, ck: nat)
    returns (ch: ClientHello, share: Share)
    requires c != s && c.Valid() && s.Valid() && !c.isServer && c.state == ClientExpectServerHello
             && c.sched.hashes != []
    requires Transcript(c.sched) == Wire(Hello(ch1)) && FirstIn(c.cfg.suites, s.cfg.suites) == Some(cs)
    requires FirstIn(c.cfg.groups, s.cfg.groups) == Some(group)
    requires hrr.RetryRequest? && hrr.suite == cs
    requires if hrr.group.Some? then hrr.group.value == group else c.keyShare.Some? && c.keyShare.value in s.cfg.groups
    modifies c
    ensures c.Valid() && c.state == ClientExpectSecondServerHello && c.sched.hashes != [] && Alg(c.sched) == cs.hash
    ensures Transcript(c.sched) == Retried(cs.hash, Wire(Hello(ch1))) + Wire(hrr) + Wire(Hello(ch))
    ensures ch.random == random && ch.suites == c.cfg.suites && !ch.earlyData && ch.cookie == hrr.cookie
    ensures FirstShare(ch.shares, s.cfg.groups) == Some(share) && c.keyShare == Some(share.group)
            && c.keyShareCtx == Some(share.key)
    ensures share.group == if hrr.group.Some? then group else old(c.keyShare).value
    ensures (c.psk.Some? ==> c.offeredPsk) && !c.certificateRequested && !c.usingEarlyData
  {
    hide Tls.Valid, Wire, FirstIn, FirstShare, Retried;
    var v;
    v, ch := c.ClientHandleRetry(hrr, ticket, random, ck);
    share := ch.shares[0];
    FirstShareOne(share, s.cfg.groups);
    SecondFacts(c);
  }

  lemma SecondFacts(c: Tls)
    requires c.Valid() && c.state == ClientExpectSecondServerHello
    ensures c.sched.hashes != [] && !c.certificateRequested && !c.usingEarlyData && (c.psk.Some? ==> c.offeredPsk)
  {}

  /** With a retry whose state the server keeps.  No pre-shared key is used then. */
  method RetryHello(c: Tls, s: Tls, ticket: Option<StoredTicket>, wantEarly: bool, lookup: Lookup,
                    random: nat, ck: nat, ck2: nat, serverRandom: nat, sk: nat, chain: nat)
    returns (ops: seq<Message>)
    requires Paired(c, s) && NeedsRetry(c, s, ticket) && !s.cfg.retryUsesCookie
    modifies c, s
    ensures HelloAgreed(c, s, ops, false, chain) && !s.isPsk
  {
    hide Tls.Valid, Wire, DeriveSecret, EarlySecret, HandshakeSecret, MasterSecret, Opening, WireAll, FirstIn,
         FirstShare, Retried, HelloAgreed, Tls.Predicted, Tls.Handshake, Tls.MayUsePsk;
    var ch1, hrr, cs, group := AskAgain(c, s, ticket, wantEarly, lookup, random, ck);
    var ch, share := AskSecond(c, s, ticket, hrr, cs, group, ch1, random, ck2);
    var r, index;
    ghost var base;
    r, index, base := Reply(s, ch, lookup, cs, share, serverRandom, sk, chain);
    Join(c, s, ch, lookup, cs, share, index, base, serverRandom, sk, chain, r.messages);
    ops := r.messages[1..];
  }

  /** With a retry whose state travels in the cookie: s2 is a fresh server with the configuration of s.
      The signature is made for the group the server would negotiate, and checked for the group of the
      second key share: the two must agree, which they do whenever the retry names the group. */
  method CookieHello(c: Tls, s: Tls, s2: Tls, ticket: Option<StoredTicket>, wantEarly: bool, lookup: Lookup,
                     random: nat, ck: nat, ck2: nat, serverRandom: nat, sk: nat, chain: nat)
    returns (ok: bool, ops: seq<Message>)
    requires Paired(c, s) && NeedsRetry(c, s, ticket) && s.cfg.retryUsesCookie
    requires s2 != s && s2 != c && s2.isServer && s2.Valid() && s2.state == ServerExpectClientHello && s2.cfg == s.cfg
    modifies c, s, s2
    ensures ok <==> (var g := FirstGroup(c.cfg, c.Usable(ticket), ticket);
                     g.Some? && g.value in s.cfg.groups ==> g == FirstIn(c.cfg.groups, s.cfg.groups))
    ensures ok ==> HelloAgreed(c, s2, ops, false, chain) && !s2.isPsk
  {
    hide Tls.Valid, Wire, DeriveSecret, EarlySecret, HandshakeSecret, MasterSecret, Opening, WireAll, FirstIn,
         FirstShare, HelloAgreed, Tls.Predicted, Tls.Handshake, Tls.MayUsePsk;
    var ch1, hrr, cs, group := AskAgain(c, s, ticket, wantEarly, lookup, random, ck);
    ghost var first := c.keyShare;
    var ch, share := AskSecond(c, s, ticket, hrr, cs, group, ch1, random, ck2);
    var r, index;
    ghost var base;
    r, index, base := Reply(s2, ch, lookup, cs, share, serverRandom, sk, chain);
    ok, ops := r.Flight?, [];
    if ok {
      Join(c, s2, ch, lookup, cs, share, index, base, serverRandom, sk, chain, r.messages);
      ops := r.messages[1..];
    }
  }

  /** Two common groups and a ticket for the second: the cookie is signed for the first, and the second
      ClientHello is refused. */
  method CookieRefused(verify: (Term, Term) -> bool, lookup: Lookup) returns (ok: bool)
    requires forall byServer, d :: verify(d, Signature(byServer, d))
    ensures !ok
  {
    hide Tls.Valid, HelloAgreed;
    var suites, groups := [Suite(1, 256)], [23, 29];
    var clientCfg := Config(suites, groups, false, false, verify, true, false, false, false, false, false, false,
      false, 0);
    var serverCfg := Config(suites, groups, false, false, verify, false, false, false, false, false, false, true, true,
      1);
    var c := new Tls(false, clientCfg);
    var s := new Tls(true, serverCfg);
    var s2 := new Tls(true, serverCfg);
    assert forall d :: verify(d, Signature(true, d));
    assert forall d :: verify(d, Signature(false, d));
    var ops;
    ok, ops := CookieHello(c, s, s2, Some(StoredTicket(0, Zeros, suites[0], 29, false)), false, lookup, 0, 0, 0, 0, 0,
      0);
  }

  // ----- two runs that no honest server starts ---------------------------------------------------------------------

  /** A client that offers suites with two hashes. */
  method TwoHashes() returns (c: Tls)
    ensures fresh(c) && c.Valid() && !c.isServer && c.state == ClientHandshakeStart && !c.offeredPsk
            && c.keyShare.None? && !c.certificateRequested
    ensures c.cfg.suites == [Suite(1, 256), Suite(2, 384)] && c.cfg.groups == [23] && !c.cfg.negotiateBeforeKeyExchange
    ensures forall d, s :: !c.cfg.verify(d, s)
  {
    var suites := [Suite(1, 256), Suite(2, 384)];
    var cfg := Config(suites, [23], false, false, (_, _) => false, true, false, false, false, false, false, false,
      false, 0);
    c := new Tls(false, cfg);
  }

  /** A ticket for one hash, and a ServerHello that selects it with a suite of the other: the client finishes
      although no certificate would be accepted and no key is in the secrets. */
  method KeyIsLost() returns (c: Tls)
    ensures fresh(c) && c.state == ClientPostHandshake && c.isPsk && c.psk.None? && c.dh.None?
    ensures forall d, s :: !c.cfg.verify(d, s)
  {
    hide Tls.Valid, Wire, VerifyData, DeriveSecret, HandshakeSecret, MasterSecret, EarlySecret, Covered, Closing,
         WireAll;
    c := TwoHashes();
    var _ := c.SendClientHello(Some(StoredTicket(0, Zeros, Suite(1, 256), 23, false)), false, 0, 0);
    var v := c.ClientHandleHello(ServerHello(0, Suite(2, 384), None, Some(0)));
    var ok := c.ClientHandleEncryptedExtensions(EncryptedExtensions(false));
    FinishedHashes(c);
    var out;
    ok, out := c.ClientHandleFinished(Finished(VerifyData(Alg(c.sched), c.dec.secret, Transcript(c.sched))), 0);
  }

  lemma FinishedHashes(c: Tls)
    requires c.Valid() && c.state == ClientExpectFinished
    ensures c.sched.hashes != []
  {}

  /** A retry that names one hash, and a ServerHello with the other: no candidate is left for it. */
  method SlotIsLost() returns (v: Verdict)
    ensures v == NoSlot
  {
    hide Tls.Valid, Wire, Covered, Retried;
    var c := TwoHashes();
    var _ := c.SendClientHello(None, false, 0, 0);
    var ch;
    v, ch := c.ClientHandleRetry(RetryRequest(Suite(1, 256), Some(23), None), None, 0, 0);
    v := c.ClientHandleHello(ServerHello(0, Suite(2, 384), Some(Share(23, 0)), None));
  }

  // ----- after the hellos ------------------------------------------------------------------------------------------

  /** The messages before the last Finished on the server's side, for each kind of handshake. */
  function BeforeFinished(alg: nat, hello: Bytes, early: bool, certificate: bool, request: bool,
                          chain: nat): (ms: seq<Message>) {
    var a := [EncryptedExtensions(early)];
    if !certificate then a
    else
      var b := if request then a + [CertificateRequest] else a;
      var d := b + [Certificate(chain)];
      d + [CertificateVerify(Signature(true, Hash(alg, hello + WireAll(d))))]
  }

  lemma OpeningIs(alg: nat, hello: Bytes, secret: Term, early: bool, certificate: bool, request: bool, chain: nat)
    ensures var b := BeforeFinished(alg, hello, early, certificate, request, chain);
            Opening(alg, hello, secret, early, certificate, request,
              chain) == b + [Finished(VerifyData(alg, secret, hello + WireAll(b)))]
  {
    var a := [EncryptedExtensions(early)];
    assert a + [] == a;
  }

  /** The client after `done`, the first of the server's messages. */
  ghost predicate Heard(c: Tls, alg: nat, psk: Option<Term>, dh: Option<Term>, hello: Bytes, done: seq<Message>,
                        early: bool)
    reads c
  {
    && c.Valid() && !c.isServer && |c.sched.hashes| == 1 && Alg(c.sched) == alg && c.psk == psk && c.dh == dh
       && c.hello == hello
    && Transcript(c.sched) == hello + WireAll(done) && c.usingEarlyData == early
  }

  /** The server's certificate messages, from the second of its messages on. */
  method HearCertificate(c: Tls, ops: seq<Message>, ghost alg: nat, ghost psk: Option<Term>, ghost dh: Option<Term>,
                         ghost hello: Bytes,
                         ghost early: bool, ghost request: bool, ghost chain: nat)
    requires Heard(c, alg, psk, dh, hello, [EncryptedExtensions(early)], early)
             && c.state == ClientExpectCertificateRequestOrCertificate
    requires BeforeFinished(alg, hello, early, true, request, chain) <= ops && !c.certificateRequested
    requires forall d :: c.cfg.verify(d, Signature(true, d))
    modifies c
    ensures Heard(c, alg, psk, dh, hello, BeforeFinished(alg, hello, early, true, request, chain), early)
    ensures c.state == ClientExpectFinished && c.certificateRequested == request
    ensures c.pendingHandshakeSecret == old(c.pendingHandshakeSecret) && c.isPsk == old(c.isPsk)
  {
    hide Tls.Valid, Wire, WireAll;
    ghost var done := [EncryptedExtensions(early)];
    var k := 1;
    if ops[1].CertificateRequest? {
      Onward(hello, done, ops[1]);
      c.ClientHandleCertificateRequest(ops[1]);
      done := done + [ops[1]];
      k := 2;
    }
    Onward(hello, done, ops[k]);
    var ok := c.HandleCertificate(ops[k], true);
    done := done + [ops[k]];
    Onward(hello, done, ops[k + 1]);
    ok := c.HandleCertificateVerify(ops[k + 1]);
  }

  lemma Onward(base: Bytes, done: seq<Message>, m: Message)
    ensures base + WireAll(done) + Wire(m) == base + WireAll(done + [m])
  {
    WireAllSnoc(done, m);
    assert base + WireAll(done) + Wire(m) == base + (WireAll(done) + Wire(m));
  }

  /** The client takes the server's flight and confirms it. */
  method HearFlight(c: Tls, s: Tls, ops: seq<Message>, ghost early: bool, ghost chain: nat, clientChain: nat)
    returns (out: seq<Message>)
    requires HelloAgreed(c, s, ops, early, chain)
    modifies c
    ensures c.Valid() && c.state == ClientPostHandshake && |c.sched.hashes| == 1 && Alg(c.sched) == Alg(s.sched)
    ensures c.psk == s.psk && c.dh == s.dh && c.hello == s.hello && c.flight == s.flight
    ensures out == Closing(Alg(s.sched), s.flight, s.Handshake(ClientHandshake), s.state == ServerExpectEndOfEarlyData,
            s.cfg.requireClientAuth, clientChain)
    ensures Transcript(c.sched) == s.flight + WireAll(out)
  {
    hide Tls.Valid, Wire, WireAll, DeriveSecret, HandshakeSecret, MasterSecret, VerifyData, Closing, Opening,
         Tls.Predicted;
    ghost var alg, psk, dh, hello := Alg(s.sched), s.psk, s.dh, s.hello;
    ghost var request := s.cfg.requireClientAuth;
    MiddleFacts(c, s);
    OpeningIs(alg, hello, s.Handshake(ServerHandshake), early, !s.isPsk, request, chain);
    ghost var ms := BeforeFinished(alg, hello, early, !s.isPsk, request, chain);
    NothingSent(hello);
    Onward(hello, [], ops[0]);
    assert [] + [ops[0]] == [ops[0]];
    var ok := c.ClientHandleEncryptedExtensions(ops[0]);
    if !c.isPsk {
      HearCertificate(c, ops, alg, psk, dh, hello, early, request, chain);
    }
    assert ops[|ops| - 1] == Finished(VerifyData(alg, s.Handshake(ServerHandshake), hello + WireAll(ms)));
    DecIsHandshake(c);
    Onward(hello, ms, ops[|ops| - 1]);
    ok, out := c.ClientHandleFinished(ops[|ops| - 1], clientChain);
    PostFacts(c);
  }

  lemma MiddleFacts(c: Tls, s: Tls)
    requires c.Valid() && s.Valid() && c.state == ClientExpectEncryptedExtensions && s.isServer
    requires s.state == ServerExpectEndOfEarlyData || s.state == ServerExpectCertificate
             || s.state == ServerExpectFinished
    ensures c.usingEarlyData ==> c.pendingHandshakeSecret.Some?
    ensures s.cfg.requireClientAuth ==> !s.isPsk
  {}

  lemma DecIsHandshake(c: Tls)
    requires c.Valid() && c.state == ClientExpectFinished
    ensures c.sched.hashes != [] && c.dec.secret == c.Handshake(ServerHandshake)
  {}

  lemma PostFacts(c: Tls)
    requires c.Valid() && (c.state == ClientPostHandshake || c.state == ServerPostHandshake)
    ensures |c.sched.hashes| == 1
    ensures c.state == ClientPostHandshake ==> c.enc == Traffic(c.App(ClientApp), 3, true)
                                               && c.dec == Traffic(c.App(ServerApp), 3, true)
    ensures c.state == ServerPostHandshake ==> c.dec == Traffic(c.App(ClientApp), 3, true)
                                               && c.enc == Traffic(c.App(ServerApp), 3, true)
  {}

  /** Both sides are through and hold the same keys. */
  ghost predicate Agreed(c: Tls, s: Tls)
    reads c, s
  {
    && c.Valid() && s.Valid() && c.state == ClientPostHandshake && s.state == ServerPostHandshake
    && c.sched == s.sched && c.psk == s.psk && c.dh == s.dh && c.hello == s.hello && c.flight == s.flight
    && c.enc == s.dec && c.dec == s.enc
  }

  /** The server takes what the client sends to conclude. */
  method HearClosing(c: Tls, s: Tls, out: seq<Message>, ghost clientChain: nat)
    requires c != s && s.isServer && c.Valid() && s.Valid() && c.state == ClientPostHandshake && |c.sched.hashes| == 1
             && |s.sched.hashes| == 1
    requires s.state == ServerExpectEndOfEarlyData || s.state == ServerExpectCertificate
             || s.state == ServerExpectFinished
    requires s.state == ServerExpectCertificate <==> s.cfg.requireClientAuth
    requires Alg(c.sched) == Alg(s.sched) && c.psk == s.psk && c.dh == s.dh && c.hello == s.hello
             && c.flight == s.flight == Transcript(s.sched)
    requires out == Closing(Alg(s.sched), s.flight, s.Handshake(ClientHandshake),
             s.state == ServerExpectEndOfEarlyData, s.cfg.requireClientAuth, clientChain)
    requires Transcript(c.sched) == s.flight + WireAll(out)
    requires forall d :: s.cfg.verify(d, Signature(false, d))
    modifies s
    ensures Agreed(c, s) && s.ticketSecret == old(s.ticketSecret)
  {
    hide Tls.Valid, Wire, WireAll, DeriveSecret, HandshakeSecret, MasterSecret, VerifyData, Closing;
    ghost var alg, psk, dh, hello, flight := Alg(s.sched), s.psk, s.dh, s.hello, s.flight;
    ghost var ms := BeforeClosing(alg, flight, s.state == ServerExpectEndOfEarlyData, s.cfg.requireClientAuth,
      clientChain);
    ClosingIs(alg, flight, s.Handshake(ClientHandshake), s.state == ServerExpectEndOfEarlyData,
      s.cfg.requireClientAuth, clientChain);
    NothingSent(flight);
    ServerKeys(s);
    if s.state == ServerExpectEndOfEarlyData {
      HearEnd(s, out, alg, psk, dh, hello, flight);
    } else if s.state == ServerExpectCertificate {
      HearClientCertificate(s, out, alg, psk, dh, hello, flight, clientChain);
    }
    ServerKeys(s);
    Onward(flight, ms, out[|out| - 1]);
    var ok := s.ServerHandleFinished(out[|out| - 1]);
    PostFacts(c);
    PostFacts(s);
    SameSched(c, s);
  }

  function BeforeClosing(alg: nat, flight: Bytes, endOfEarlyData: bool, certificate: bool,
                         chain: nat): (ms: seq<Message>) {
    var a := if endOfEarlyData then [EndOfEarlyData] else [];
    if !certificate then a
    else
      var d := a + [Certificate(chain)];
      d + [CertificateVerify(Signature(false, Hash(alg, flight + WireAll(d))))]
  }

  lemma ClosingIs(alg: nat, flight: Bytes, secret: Term, endOfEarlyData: bool, certificate: bool, chain: nat)
    ensures var b := BeforeClosing(alg, flight, endOfEarlyData, certificate, chain);
            Closing(alg, flight, secret, endOfEarlyData, certificate,
              chain) == b + [Finished(VerifyData(alg, secret, flight + WireAll(b)))]
  {}

  /** The server has heard `done` and waits for the client's Finished. */
  ghost predicate Waiting(s: Tls, alg: nat, psk: Option<Term>, dh: Option<Term>, hello: Bytes, flight: Bytes,
                          done: seq<Message>)
    reads s
  {
    && s.Valid() && s.isServer && s.state == ServerExpectFinished && |s.sched.hashes| == 1 && Alg(s.sched) == alg
    && s.psk == psk && s.dh == dh && s.hello == hello && s.flight == flight
       && Transcript(s.sched) == flight + WireAll(done)
  }

  method HearEnd(s: Tls, out: seq<Message>, ghost alg: nat, ghost psk: Option<Term>, ghost dh: Option<Term>,
                 ghost hello: Bytes, ghost flight: Bytes)
    requires s.Valid() && s.isServer && s.state == ServerExpectEndOfEarlyData && |s.sched.hashes| == 1
             && Alg(s.sched) == alg
    requires s.psk == psk && s.dh == dh && s.hello == hello && s.flight == flight == Transcript(s.sched)
    requires out != [] && out[0] == EndOfEarlyData
    modifies s
    ensures Waiting(s, alg, psk, dh, hello, flight, [EndOfEarlyData]) && s.ticketSecret == old(s.ticketSecret)
  {
    hide Tls.Valid, Wire, WireAll;
    NothingSent(flight);
    Onward(flight, [], out[0]);
    assert [] + [out[0]] == [out[0]];
    s.ServerHandleEndOfEarlyData(out[0]);
  }

  method HearClientCertificate(s: Tls, out: seq<Message>, ghost alg: nat, ghost psk: Option<Term>,
                               ghost dh: Option<Term>,
                               ghost hello: Bytes, ghost flight: Bytes, ghost chain: nat)
    requires s.Valid() && s.isServer && s.state == ServerExpectCertificate && |s.sched.hashes| == 1
             && Alg(s.sched) == alg
    requires s.psk == psk && s.dh == dh && s.hello == hello && s.flight == flight == Transcript(s.sched)
    requires BeforeClosing(alg, flight, false, true, chain) <= out && forall d :: s.cfg.verify(d, Signature(false, d))
    modifies s
    ensures Waiting(s, alg, psk, dh, hello, flight, BeforeClosing(alg, flight, false, true, chain))
            && s.ticketSecret == old(s.ticketSecret)
  {
    hide Tls.Valid, Wire, WireAll;
    NothingSent(flight);
    Onward(flight, [], out[0]);
    assert [] + [out[0]] == [out[0]];
    var ok := s.HandleCertificate(out[0], true);
    Onward(flight, [out[0]], out[1]);
    ok := s.HandleCertificateVerify(out[1]);
  }

  lemma ServerKeys(s: Tls)
    requires s.Valid() && s.sched.hashes != []
    ensures s.state == ServerExpectFinished ==> s.dec.secret == s.Handshake(ClientHandshake)
    ensures s.state == ServerExpectEndOfEarlyData ==> s.pendingHandshakeSecret == Some(s.Handshake(ClientHandshake))
    ensures s.state == ServerExpectEndOfEarlyData ==> !s.cfg.requireClientAuth
    ensures s.state == ServerExpectCertificate || s.state == ServerExpectCertificateVerify
            ==> s.dec.secret == s.Handshake(ClientHandshake)
  {}

  lemma SameSched(c: Tls, s: Tls)
    requires c.Valid() && s.Valid() && c.state == ClientPostHandshake && s.state == ServerPostHandshake
    requires |c.sched.hashes| == 1 && |s.sched.hashes| == 1 && Alg(c.sched) == Alg(s.sched)
             && Transcript(c.sched) == Transcript(s.sched)
    requires c.psk == s.psk && c.dh == s.dh
    ensures c.sched == s.sched
  {
    MasterIs(c.sched, c.psk, c.dh);
    MasterIs(s.sched, s.psk, s.dh);
  }

  lemma OneHashLeft(c: Tls)
    requires c.Valid() && c.state == ClientExpectEncryptedExtensions
    ensures |c.sched.hashes| == 1
  {}

  // ----- whole handshakes --------------------------------------------------------------------------------------------

  /** From the hellos to the end.  The resumption secret behind a ticket, which the server computes before
      it has heard the client's last messages, is the one the client derives exactly when no client
      certificate is asked for. */
  method Complete(c: Tls, s: Tls, ops: seq<Message>, ghost early: bool, ghost chain: nat, clientChain: nat)
    returns (secret: Term)
    requires HelloAgreed(c, s, ops, early, chain)
    modifies c, s
    ensures Agreed(c, s) && s.ticketSecret == old(s.ticketSecret)
    ensures s.ticketSecret.Some? ==> (s.ticketSecret.value == secret <==> !s.cfg.requireClientAuth)
  {
    hide Tls.Valid, Wire, WireAll, DeriveSecret, HandshakeSecret, MasterSecret, VerifyData, Closing, Opening, Agreed,
         ResumptionSecret, Tls.Handshake;
    ghost var alg, key, psk, dh, flight := Alg(s.sched), s.Handshake(ClientHandshake), s.psk, s.dh, s.flight;
    ghost var waits := s.state == ServerExpectEndOfEarlyData;
    ServerFacts(s);
    ghost var predicted := ResumptionSecret(alg, MasterSecret(alg, psk, dh),
      flight + WireAll(Closing(alg, flight, key, waits, false, 0)));
    assert s.Predicted() == predicted;
    var out := HearFlight(c, s, ops, early, chain, clientChain);
    HearClosing(c, s, out, clientChain);
    secret := c.ClientHandleNewSessionTicket();
    assert secret == ResumptionSecret(alg, MasterSecret(alg, psk, dh), flight + WireAll(out));
    SamePrediction(alg, MasterSecret(alg, psk, dh), flight, key, waits, s.cfg.requireClientAuth, clientChain);
  }

  lemma ServerFacts(s: Tls)
    requires s.Valid() && s.isServer
    ensures s.pendingHandshakeSecret.Some? <==> s.state == ServerExpectEndOfEarlyData
  {}

  lemma SamePrediction(alg: nat, master: Term, flight: Bytes, key: Term, waits: bool, certificate: bool, chain: nat)
    requires certificate ==> !waits
    ensures var actual := ResumptionSecret(alg, master,
            flight + WireAll(Closing(alg, flight, key, waits, certificate, chain)));
            var predicted := ResumptionSecret(alg, master,
              flight + WireAll(Closing(alg, flight, key, waits, false, 0)));
            actual == predicted <==> !certificate
  {
    var a := WireAll(Closing(alg, flight, key, waits, certificate, chain));
    var b := WireAll(Closing(alg, flight, key, waits, false, 0));
    if certificate {
      assert |a| == 3 && |b| == 1;
      assert |flight + a| != |flight + b|;
    }
  }

  /** A handshake without a retry. */
  method DirectHandshake(c: Tls, s: Tls, ticket: Option<StoredTicket>, wantEarly: bool, lookup: Lookup,
                         random: nat, ck: nat, serverRandom: nat, sk: nat, chain: nat, clientChain: nat)
    returns (secret: Term)
    requires Paired(c, s) && SameSession(ticket, lookup) && !s.cfg.enforceRetry
    requires var g := FirstGroup(c.cfg, c.Usable(ticket), ticket); g.Some? && g.value in s.cfg.groups
    modifies c, s
    ensures Agreed(c, s) && (s.ticketSecret.Some? ==> (s.ticketSecret.value == secret <==> !s.cfg.requireClientAuth))
  {
    hide Agreed, HelloAgreed, Paired, SameSession;
    var ops;
    ghost var early;
    ops, early := DirectHello(c, s, ticket, wantEarly, lookup, random, ck, serverRandom, sk, chain);
    secret := Complete(c, s, ops, early, chain, clientChain);
  }

  /** A handshake with a retry that the server remembers. */
  method RetryHandshake(c: Tls, s: Tls, ticket: Option<StoredTicket>, wantEarly: bool, lookup: Lookup,
                        random: nat, ck: nat, ck2: nat, serverRandom: nat, sk: nat, chain: nat, clientChain: nat)
    returns (secret: Term)
    requires Paired(c, s) && NeedsRetry(c, s, ticket) && !s.cfg.retryUsesCookie
    modifies c, s
    ensures Agreed(c, s) && (s.ticketSecret.Some? ==> (s.ticketSecret.value == secret <==> !s.cfg.requireClientAuth))
  {
    hide Agreed, HelloAgreed, Paired;
    var ops := RetryHello(c, s, ticket, wantEarly, lookup, random, ck, ck2, serverRandom, sk, chain);
    secret := Complete(c, s, ops, false, chain, clientChain);
  }

  /** A handshake with a retry that only the cookie remembers. */
  method CookieHandshake(c: Tls, s: Tls, s2: Tls, ticket: Option<StoredTicket>, wantEarly: bool, lookup: Lookup,
                         random: nat, ck: nat, ck2: nat, serverRandom: nat, sk: nat, chain: nat, clientChain: nat)
    returns (ok: bool, secret: Term)
    requires Paired(c, s) && NeedsRetry(c, s, ticket) && s.cfg.retryUsesCookie
    requires s2 != s && s2 != c && s2.isServer && s2.Valid() && s2.state == ServerExpectClientHello && s2.cfg == s.cfg
    modifies c, s, s2
    ensures ok <==> (var g := FirstGroup(c.cfg, c.Usable(ticket), ticket);
                     g.Some? && g.value in s.cfg.groups ==> g == FirstIn(c.cfg.groups, s.cfg.groups))
    ensures ok ==> Agreed(c, s2) && (s2.ticketSecret.Some?
                   ==> (s2.ticketSecret.value == secret <==> !s2.cfg.requireClientAuth))
  {
    hide Agreed, HelloAgreed, Paired;
    var ops;
    ok, ops := CookieHello(c, s, s2, ticket, wantEarly, lookup, random, ck, ck2, serverRandom, sk, chain);
    secret := Zeros;
    if ok { secret := Complete(c, s2, ops, false, chain, clientChain); }
  }
}
