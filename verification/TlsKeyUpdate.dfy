/** Post-handshake traffic of lib/picotls.c: records sealed under a traffic secret and a sequence
    number, key updates in both directions, and what holds over every run of two endpoints joined
    by ordered channels. */
module TlsKeyUpdate {
  import opened Common
  import opened TlsReceive

  // ----- secrets and records ---------------------------------------------------------------------------------

  /** A traffic secret: the one the handshake installed, or the "traffic upd" expansion of another. */
  datatype Secret = Initial(fromClient: bool) | Updated(previous: Secret)

  function Generation(s: Secret): (n: nat) {
    match s
    case Initial(_) => 0
    case Updated(t) => 1 + Generation(t)
  }

  /** st_ptls_traffic_protection_t: secret and sequence number. */
  datatype Protection = Protection(secret: Secret, seqno: nat)

  /** update_traffic_key */
  function Next(p: Protection): (q: Protection)
    ensures Generation(q.secret) == Generation(p.secret) + 1
  {
    Protection(Updated(p.secret), 0)
  }

  /** An ideal AEAD: a record opens under exactly the secret and number it was sealed with. */
  datatype Sealed = Sealed(under: Protection, inner: seq<Byte>)

  const BAD_RECORD_MAC := 20
  const UNEXPECTED_MESSAGE := 10
  const CLOSED := 256

  // ----- the inner plaintext -----------------------------------------------------------------------------------

  /** Content type and content below the padding zeros. */
  function Unpad(inner: seq<Byte>): (r: Option<(Byte, seq<Byte>)>) {
    if inner == [] then None
    else if inner[|inner| - 1] == 0 then Unpad(inner[..|inner| - 1])
    else Some((inner[|inner| - 1], inner[..|inner| - 1]))
  }

  /** Any amount of padding is removed, and the content may itself end in zeros. */
  lemma {:induction false} UnpadPadded(content: seq<Byte>, contentType: Byte, zeros: seq<Byte>)
    requires contentType != 0 && forall i :: 0 <= i < |zeros| ==> zeros[i] == 0
    ensures Unpad(content + [contentType] + zeros) == Some((contentType, content))
    decreases |zeros|
  {
    var inner := content + [contentType] + zeros;
    if zeros == [] {
      assert inner[..|inner| - 1] == content;
    } else {
      assert inner[..|inner| - 1] == content + [contentType] + zeros[..|zeros| - 1];
      UnpadPadded(content, contentType, zeros[..|zeros| - 1]);
    }
  }

  // ----- sending -----------------------------------------------------------------------------------------------------

  /** What a client makes of the body of a NewSessionTicket; a server does not take any. */
  type Tickets = Option<seq<Byte> -> Ret>

  /** The state that sending and receiving work on. */
  datatype State = State(enc: Protection, dec: Protection, needs: bool, request: bool, mess: Option<seq<Byte>>,
    tickets: Tickets)

  function After(p: Protection, n: nat): (q: Protection) {
    p.(seqno := p.seqno + n)
  }

  /** Records of at most 16384 bytes, numbered consecutively. */
  function Records(p: Protection, contentType: Byte, data: seq<Byte>): (out: seq<Sealed>)
    decreases |data|
  {
    if data == [] then []
    else
      var n := if |data| > MAX_PLAINTEXT then MAX_PLAINTEXT else |data|;
      [Sealed(p, data[..n] + [contentType])] + Records(After(p, 1), contentType, data[n..])
  }

  const KEY_UPDATE: Byte := 24
  const NEW_SESSION_TICKET: Byte := 4

  function KeyUpdateMessage(request: bool): (m: seq<Byte>) {
    [KEY_UPDATE, 0, 0, 1, if request then 1 else 0]
  }

  const LIMIT := 16777216

  /** ptls_send: a key update first if one is due, under the old key; then the data. */
  function SendSpec(st: State, data: seq<Byte>): (r: (State, seq<Sealed>)) {
    var due := st.needs || st.enc.seqno >= LIMIT;
    var enc := if due then Next(st.enc) else st.enc;
    var head := if due then [Sealed(st.enc, KeyUpdateMessage(st.request) + [HANDSHAKE])] else [];
    var body := Records(enc, APPDATA, data);
    (st.(enc := After(enc, |body|), needs := false, request := if due then false else st.request), head + body)
  }

  // ----- receiving ---------------------------------------------------------------------------------------------------

  /** The message callback of both post-handshake states. */
  function OnMessage(st: State, m: seq<Byte>, isEnd: bool): (r: (State, Ret)) {
    if |m| < 4 then (st, Error(UNEXPECTED_MESSAGE))
    else if m[0] == NEW_SESSION_TICKET && st.tickets.Some? then (st, st.tickets.value(m[4..]))
    else if m[0] != KEY_UPDATE then (st, Error(UNEXPECTED_MESSAGE))
    else if |m| != 5 || m[4] > 1 then (st, Error(DECODE_ERROR))
    else (st.(dec := Next(st.dec), needs := st.needs || m[4] == 1), Done)
  }

  datatype Received = Data(bytes: seq<Byte>) | Quiet | Failure(code: int)

  function FromRet(ret: Ret): (r: Received) {
    match ret
    case Error(code) => Failure(code)
    case _ => Quiet
  }

  /** handle_input on one complete protected record. */
  function ReceiveSpec(st: State, max: nat, r: Sealed): (o: (State, Received)) {
    if r.under != st.dec then (st, Failure(BAD_RECORD_MAC))
    else
      var counted := st.(dec := After(st.dec, 1));
      match Unpad(r.inner)
      case None => (counted, Failure(UNEXPECTED_MESSAGE))
      case Some((contentType, content)) =>
        if st.mess.Some? || contentType == HANDSHAKE then
          var h := OnHandshake(OnMessage, max, counted, st.mess, contentType, content);
          (h.st.(mess := h.mess), FromRet(h.ret))
        else if contentType == APPDATA then (counted, Data(content))
        else (counted, Failure(CLOSED))
  }

  lemma {:induction false} DeliverKeepsTickets(st: State, s: seq<Byte>, ret: Ret)
    requires !ret.Error?
    ensures TlsReceive.Deliver(OnMessage, st, s, ret).st.tickets == st.tickets
    decreases |s|
  {
    if HasMessage(s) {
      var n := MessageLength(s);
      var (st', ret') := OnMessage(st, s[..n], |s| == n);
      if !ret'.Error? { DeliverKeepsTickets(st', s[n..], ret'); }
    }
  }

  lemma HandshakeKeepsTickets(max: nat, st: State, mess: Option<seq<Byte>>, contentType: Byte, fragment: seq<Byte>)
    ensures OnHandshake(OnMessage, max, st, mess, contentType, fragment).st.tickets == st.tickets
  {
    hide TlsReceive.Deliver, OnMessage;
    DeliverKeepsTickets(st, Held(mess) + fragment, InProgress);
  }

  /** The fields of ptls_t that post-handshake traffic changes. */
  class Endpoint {
    var enc: Protection
    var dec: Protection
    var needsKeyUpdate: bool
    var keyUpdateSendRequest: bool
    var mess: Option<seq<Byte>>
    const maxBuffer: nat
    const tickets: Tickets

    constructor (enc: Protection, dec: Protection, maxBuffer: nat, tickets: Tickets)
      ensures Contents() == State(enc, dec, false, false, None, tickets) && this.maxBuffer == maxBuffer
    {
      this.enc, this.dec, this.needsKeyUpdate, this.keyUpdateSendRequest := enc, dec, false, false;
      this.mess, this.maxBuffer, this.tickets := None, maxBuffer, tickets;
    }

    function Contents(): (st: State)
      reads this
    {
      State(enc, dec, needsKeyUpdate, keyUpdateSendRequest, mess, tickets)
    }

    /** aead_encrypt behind the record header: the number is used up. */
    method Seal(inner: seq<Byte>) returns (r: Sealed)
      modifies this`enc
      ensures r == Sealed(old(enc), inner) && enc == After(old(enc), 1)
    {
      r := Sealed(enc, inner);
      enc := enc.(seqno := enc.seqno + 1);
    }

    /** buffer_push_encrypted_records */
    method PushRecords(contentType: Byte, src: seq<Byte>) returns (out: seq<Sealed>)
      modifies this`enc
      ensures out == Records(old(enc), contentType, src) && enc == After(old(enc), |out|)
    {
      out := [];
      var rest := src;
      while rest != []
        invariant enc == After(old(enc), |out|)
        invariant out + Records(enc, contentType, rest) == Records(old(enc), contentType, src)
        decreases |rest|
      {
        var n := if |rest| > MAX_PLAINTEXT then MAX_PLAINTEXT else |rest|;
        ghost var before := out;
        var r := Seal(rest[..n] + [contentType]);
        out, rest := out + [r], rest[n..];
        assert out + Records(enc, contentType, rest) == before + ([r] + Records(enc, contentType, rest));
      }
      assert out + [] == out;
    }

    /** update_send_key: the message still goes out under the old key. */
    method UpdateSendKey(request: bool) returns (r: Sealed)
      modifies this`enc
      ensures r == Sealed(old(enc), KeyUpdateMessage(request) + [HANDSHAKE]) && enc == Next(old(enc))
    {
      r := Seal(KeyUpdateMessage(request) + [HANDSHAKE]);
      enc := Next(enc);
    }

    /** ptls_send */
    method Send(input: seq<Byte>) returns (out: seq<Sealed>)
      modifies this
      ensures (Contents(), out) == SendSpec(old(Contents()), input)
    {
      var head := [];
      if enc.seqno >= LIMIT { needsKeyUpdate := true; }
      if needsKeyUpdate {
        var r := UpdateSendKey(keyUpdateSendRequest);
        head := [r];
        needsKeyUpdate, keyUpdateSendRequest := false, false;
      }
      var body := PushRecords(APPDATA, input);
      out := head + body;
    }

    /** ptls_update_key: the update itself waits for the next send. */
    method UpdateKey(request: bool)
      modifies this
      ensures Contents() == old(Contents()).(needs := true, request := request)
    {
      needsKeyUpdate, keyUpdateSendRequest := true, request;
    }

    /** The dispatch of messages after the handshake. */
    method HandleMessage(m: seq<Byte>) returns (ret: Ret)
      requires |m| >= 4
      modifies this
      ensures (Contents(), ret) == OnMessage(old(Contents()), m, true)
    {
      if m[0] == NEW_SESSION_TICKET && tickets.Some? { return tickets.value(m[4..]); }
      if m[0] != KEY_UPDATE { return Error(UNEXPECTED_MESSAGE); }
      ret := HandleKeyUpdate(m);
    }

    /** handle_key_update */
    method HandleKeyUpdate(m: seq<Byte>) returns (ret: Ret)
      requires |m| >= 4 && m[0] == KEY_UPDATE
      modifies this
      ensures (Contents(), ret) == OnMessage(old(Contents()), m, true)
    {
      if |m| - 4 != 1 || m[4] > 1 { return Error(DECODE_ERROR); }
      dec := Next(dec);
      if m[4] != 0 { needsKeyUpdate := true; }
      ret := Done;
    }

    /** handle_input on a complete protected record. */
    method Receive(r: Sealed) returns (res: Received)
      modifies this
      ensures (Contents(), res) == ReceiveSpec(old(Contents()), maxBuffer, r)
    {
      hide OnHandshake;
      if r.under != dec { return Failure(BAD_RECORD_MAC); }
      dec := dec.(seqno := dec.seqno + 1);
      var inner := StripPadding(r.inner);
      if inner.None? { return Failure(UNEXPECTED_MESSAGE); }
      var (contentType, content) := inner.value;
      if mess.Some? || contentType == HANDSHAKE {
        var h := OnHandshake(OnMessage, maxBuffer, Contents(), mess, contentType, content);
        HandshakeKeepsTickets(maxBuffer, Contents(), mess, contentType, content);
        dec, needsKeyUpdate, enc, keyUpdateSendRequest, mess := h.st.dec, h.st.needs, h.st.enc, h.st.request, h.mess;
        return FromRet(h.ret);
      }
      return if contentType == APPDATA then Data(content) else Failure(CLOSED);
    }

    /** The loop that skips the padding. */
    method StripPadding(inner: seq<Byte>) returns (r: Option<(Byte, seq<Byte>)>)
      ensures r == Unpad(inner)
    {
      var n := |inner|;
      assert inner[..n] == inner;
      while n != 0 && inner[n - 1] == 0
        invariant 0 <= n <= |inner| && Unpad(inner[..n]) == Unpad(inner)
      {
        assert inner[..n][..n - 1] == inner[..n - 1];
        n := n - 1;
      }
      if n == 0 { return None; }
      assert inner[..n][..n - 1] == inner[..n - 1];
      r := Some((inner[n - 1], inner[..n - 1]));
    }
  }

  // ----- two endpoints ----------------------------------------------------------------------------------------------

  /** One side: its state, the records on their way to it, what its application has sent and got,
      the protections it has sealed with, the updates it was told to request and has requested. */
  datatype Peer = Peer(
    st: State, inbox: seq<Sealed>, sent: seq<Byte>, got: seq<Byte>,
    used: seq<Protection>, asked: nat, requests: nat, failed: bool)

  datatype Duplex = Duplex(me: Peer, other: Peer)

  datatype Action = Send(data: seq<Byte>) | Update(request: bool) | Deliver

  function Keys(out: seq<Sealed>): (ks: seq<Protection>)
    ensures |ks| == |out| && forall i :: 0 <= i < |out| ==> ks[i] == out[i].under
  {
    seq(|out|, i requires 0 <= i < |out| => out[i].under)
  }

  /** Whether the sealed record is a key update that asks for one in return. */
  predicate Asks(r: Sealed) {
    r.inner == KeyUpdateMessage(true) + [HANDSHAKE]
  }

  function CountAsks(out: seq<Sealed>): (n: nat) {
    if out == [] then 0 else (if Asks(out[0]) then 1 else 0) + CountAsks(out[1..])
  }

  function Flip(d: Duplex): (r: Duplex) {
    Duplex(d.other, d.me)
  }

  /** An action of the first side.  max is its message buffer limit, which is irrelevant here. */
  function Act(d: Duplex, max: nat, action: Action): (r: Duplex) {
    var me := d.me;
    match action
    case Send(data) =>
      var (st, out) := SendSpec(me.st, data);
      Duplex(me.(st := st, sent := me.sent + data, used := me.used + Keys(out),
        requests := me.requests + CountAsks(out)),
             d.other.(inbox := d.other.inbox + out))
    case Update(request) =>
      d.(me := me.(st := me.st.(needs := true, request := request), asked := me.asked + if request then 1 else 0))
    case Deliver =>
      if me.inbox == [] then d
      else
        var (st, res) := ReceiveSpec(me.st, max, me.inbox[0]);
        d.(me := me.(st := st, inbox := me.inbox[1..], got := me.got + (if res.Data? then res.bytes else []),
                     failed := me.failed || res.Failure?))
  }

  function StepOf(d: Duplex, first: bool, max: nat, action: Action): (r: Duplex) {
    if first then Act(d, max, action) else Flip(Act(Flip(d), max, action))
  }

  /** Any interleaving of sends, updates and deliveries on both sides. */
  function RunOf(d: Duplex, max: nat, actions: seq<(bool, Action)>): (r: Duplex)
    decreases |actions|
  {
    if actions == [] then d else RunOf(StepOf(d, actions[0].0, max, actions[0].1), max, actions[1..])
  }

  function Start(enc: Protection, dec: Protection, tickets: Tickets): (p: Peer) {
    Peer(State(enc, dec, false, false, None, tickets), [], [], [], [], 0, 0, false)
  }

  const CLIENT := Protection(Initial(true), 0)
  const SERVER := Protection(Initial(false), 0)

  /** Sealed messages, one a record. */
  function SealedMessages(p: Protection, messages: seq<seq<Byte>>): (out: seq<Sealed>)
    ensures |out| == |messages|
  {
    seq(|messages|, i requires 0 <= i < |messages| => Sealed(After(p, i), messages[i] + [HANDSHAKE]))
  }

  /** The end of the handshake: the server, which is the other side, has already sent tickets. */
  function Established(tickets: seq<seq<Byte>>, onTicket: seq<Byte> -> Ret): (d: Duplex) {
    var out := SealedMessages(SERVER, tickets);
    Duplex(Start(CLIENT, SERVER, Some(onTicket)).(inbox := out),
           Start(After(SERVER, |out|), CLIENT, None).(used := Keys(out)))
  }

  /** Messages that the client takes as tickets. */
  ghost predicate GoodTickets(tickets: seq<seq<Byte>>, onTicket: seq<Byte> -> Ret) {
    forall i :: 0 <= i < |tickets| ==> IsTicketMessage(Some(onTicket), tickets[i])
  }

  // ----- what every step keeps ---------------------------------------------------------------------------------------

  ghost predicate IsData(r: Sealed, data: seq<Byte>) {
    r.inner == data + [APPDATA]
  }

  ghost predicate IsUpdate(r: Sealed) {
    exists b :: r.inner == KeyUpdateMessage(b) + [HANDSHAKE]
  }

  ghost predicate IsTicketMessage(t: Tickets, m: seq<Byte>) {
    && HasMessage(m) && MessageLength(m) == |m| && m[0] == NEW_SESSION_TICKET
    && t.Some? && t.value(m[4..]) == Done
  }

  ghost predicate IsTicket(t: Tickets, r: Sealed) {
    exists m :: IsTicketMessage(t, m) && r.inner == m + [HANDSHAKE]
  }

  /** The channel, received from dec on, matches number for number, ends at enc and carries data. */
  ghost predicate Matches(t: Tickets, dec: Protection, channel: seq<Sealed>, enc: Protection, data: seq<Byte>)
    decreases channel
  {
    if channel == [] then dec == enc && data == []
    else
      var r := channel[0];
      && r.under == dec
      && if IsUpdate(r) then Matches(t, Next(dec), channel[1..], enc, data)
         else if IsTicket(t, r) then Matches(t, After(dec, 1), channel[1..], enc, data)
         else exists n :: 0 <= n <= |data| && IsData(r, data[..n])
                          && Matches(t, After(dec, 1), channel[1..], enc, data[n..])
  }

  ghost predicate Before(p: Protection, q: Protection) {
    Generation(p.secret) < Generation(q.secret) || (p.secret == q.secret && p.seqno < q.seqno)
  }

  /** The protections used so far, in order, all of them before the current one. */
  ghost predicate Fresh(used: seq<Protection>, enc: Protection) {
    && (forall i, j :: 0 <= i < j < |used| ==> Before(used[i], used[j]))
    && (forall i :: 0 <= i < |used| ==> Before(used[i], enc))
  }

  function Root(s: Secret): (fromClient: bool) {
    match s
    case Initial(b) => b
    case Updated(t) => Root(t)
  }

  /** From sender to receiver. */
  ghost predicate Half(s: Peer, r: Peer, fromClient: bool) {
    && r.got <= s.sent
    && Matches(r.st.tickets, r.st.dec, r.inbox, s.st.enc, s.sent[|r.got|..])
    && Fresh(s.used, s.st.enc)
    && Root(s.st.enc.secret) == fromClient && (forall i :: 0 <= i < |s.used| ==> Root(s.used[i].secret) == fromClient)
    && s.requests + (if s.st.needs && s.st.request then 1 else 0) <= s.asked && (s.st.request ==> s.st.needs)
    && !r.failed && r.st.mess.None?
  }

  ghost predicate Good(d: Duplex, client: bool) {
    Half(d.me, d.other, client) && Half(d.other, d.me, !client)
  }

  // ----- proofs --------------------------------------------------------------------------------------------------

  lemma {:induction false} MatchesConcat(t: Tickets, dec: Protection, c: seq<Sealed>, mid: Protection, data: seq<Byte>,
                                         out: seq<Sealed>, enc: Protection, more: seq<Byte>)
    requires Matches(t, dec, c, mid, data) && Matches(t, mid, out, enc, more)
    ensures Matches(t, dec, c + out, enc, data + more)
    decreases |c|
  {
    if c == [] {
      assert c + out == out && data + more == more;
    } else {
      var r := c[0];
      assert (c + out)[0] == r && (c + out)[1..] == c[1..] + out;
      if IsUpdate(r) {
        MatchesConcat(t, Next(dec), c[1..], mid, data, out, enc, more);
      } else if IsTicket(t, r) {
        MatchesConcat(t, After(dec, 1), c[1..], mid, data, out, enc, more);
      } else {
        var n :| 0 <= n <= |data| && IsData(r, data[..n]) && Matches(t, After(dec, 1), c[1..], mid, data[n..]);
        MatchesConcat(t, After(dec, 1), c[1..], mid, data[n..], out, enc, more);
        assert (data + more)[..n] == data[..n] && (data + more)[n..] == data[n..] + more;
      }
    }
  }

  lemma DataIsData(t: Tickets, r: Sealed, data: seq<Byte>)
    requires IsData(r, data)
    ensures !IsUpdate(r) && !IsTicket(t, r)
  {
    assert r.inner[|r.inner| - 1] == APPDATA;
  }

  lemma {:induction false} RecordsMatch(t: Tickets, p: Protection, data: seq<Byte>)
    ensures var out := Records(p, APPDATA, data); Matches(t, p, out, After(p, |out|), data)
    decreases |data|
  {
    if data != [] {
      var n := if |data| > MAX_PLAINTEXT then MAX_PLAINTEXT else |data|;
      var out := Records(p, APPDATA, data);
      RecordsMatch(t, After(p, 1), data[n..]);
      assert out[1..] == Records(After(p, 1), APPDATA, data[n..]);
      assert After(After(p, 1), |out[1..]|) == After(p, |out|);
      DataIsData(t, out[0], data[..n]);
    }
  }

  lemma UpdateMatches(t: Tickets, p: Protection, request: bool)
    ensures Matches(t, p, [Sealed(p, KeyUpdateMessage(request) + [HANDSHAKE])], Next(p), [])
  {
    var r := Sealed(p, KeyUpdateMessage(request) + [HANDSHAKE]);
    assert IsUpdate(r);
    assert [r][1..] == [];
  }

  /** Whatever is sent is matched by a receiver that was matched before. */
  lemma SendMatches(t: Tickets, st: State, data: seq<Byte>)
    ensures var (st', out) := SendSpec(st, data); Matches(t, st.enc, out, st'.enc, data)
  {
    var due := st.needs || st.enc.seqno >= LIMIT;
    if due {
      UpdateMatches(t, st.enc, st.request);
      RecordsMatch(t, Next(st.enc), data);
      var body := Records(Next(st.enc), APPDATA, data);
      MatchesConcat(t, st.enc, [Sealed(st.enc, KeyUpdateMessage(st.request) + [HANDSHAKE])], Next(st.enc), [],
                    body, After(Next(st.enc), |body|), data);
      assert [] + data == data;
    } else {
      RecordsMatch(t, st.enc, data);
      assert [] + Records(st.enc, APPDATA, data) == Records(st.enc, APPDATA, data);
    }
  }

  /** A key update is opened, taken by the message layer as one message, and moves the key on. */
  lemma ReceiveUpdate(st: State, max: nat, r: Sealed, b: bool)
    requires r == Sealed(st.dec, KeyUpdateMessage(b) + [HANDSHAKE]) && st.mess.None?
    ensures ReceiveSpec(st, max, r) == (st.(dec := Next(st.dec), needs := st.needs || b), Quiet)
  {
    hide OnHandshake, Unpad;
    var m := KeyUpdateMessage(b);
    UnpadPadded(m, HANDSHAKE, []);
    assert m + [HANDSHAKE] + [] == m + [HANDSHAKE];
    WholeMessage(OnMessage, max, st.(dec := After(st.dec, 1)), m);
  }

  /** A ticket is opened and taken as one message, too. */
  lemma ReceiveTicket(st: State, max: nat, r: Sealed, m: seq<Byte>)
    requires r == Sealed(st.dec, m + [HANDSHAKE]) && st.mess.None? && IsTicketMessage(st.tickets, m)
    ensures ReceiveSpec(st, max, r) == (st.(dec := After(st.dec, 1)), Quiet)
  {
    hide OnHandshake, Unpad, MessageLength;
    UnpadPadded(m, HANDSHAKE, []);
    assert m + [HANDSHAKE] + [] == m + [HANDSHAKE];
    WholeMessage(OnMessage, max, st.(dec := After(st.dec, 1)), m);
  }

  lemma ReceiveData(st: State, max: nat, r: Sealed, data: seq<Byte>)
    requires r.under == st.dec && IsData(r, data) && st.mess.None?
    ensures ReceiveSpec(st, max, r) == (st.(dec := After(st.dec, 1)), Data(data))
  {
    hide OnHandshake;
    UnpadPadded(data, APPDATA, []);
    assert data + [APPDATA] + [] == data + [APPDATA];
  }

  /** Receiving from a matched channel never fails and keeps it matched. */
  lemma ReceiveMatches(st: State, max: nat, c: seq<Sealed>, enc: Protection, data: seq<Byte>)
    requires c != [] && st.mess.None? && Matches(st.tickets, st.dec, c, enc, data)
    ensures var (st', res) := ReceiveSpec(st, max, c[0]);
            && !res.Failure? && st'.mess.None? && st'.enc == st.enc && st'.request == st.request
            && (st.needs ==> st'.needs) && st'.tickets == st.tickets
            && var bytes := if res.Data? then res.bytes else [];
               bytes <= data && Matches(st.tickets, st'.dec, c[1..], enc, data[|bytes|..])
  {
    hide ReceiveSpec;
    if IsUpdate(c[0]) {
      var b :| c[0].inner == KeyUpdateMessage(b) + [HANDSHAKE];
      ReceiveUpdate(st, max, c[0], b);
      assert data[0..] == data;
    } else if IsTicket(st.tickets, c[0]) {
      var m :| IsTicketMessage(st.tickets, m) && c[0].inner == m + [HANDSHAKE];
      ReceiveTicket(st, max, c[0], m);
      assert data[0..] == data;
    } else {
      var n :| 0 <= n <= |data| && IsData(c[0], data[..n])
        && Matches(st.tickets, After(st.dec, 1), c[1..], enc, data[n..]);
      ReceiveData(st, max, c[0], data[..n]);
    }
  }

  /** Consecutive numbers under one secret. */
  lemma {:induction false} RecordKeys(p: Protection, contentType: Byte, data: seq<Byte>)
    ensures var out := Records(p, contentType, data); forall i :: 0 <= i < |out| ==> out[i].under == After(p, i)
    decreases |data|
  {
    if data != [] {
      var n := if |data| > MAX_PLAINTEXT then MAX_PLAINTEXT else |data|;
      RecordKeys(After(p, 1), contentType, data[n..]);
      var out := Records(p, contentType, data);
      forall i | 0 < i < |out|
        ensures out[i].under == After(p, i)
      {
        assert out[i] == Records(After(p, 1), contentType, data[n..])[i - 1];
      }
    }
  }

  lemma FreshMore(used: seq<Protection>, enc: Protection, n: nat, ks: seq<Protection>)
    requires Fresh(used, enc) && |ks| == n && forall i :: 0 <= i < n ==> ks[i] == After(enc, i)
    ensures Fresh(used + ks, After(enc, n))
  {}

  lemma FreshUpdate(used: seq<Protection>, enc: Protection)
    requires Fresh(used, enc)
    ensures Fresh(used + [enc], Next(enc))
  {}

  /** Sending never reuses a secret and number, update or not. */
  lemma SendIsFresh(st: State, data: seq<Byte>, used: seq<Protection>)
    requires Fresh(used, st.enc)
    ensures var (st', out) := SendSpec(st, data); Fresh(used + Keys(out), st'.enc)
    ensures var (st', out) := SendSpec(st, data);
            && Root(st'.enc.secret) == Root(st.enc.secret)
            && forall i :: 0 <= i < |out| ==> Root(out[i].under.secret) == Root(st.enc.secret)
  {
    hide Fresh, Records, KeyUpdateMessage;
    var due := st.needs || st.enc.seqno >= LIMIT;
    var enc := if due then Next(st.enc) else st.enc;
    var body := Records(enc, APPDATA, data);
    RecordKeys(enc, APPDATA, data);
    var (st', out) := SendSpec(st, data);
    if due {
      FreshUpdate(used, st.enc);
      FreshMore(used + [st.enc], enc, |body|, Keys(body));
      assert used + Keys(out) == used + [st.enc] + Keys(body);
    } else {
      FreshMore(used, enc, |body|, Keys(body));
      assert Keys(out) == Keys(body);
    }
  }

  lemma {:induction false} DataAsksNothing(p: Protection, data: seq<Byte>)
    ensures CountAsks(Records(p, APPDATA, data)) == 0
    decreases |data|
  {
    if data != [] {
      var n := if |data| > MAX_PLAINTEXT then MAX_PLAINTEXT else |data|;
      var out := Records(p, APPDATA, data);
      DataAsksNothing(After(p, 1), data[n..]);
      assert out[1..] == Records(After(p, 1), APPDATA, data[n..]);
      assert out[0].inner[|out[0].inner| - 1] == APPDATA;
    }
  }

  lemma SendAsks(st: State, data: seq<Byte>)
    ensures CountAsks(SendSpec(st, data).1) <= if st.request then 1 else 0
  {
    hide Records;
    var due := st.needs || st.enc.seqno >= LIMIT;
    var out := SendSpec(st, data).1;
    DataAsksNothing(if due then Next(st.enc) else st.enc, data);
    if due {
      var r := Sealed(st.enc, KeyUpdateMessage(st.request) + [HANDSHAKE]);
      assert out[0] == r && out[1..] == Records(Next(st.enc), APPDATA, data);
      assert r.inner[4] == (if st.request then 1 else 0);
    } else {
      assert out == Records(st.enc, APPDATA, data);
    }
  }

  lemma ActKeepsGood(d: Duplex, client: bool, max: nat, action: Action)
    requires Good(d, client)
    ensures Good(Act(d, max, action), client)
  {
    hide Matches, Fresh, ReceiveSpec, Root, SendSpec, CountAsks;
    match action
    case Send(data) => SendKeepsGood(d, client, max, data);
    case Update(request) =>
    case Deliver => if d.me.inbox != [] { DeliverKeepsGood(d, client, max); }
  }

  lemma SendKeepsGood(d: Duplex, client: bool, max: nat, data: seq<Byte>)
    requires Good(d, client)
    ensures Good(Act(d, max, Send(data)), client)
  {
    hide Matches, Fresh, Root, CountAsks, Records, KeyUpdateMessage;
    var me, other := d.me, d.other;
    var (st, out) := SendSpec(me.st, data);
    SendMatches(other.st.tickets, me.st, data);
    SendIsFresh(me.st, data, me.used);
    SendAsks(me.st, data);
    MatchesConcat(other.st.tickets, other.st.dec, other.inbox, me.st.enc, me.sent[|other.got|..], out, st.enc, data);
    assert (me.sent + data)[|other.got|..] == me.sent[|other.got|..] + data;
  }

  lemma DeliverKeepsGood(d: Duplex, client: bool, max: nat)
    requires Good(d, client) && d.me.inbox != []
    ensures Good(Act(d, max, Deliver), client)
  {
    hide Matches, Fresh, ReceiveSpec, Root;
    var me, other := d.me, d.other;
    ReceiveMatches(me.st, max, me.inbox, other.st.enc, other.sent[|me.got|..]);
    var (st, res) := ReceiveSpec(me.st, max, me.inbox[0]);
    var bytes := if res.Data? then res.bytes else [];
    assert other.sent[|me.got|..][|bytes|..] == other.sent[|me.got + bytes|..];
    assert other.sent[..|me.got + bytes|] == me.got + bytes;
  }

  lemma {:induction false} RunKeepsGood(d: Duplex, max: nat, actions: seq<(bool, Action)>)
    requires Good(d, true)
    ensures Good(RunOf(d, max, actions), true)
    decreases |actions|
  {
    hide Half;
    if actions != [] {
      var (first, action) := actions[0];
      if first { ActKeepsGood(d, true, max, action); } else { ActKeepsGood(Flip(d), false, max, action); }
      RunKeepsGood(StepOf(d, first, max, action), max, actions[1..]);
    }
  }

  /** Over every run from the end of the handshake: no record is refused, what is delivered is a prefix
      of what was sent, and no secret is used twice with one number, in either direction or across. */
  lemma KeyUpdateSafety(tickets: seq<seq<Byte>>, onTicket: seq<Byte> -> Ret, max: nat, actions: seq<(bool, Action)>)
    requires GoodTickets(tickets, onTicket)
    ensures var d := RunOf(Established(tickets, onTicket), max, actions);
            && !d.me.failed && !d.other.failed
            && d.other.got <= d.me.sent && d.me.got <= d.other.sent
            && var all := d.me.used + d.other.used; forall i, j :: 0 <= i < j < |all| ==> all[i] != all[j]
  {
    hide RunOf, Matches;
    EstablishedIsGood(tickets, onTicket);
    RunKeepsGood(Established(tickets, onTicket), max, actions);
    var d := RunOf(Established(tickets, onTicket), max, actions);
    var a, b := d.me.used, d.other.used;
    assert Half(d.me, d.other, true) && Half(d.other, d.me, false);
    assert forall i :: 0 <= i < |a| ==> Root(a[i].secret);
    assert forall i :: 0 <= i < |b| ==> !Root(b[i].secret);
    assert forall i, j :: 0 <= i < j < |a| ==> Before(a[i], a[j]);
    assert forall i, j :: 0 <= i < j < |b| ==> Before(b[i], b[j]);
  }

  lemma {:induction false} TicketsMatch(t: Tickets, p: Protection, messages: seq<seq<Byte>>)
    requires forall i :: 0 <= i < |messages| ==> IsTicketMessage(t, messages[i])
    ensures Matches(t, p, SealedMessages(p, messages), After(p, |messages|), [])
    decreases |messages|
  {
    hide IsTicketMessage;
    var out := SealedMessages(p, messages);
    if messages != [] {
      TicketsMatch(t, After(p, 1), messages[1..]);
      assert out[1..] == SealedMessages(After(p, 1), messages[1..]);
      assert IsTicketMessage(t, messages[0]) && out[0].inner == messages[0] + [HANDSHAKE];
      TicketIsNotUpdate(t, out[0], messages[0]);
    }
  }

  lemma TicketIsNotUpdate(t: Tickets, r: Sealed, m: seq<Byte>)
    requires IsTicketMessage(t, m) && r.inner == m + [HANDSHAKE]
    ensures IsTicket(t, r) && !IsUpdate(r)
  {
    assert r.inner[0] == NEW_SESSION_TICKET;
  }

  lemma NothingSent()
    ensures Matches(None, CLIENT, [], CLIENT, []) && Fresh([], CLIENT) && Fresh([], SERVER)
  {}

  lemma EstablishedIsGood(tickets: seq<seq<Byte>>, onTicket: seq<Byte> -> Ret)
    requires GoodTickets(tickets, onTicket)
    ensures Good(Established(tickets, onTicket), true)
  {
    var out := SealedMessages(SERVER, tickets);
    NothingSent();
    TicketsMatch(Some(onTicket), SERVER, tickets);
    hide IsTicketMessage, Matches, Fresh;
    FreshMore([], SERVER, |out|, Keys(out));
    assert [] + Keys(out) == Keys(out);
  }

  /** Once everything in flight is delivered, both directions agree on key and number and all data
      has arrived. */
  lemma QuiescentAgreement(tickets: seq<seq<Byte>>, onTicket: seq<Byte> -> Ret, max: nat, actions: seq<(bool, Action)>)
    requires GoodTickets(tickets, onTicket)
    requires var d := RunOf(Established(tickets, onTicket), max, actions); d.me.inbox == [] && d.other.inbox == []
    ensures var d := RunOf(Established(tickets, onTicket), max, actions);
            && d.me.st.enc == d.other.st.dec && d.other.st.enc == d.me.st.dec
            && d.other.got == d.me.sent && d.me.got == d.other.sent
  {
    hide RunOf;
    EstablishedIsGood(tickets, onTicket);
    RunKeepsGood(Established(tickets, onTicket), max, actions);
    var d := RunOf(Established(tickets, onTicket), max, actions);
    assert Half(d.me, d.other, true) && Half(d.other, d.me, false);
  }

  /** Updates do not echo for ever: an update that asks for one in return goes out only because the
      application asked for it. */
  lemma RequestsAreAskedFor(tickets: seq<seq<Byte>>, onTicket: seq<Byte> -> Ret, max: nat, actions: seq<(bool, Action)>)
    requires GoodTickets(tickets, onTicket)
    ensures var d := RunOf(Established(tickets, onTicket), max, actions);
            d.me.requests <= d.me.asked && d.other.requests <= d.other.asked
  {
    hide RunOf, Matches;
    EstablishedIsGood(tickets, onTicket);
    RunKeepsGood(Established(tickets, onTicket), max, actions);
  }

  /** The number stays near the limit: it exceeds it by no more than the records of one send. */
  lemma SendBoundsNumber(st: State, data: seq<Byte>)
    ensures var (st', out) := SendSpec(st, data); st'.enc.seqno < LIMIT + (|data| + MAX_PLAINTEXT - 1) / MAX_PLAINTEXT
  {
    RecordCount(st.enc, APPDATA, data);
    RecordCount(Next(st.enc), APPDATA, data);
  }

  lemma {:induction false} RecordCount(p: Protection, contentType: Byte, data: seq<Byte>)
    ensures |Records(p, contentType, data)| == (|data| + MAX_PLAINTEXT - 1) / MAX_PLAINTEXT
    decreases |data|
  {
    if data != [] {
      var n := if |data| > MAX_PLAINTEXT then MAX_PLAINTEXT else |data|;
      RecordCount(After(p, 1), contentType, data[n..]);
    }
  }
}
