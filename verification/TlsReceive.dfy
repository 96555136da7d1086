/** The receiving side of lib/picotls.c below the handshake: records out of arbitrary input chunks,
    handshake messages out of arbitrary records. */
module TlsReceive {
  import opened Common

  /** 0, PTLS_ERROR_IN_PROGRESS, or any other code. */
  datatype Ret = Done | InProgress | Error(code: int)

  const DECODE_ERROR := 50
  const HANDSHAKE_FAILURE := 40

  const HANDSHAKE: Byte := 22
  const APPDATA: Byte := 23
  const MAX_PLAINTEXT := 16384
  const MAX_ENCRYPTED := 16384 + 256

  // ----- records ---------------------------------------------------------------------------------------------

  datatype Record = Record(contentType: Byte, version: nat, fragment: seq<Byte>)

  datatype Parsed = Complete(record: Record) | Partial | Malformed

  function Be16(s: seq<Byte>): (n: nat)
    requires |s| == 2
    ensures n < 0x1_0000
  {
    var hi: nat, lo: nat := s[0], s[1];
    256 * hi + lo
  }

  function RecordLength(header: seq<Byte>): (n: nat)
    requires |header| >= 5
  {
    Be16(header[3..5])
  }

  /** parse_record_header */
  predicate HeaderFits(header: seq<Byte>)
    requires |header| >= 5
  {
    RecordLength(header) <= if header[0] == APPDATA then MAX_ENCRYPTED else MAX_PLAINTEXT
  }

  /** The first record of a byte string, if it is all there. */
  function FirstRecord(s: seq<Byte>): (p: Parsed) {
    if |s| < 5 then Partial
    else if !HeaderFits(s) then Malformed
    else if |s| < 5 + RecordLength(s) then Partial
    else Complete(Record(s[0], Be16(s[1..3]), s[5..5 + RecordLength(s)]))
  }

  /** Nothing that follows changes what the first record is. */
  lemma FirstRecordStable(s: seq<Byte>, t: seq<Byte>)
    ensures !FirstRecord(s).Partial? ==> FirstRecord(s + t) == FirstRecord(s)
  {
    if |s| >= 5 {
      assert (s + t)[1..3] == s[1..3] && (s + t)[3..5] == s[3..5];
      if |s| >= 5 + RecordLength(s) {
        assert (s + t)[5..5 + RecordLength(s)] == s[5..5 + RecordLength(s)];
      }
    }
  }

  lemma SameHeader(s: seq<Byte>, n: nat)
    requires 5 <= n <= |s|
    ensures s[..n][0] == s[0] && s[..n][1..3] == s[1..3] && s[..n][3..5] == s[3..5] && s[..n][5..] == s[5..n]
    ensures HeaderFits(s[..n]) == HeaderFits(s) && RecordLength(s[..n]) == RecordLength(s)
  {}

  lemma PartialBound(s: seq<Byte>)
    requires FirstRecord(s).Partial?
    ensures |s| < 5 || (HeaderFits(s) && |s| < 5 + RecordLength(s))
  {}

  lemma TooShort(s: seq<Byte>)
    requires |s| < 5
    ensures FirstRecord(s) == Partial
  {}

  lemma BadHeader(s: seq<Byte>)
    requires |s| >= 5 && !HeaderFits(s)
    ensures FirstRecord(s) == Malformed
  {}

  /** The record as seen in a buffer that holds it, or all there is of it. */
  lemma RecordOfPrefix(s: seq<Byte>, n: nat)
    requires 5 <= n <= |s| && HeaderFits(s)
    requires n == 5 + RecordLength(s) || (n == |s| && n < 5 + RecordLength(s))
    ensures var t := s[..n];
            && RecordLength(t) == RecordLength(s)
            && FirstRecord(s) == if n == 5 + RecordLength(t) then Complete(Record(t[0], Be16(t[1..3]), t[5..]))
               else Partial
  {
    SameHeader(s, n);
  }

  function Bytes16(n: nat): (s: seq<Byte>)
    requires n < 0x1_0000
  {
    [n / 256, n % 256]
  }

  /** The bytes of a record. */
  function Wire(r: Record): (s: seq<Byte>)
    requires Fits(r)
  {
    [r.contentType] + Bytes16(r.version) + Bytes16(|r.fragment|) + r.fragment
  }

  predicate Fits(r: Record) {
    r.version < 0x1_0000 && |r.fragment| <= if r.contentType == APPDATA then MAX_ENCRYPTED else MAX_PLAINTEXT
  }

  /** A complete record is exactly its bytes: parsing is the inverse of writing. */
  lemma FirstIsWire(s: seq<Byte>, r: Record)
    ensures FirstRecord(s) == Complete(r) <==> Fits(r) && Wire(r) <= s
  {
    if FirstRecord(s) == Complete(r) {
      var n := 5 + RecordLength(s);
      assert Wire(r) == s[..n];
    }
    if Fits(r) && Wire(r) <= s {
      var w := Wire(r);
      assert s[0] == w[0] && s[1] == w[1] && s[2] == w[2] && s[3] == w[3] && s[4] == w[4];
      assert s[..|w|] == w;
      assert s[5..5 + |r.fragment|] == w[5..];
    }
  }

  // ----- handshake messages ----------------------------------------------------------------------------------

  /** The length of the message that s begins with: four header bytes and a 24-bit body length. */
  function MessageLength(s: seq<Byte>): (n: nat)
    requires |s| >= 4
    ensures n >= 4
  {
    var a: nat, b: nat, c: nat := s[1], s[2], s[3];
    4 + 0x1_0000 * a + 0x100 * b + c
  }

  predicate HasMessage(s: seq<Byte>) {
    |s| >= 4 && |s| >= MessageLength(s)
  }

  /** One-shot parsing: all complete messages, and what is left. */
  function SplitMessages(s: seq<Byte>): (r: (seq<seq<Byte>>, seq<Byte>))
    ensures !HasMessage(r.1)
    ensures s == Joined(r.0) + r.1
    decreases |s|
  {
    if !HasMessage(s) then ([], s)
    else
      var n := MessageLength(s);
      var (messages, rest) := SplitMessages(s[n..]);
      assert s == s[..n] + s[n..];
      ([s[..n]] + messages, rest)
  }

  function Joined(parts: seq<seq<Byte>>): (s: seq<Byte>) {
    if parts == [] then [] else parts[0] + Joined(parts[1..])
  }

  lemma HasMessageStable(s: seq<Byte>, t: seq<Byte>)
    requires HasMessage(s)
    ensures HasMessage(s + t) && MessageLength(s + t) == MessageLength(s)
    ensures (s + t)[..MessageLength(s)] == s[..MessageLength(s)]
    ensures (s + t)[MessageLength(s)..] == s[MessageLength(s)..] + t
  {}

  /** The messages of a stream do not depend on where it is cut. */
  lemma {:induction false} SplitMessagesAppend(s: seq<Byte>, t: seq<Byte>)
    ensures var (ms, rest) := SplitMessages(s); var (ms', rest') := SplitMessages(rest + t);
            SplitMessages(s + t) == (ms + ms', rest')
    decreases |s|
  {
    if HasMessage(s) {
      var n := MessageLength(s);
      HasMessageStable(s, t);
      SplitMessagesAppend(s[n..], t);
      var (ms, rest) := SplitMessages(s[n..]);
      var (ms', rest') := SplitMessages(rest + t);
      assert ([s[..n]] + ms) + ms' == [s[..n]] + (ms + ms');
    } else {
      assert [] + SplitMessages(s + t).0 == SplitMessages(s + t).0;
    }
  }

  /** What the handshake does with one message: new state and return code.  The flag says whether
      the message ends its record. */
  type Callback<!S> = (S, seq<Byte>, bool) -> (S, Ret)

  datatype Delivery<S> = Delivery(st: S, rest: seq<Byte>, ret: Ret)

  /** Handing the messages of s to the callback one by one, up to the first failure. */
  function Deliver<S>(cb: Callback<S>, st: S, s: seq<Byte>, ret: Ret): (d: Delivery<S>)
    requires !ret.Error?
    ensures !d.ret.Error? ==> !HasMessage(d.rest)
    decreases |s|
  {
    if !HasMessage(s) then Delivery(st, s, ret)
    else
      var n := MessageLength(s);
      var (st', ret') := cb(st, s[..n], |s| == n);
      if ret'.Error? then Delivery(st', s, ret') else Deliver(cb, st', s[n..], ret')
  }

  /** message_buffer_is_overflow */
  predicate Overflow(max: nat, size: nat) {
    max != 0 && size > max
  }

  function Held(buffer: Option<seq<Byte>>): (s: seq<Byte>) {
    if buffer.None? then [] else buffer.value
  }

  /** State, message buffer and return code after a handshake record. */
  datatype Handled<S> = Handled(st: S, mess: Option<seq<Byte>>, ret: Ret)

  /** handle_handshake_record on values. */
  function OnHandshake<S>(cb: Callback<S>, max: nat, st: S, mess: Option<seq<Byte>>, contentType: Byte,
                          fragment: seq<Byte>): (h: Handled<S>)
  {
    var s := Held(mess) + fragment;
    if contentType != HANDSHAKE then Handled(st, mess, Error(DECODE_ERROR))
    else if mess.Some? && Overflow(max, |s|) then Handled(st, mess, Error(HANDSHAKE_FAILURE))
    else
      var d := Deliver(cb, st, s, InProgress);
      if d.ret.Error? then Handled(d.st, None, d.ret)
      else if d.rest == [] then Handled(d.st, None, d.ret)
      else if Overflow(max, |d.rest|) then
        Handled(d.st, if mess.None? then None else Some(s), Error(HANDSHAKE_FAILURE))
      else Handled(d.st, Some(d.rest), InProgress)
  }

  /** A record that is exactly one message, with nothing pending. */
  lemma WholeMessage<S(!new)>(cb: Callback<S>, max: nat, st: S, m: seq<Byte>)
    requires HasMessage(m) && MessageLength(m) == |m|
    ensures var (st', ret) := cb(st, m, true); OnHandshake(cb, max, st, None, HANDSHAKE, m) == Handled(st', None, ret)
  {
    hide MessageLength;
    assert Held(None) + m == m && m[..|m|] == m && m[|m|..] == [];
    var (st', ret) := cb(st, m, true);
    if !ret.Error? { assert Deliver(cb, st', [], ret) == Delivery(st', [], ret); }
  }

  // ----- what the callback is given, and in which order -----------------------------------------------------

  /** Messages, each with its flag. */
  type Log = seq<(seq<Byte>, bool)>

  /** The flag is set on the last message of a record and only if nothing follows it. */
  function Marked(ms: seq<seq<Byte>>, isEnd: bool): (log: Log) {
    seq(|ms|, i requires 0 <= i < |ms| => (ms[i], i == |ms| - 1 && isEnd))
  }

  function Code(ret: Ret): (c: Option<int>) {
    if ret.Error? then Some(ret.code) else None
  }

  datatype Poured<S> = Poured(st: S, error: Option<int>)

  /** The messages one after the other, up to the first error. */
  function Pour<S>(cb: Callback<S>, st: S, log: Log): (p: Poured<S>) {
    if log == [] then Poured(st, None)
    else
      var (st', ret) := cb(st, log[0].0, log[0].1);
      if ret.Error? then Poured(st', Some(ret.code)) else Pour(cb, st', log[1..])
  }

  lemma {:induction false} PourAppend<S(!new)>(cb: Callback<S>, st: S, a: Log, b: Log)
    ensures var p := Pour(cb, st, a); Pour(cb, st, a + b) == if p.error.Some? then p else Pour(cb, p.st, b)
  {
    if a == [] {
      assert a + b == b;
    } else {
      assert (a + b)[1..] == a[1..] + b;
      var (st', ret) := cb(st, a[0].0, a[0].1);
      if !ret.Error? { PourAppend(cb, st', a[1..], b); }
    }
  }

  /** The loop over one record hands out the marked messages of one-shot parsing. */
  lemma {:induction false} DeliverIsPour<S(!new)>(cb: Callback<S>, st: S, s: seq<Byte>, ret: Ret)
    requires !ret.Error?
    ensures var (ms, rest) := SplitMessages(s); var d := Deliver(cb, st, s, ret);
            var p := Pour(cb, st, Marked(ms, rest == []));
            d.st == p.st && Code(d.ret) == p.error && (p.error.None? ==> d.rest == rest)
    decreases |s|
  {
    if HasMessage(s) {
      var n := MessageLength(s);
      var (ms', rest) := SplitMessages(s[n..]);
      var log := Marked([s[..n]] + ms', rest == []);
      assert log[1..] == Marked(ms', rest == []);
      EmptyTail(s[n..]);
      assert log[0] == (s[..n], |s| == n);
      var (st', ret') := cb(st, s[..n], |s| == n);
      if !ret'.Error? { DeliverIsPour(cb, st', s[n..], ret'); }
    }
  }

  // ----- records cut differently ------------------------------------------------------------------------------

  /** All fragments one after the other, up to the first error. */
  ghost function Refragmented<S>(cb: Callback<S>, max: nat, st: S, mess: Option<seq<Byte>>, fragments: seq<seq<Byte>>,
                                 ret: Ret): (h: Handled<S>)
    decreases |fragments|
  {
    if fragments == [] then Handled(st, mess, ret)
    else
      var h := OnHandshake(cb, max, st, mess, HANDSHAKE, fragments[0]);
      if h.ret.Error? then h else Refragmented(cb, max, h.st, h.mess, fragments[1..], h.ret)
  }

  /** The messages of a cut with the flags they get. */
  ghost function Flagged(held: seq<Byte>, fragments: seq<seq<Byte>>): (log: Log)
    decreases |fragments|
  {
    if fragments == [] then []
    else
      var (ms, rest) := SplitMessages(held + fragments[0]);
      Marked(ms, rest == []) + Flagged(rest, fragments[1..])
  }

  /** The cut never exceeds the buffer limit. */
  ghost predicate Room(max: nat, mess: Option<seq<Byte>>, fragments: seq<seq<Byte>>)
    decreases |fragments|
  {
    fragments == []
    || var s := Held(mess) + fragments[0]; var rest := SplitMessages(s).1;
       && (mess.Some? ==> !Overflow(max, |s|)) && !Overflow(max, |rest|)
       && Room(max, if rest == [] then None else Some(rest), fragments[1..])
  }

  /** One record, where there is room: its marked messages, and the rest in the buffer. */
  lemma OnHandshakeIsPour<S(!new)>(cb: Callback<S>, max: nat, st: S, mess: Option<seq<Byte>>, fragment: seq<Byte>)
    requires var s := Held(mess) + fragment;
             (mess.Some? ==> !Overflow(max, |s|)) && !Overflow(max, |SplitMessages(s).1|)
    ensures var (ms, rest) := SplitMessages(Held(mess) + fragment); var p := Pour(cb, st, Marked(ms, rest == []));
            var h := OnHandshake(cb, max, st, mess, HANDSHAKE, fragment);
            && h.st == p.st && Code(h.ret) == p.error
            && (p.error.None? ==> h.mess == if rest == [] then None else Some(rest))
  {
    hide SplitMessages, Pour, Deliver;
    DeliverIsPour(cb, st, Held(mess) + fragment, InProgress);
  }

  /** Without room the record is refused, unless the callback refuses one of its messages before. */
  lemma OnHandshakeOverflows<S(!new)>(cb: Callback<S>, max: nat, st: S, mess: Option<seq<Byte>>, fragment: seq<Byte>)
    requires var s := Held(mess) + fragment; (mess.Some? && Overflow(max, |s|)) || Overflow(max, |SplitMessages(s).1|)
    ensures OnHandshake(cb, max, st, mess, HANDSHAKE, fragment).ret.Error?
  {
    hide SplitMessages, Pour, Deliver, Overflow;
    DeliverIsPour(cb, st, Held(mess) + fragment, InProgress);
    NotEmpty(max, SplitMessages(Held(mess) + fragment).1);
  }

  lemma NotEmpty(max: nat, s: seq<Byte>)
    ensures Overflow(max, |s|) ==> s != []
  {}

  /** For every callback, whatever it returns: a cut is what the callback makes of its marked messages, and the
      rest of one-shot parsing stays in the buffer. */
  lemma {:induction false} RefragmentedIsPour<S(!new)>(cb: Callback<S>, max: nat, st: S, mess: Option<seq<Byte>>,
                                                fragments: seq<seq<Byte>>, ret: Ret)
    requires !HasMessage(Held(mess)) && Room(max, mess, fragments) && !ret.Error?
    ensures var h := Refragmented(cb, max, st, mess, fragments, ret);
            var p := Pour(cb, st, Flagged(Held(mess), fragments));
            && h.st == p.st && Code(h.ret) == p.error
            && (p.error.None? ==> Held(h.mess) == SplitMessages(Held(mess) + Joined(fragments)).1)
    decreases |fragments|
  {
    hide HasMessage, OnHandshake, SplitMessages, Pour, Marked, Overflow;
    if fragments == [] {
      NothingMore(cb, st, Held(mess));
      assert Held(mess) + Joined(fragments) == Held(mess);
    } else {
      var s, t := Held(mess) + fragments[0], Joined(fragments[1..]);
      var (ms, rest) := SplitMessages(s);
      var h := OnHandshake(cb, max, st, mess, HANDSHAKE, fragments[0]);
      OnHandshakeIsPour(cb, max, st, mess, fragments[0]);
      PourAppend(cb, st, Marked(ms, rest == []), Flagged(rest, fragments[1..]));
      assert Held(mess) + Joined(fragments) == s + t;
      SplitMessagesAppend(s, t);
      if !h.ret.Error? { RefragmentedIsPour(cb, max, h.st, h.mess, fragments[1..], h.ret); }
    }
  }

  lemma NothingMore<S(!new)>(cb: Callback<S>, st: S, s: seq<Byte>)
    requires !HasMessage(s)
    ensures SplitMessages(s) == ([], s) && Pour(cb, st, []) == Poured(st, None)
  {}

  /** Two cuts that give the messages the same flags have the same outcome, for every callback. */
  lemma SameFlagsSameOutcome<S(!new)>(cb: Callback<S>, max: nat, st: S, mess: Option<seq<Byte>>, a: seq<seq<Byte>>,
                               b: seq<seq<Byte>>)
    requires !HasMessage(Held(mess)) && Room(max, mess, a) && Room(max, mess, b)
    requires Joined(a) == Joined(b) && Flagged(Held(mess), a) == Flagged(Held(mess), b)
    ensures var x, y := Refragmented(cb, max, st, mess, a, InProgress), Refragmented(cb, max, st, mess, b, InProgress);
            x.st == y.st && Code(x.ret) == Code(y.ret) && (!x.ret.Error? ==> Held(x.mess) == Held(y.mess))
  {
    hide HasMessage, Room, Refragmented, Flagged, SplitMessages, Pour;
    RefragmentedIsPour(cb, max, st, mess, a, InProgress);
    RefragmentedIsPour(cb, max, st, mess, b, InProgress);
  }

  ghost function Messages(log: Log): (ms: seq<seq<Byte>>) {
    seq(|log|, i requires 0 <= i < |log| => log[i].0)
  }

  /** But for the flags, every cut hands out the messages of one-shot parsing. */
  lemma {:induction false} FlaggedMessages(held: seq<Byte>, fragments: seq<seq<Byte>>)
    requires !HasMessage(held)
    ensures Messages(Flagged(held, fragments)) == SplitMessages(held + Joined(fragments)).0
    decreases |fragments|
  {
    hide HasMessage, SplitMessages, Marked, Messages;
    if fragments == [] {
      NoMessages(held);
      assert held + Joined(fragments) == held;
    } else {
      var s, t := held + fragments[0], Joined(fragments[1..]);
      var (ms, rest) := SplitMessages(s);
      FlaggedMessages(rest, fragments[1..]);
      assert held + Joined(fragments) == s + t;
      SplitMessagesAppend(s, t);
      MessagesJoin(ms, rest == [], Flagged(rest, fragments[1..]));
    }
  }

  lemma NoMessages(s: seq<Byte>)
    requires !HasMessage(s)
    ensures SplitMessages(s) == ([], s) && Messages([]) == []
  {}

  lemma MessagesJoin(ms: seq<seq<Byte>>, isEnd: bool, log: Log)
    ensures Messages(Marked(ms, isEnd) + log) == ms + Messages(log)
  {}

  /** A callback that does not look at the flag. */
  ghost predicate FlagBlind<S(!new)>(cb: Callback<S>) {
    forall st, m, e :: cb(st, m, e) == cb(st, m, false)
  }

  lemma Blind<S(!new)>(cb: Callback<S>, st: S, m: seq<Byte>, e: bool)
    requires FlagBlind(cb)
    ensures cb(st, m, e) == cb(st, m, false)
  {}

  lemma {:induction false} BlindPour<S(!new)>(cb: Callback<S>, st: S, a: Log, b: Log)
    requires FlagBlind(cb) && Messages(a) == Messages(b)
    ensures Pour(cb, st, a) == Pour(cb, st, b)
    decreases |a|
  {
    assert |Messages(a)| == |a| && |Messages(b)| == |b|;
    if a != [] {
      assert a[0].0 == Messages(a)[0] == Messages(b)[0] == b[0].0;
      assert Messages(a[1..]) == Messages(a)[1..] == Messages(b)[1..] == Messages(b[1..]);
      Blind(cb, st, a[0].0, a[0].1);
      Blind(cb, st, b[0].0, b[0].1);
      var (st', ret) := cb(st, a[0].0, a[0].1);
      if !ret.Error? { BlindPour(cb, st', a[1..], b[1..]); }
    }
  }

  /** For every callback that does not look at the flag, whatever it returns: any cut has the outcome of handing
      over the whole at once. */
  lemma RefragmentedIsOneShot<S(!new)>(cb: Callback<S>, max: nat, st: S, mess: Option<seq<Byte>>,
                                fragments: seq<seq<Byte>>)
    requires FlagBlind(cb) && !HasMessage(Held(mess)) && Room(max, mess, fragments)
    ensures var h := Refragmented(cb, max, st, mess, fragments, InProgress);
            var d := Deliver(cb, st, Held(mess) + Joined(fragments), InProgress);
            h.st == d.st && Code(h.ret) == Code(d.ret) && (!h.ret.Error? ==> Held(h.mess) == d.rest)
  {
    hide HasMessage, Room, Refragmented, Flagged, SplitMessages, Pour, FlagBlind, Deliver;
    var s := Held(mess) + Joined(fragments);
    var (ms, rest) := SplitMessages(s);
    RefragmentedIsPour(cb, max, st, mess, fragments, InProgress);
    DeliverIsPour(cb, st, s, InProgress);
    FlaggedMessages(Held(mess), fragments);
    assert Messages(Marked(ms, rest == [])) == ms;
    BlindPour(cb, st, Flagged(Held(mess), fragments), Marked(ms, rest == []));
  }

  // ----- a callback that records what it is given ------------------------------------------------------------

  function Record1(log: Log, m: seq<Byte>, e: bool): (r: (Log, Ret)) {
    (log + [(m, e)], InProgress)
  }

  /** The flag is set on the last message of a record and only if nothing follows it. */
  lemma {:induction false} FlagExact(log: Log, s: seq<Byte>)
    ensures var (ms, rest) := SplitMessages(s); var out := Deliver(Record1, log, s, InProgress).st;
            && |out| == |log| + |ms| && out[..|log|] == log
            && forall i :: 0 <= i < |ms| ==> out[|log| + i] == (ms[i], i == |ms| - 1 && rest == [])
    decreases |s|
  {
    if HasMessage(s) {
      var n := MessageLength(s);
      var log' := log + [(s[..n], |s| == n)];
      FlagExact(log', s[n..]);
      var (ms', rest) := SplitMessages(s[n..]);
      var ms := [s[..n]] + ms';
      var out := Deliver(Record1, log, s, InProgress).st;
      assert out[..|log|] == out[..|log'|][..|log|];
      forall i | 0 <= i < |ms|
        ensures out[|log| + i] == (ms[i], i == |ms| - 1 && rest == [])
      {
        if i == 0 {
          assert out[|log|] == out[..|log'|][|log|];
          EmptyTail(s[n..]);
        } else {
          assert out[|log'| + (i - 1)] == (ms'[i - 1], i - 1 == |ms'| - 1 && rest == []);
        }
      }
    }
  }

  lemma EmptyTail(s: seq<Byte>)
    ensures |SplitMessages(s).0| == 0 && SplitMessages(s).1 == [] <==> s == []
  {}

  // ----- records and messages together --------------------------------------------------------------------------

  /** What removing the protection of a record yields. */
  datatype Unprotected<S> = Skip(st: S) | Refuse(st: S, code: int) | Content(st: S, contentType: Byte,
    fragment: seq<Byte>)

  /** The parts of the endpoint above and below: arbitrary. */
  datatype Link<!S> = Link(
    cb: Callback<S>,
    unprotect: (S, Record) -> Unprotected<S>,
    other: (S, Byte, seq<Byte>) -> (S, Ret),
    max: nat)

  /** handle_input once the record is complete: while a message is pending, every record goes to the
      message layer, which refuses it if it is not of type handshake. */
  function OnRecord<S>(link: Link<S>, st: S, mess: Option<seq<Byte>>, r: Record): (h: Handled<S>) {
    match link.unprotect(st, r)
    case Skip(st') => Handled(st', mess, InProgress)
    case Refuse(st', code) => Handled(st', mess, Error(code))
    case Content(st', contentType, fragment) =>
      if mess.Some? || contentType == HANDSHAKE then OnHandshake(link.cb, link.max, st', mess, contentType, fragment)
      else
        var (st'', ret) := link.other(st', contentType, fragment);
        Handled(st'', mess, ret)
  }

  /** left is what is not consumed, pending what is kept of an incomplete record. */
  datatype Outcome<S> = Outcome(st: S, mess: Option<seq<Byte>>, pending: seq<Byte>, ret: Ret, left: seq<Byte>)

  /** One-shot processing of a byte string, up to the first record that does not ask for more. */
  function Run<S>(link: Link<S>, st: S, mess: Option<seq<Byte>>, s: seq<Byte>): (o: Outcome<S>)
    decreases |s|
  {
    match FirstRecord(s)
    case Partial => Outcome(st, mess, s, InProgress, [])
    case Malformed => Outcome(st, mess, [], Error(DECODE_ERROR), s)
    case Complete(r) =>
      var h := OnRecord(link, st, mess, r);
      var rest := s[5 + |r.fragment|..];
      if h.ret != InProgress then Outcome(h.st, h.mess, [], h.ret, rest) else Run(link, h.st, h.mess, rest)
  }

  /** One turn of the loop over the input. */
  lemma RunStep<S(!new)>(link: Link<S>, st: S, mess: Option<seq<Byte>>, held: seq<Byte>, input: seq<Byte>, n: nat)
    requires n <= |input|
    ensures var p := FirstRecord(held + input); var o := Run(link, st, mess, held + input);
            match p
            case Partial => n == |input| ==> o == Run(link, st, mess, held + input + input[n..])
            case Malformed => o.st == st && o.mess == mess && o.ret == Error(DECODE_ERROR)
            case Complete(r) =>
              |held| + n == 5 + |r.fragment| ==>
                var h := OnRecord(link, st, mess, r);
                o == if h.ret == InProgress then Run(link, h.st, h.mess, [] + input[n..])
                  else Outcome(h.st, h.mess, [], h.ret, input[n..])
  {
    hide OnRecord, FirstRecord;
    var s := held + input;
    assert [] + input[n..] == input[n..];
    if n == |input| { assert s + input[n..] == s; }
    if n + |held| >= 5 { assert s[n + |held|..] == input[n..]; }
  }

  /** Cutting the input anywhere changes nothing. */
  lemma {:induction false} RunSplit<S(!new)>(link: Link<S>, st: S, mess: Option<seq<Byte>>, a: seq<Byte>, b: seq<Byte>)
    ensures var o := Run(link, st, mess, a);
            Run(link, st, mess, a + b) == if o.ret == InProgress then Run(link, o.st, o.mess, o.pending + b)
              else o.(left := o.left + b)
    decreases |a|
  {
    hide OnRecord;
    FirstRecordStable(a, b);
    if FirstRecord(a).Complete? {
      var r := FirstRecord(a).record;
      var n := 5 + |r.fragment|;
      var h := OnRecord(link, st, mess, r);
      assert (a + b)[n..] == a[n..] + b;
      if h.ret == InProgress { RunSplit(link, h.st, h.mess, a[n..], b); }
    }
  }

  /** The chunks fed one after the other for as long as more is asked for. */
  ghost function Feed<S>(link: Link<S>, st: S, mess: Option<seq<Byte>>, pending: seq<Byte>,
                         chunks: seq<seq<Byte>>): (o: Outcome<S>)
    decreases |chunks|
  {
    if chunks == [] then Run(link, st, mess, pending)
    else
      var o := Run(link, st, mess, pending + chunks[0]);
      if o.ret != InProgress then o.(left := o.left + Joined(chunks[1..]))
      else Feed(link, o.st, o.mess, o.pending, chunks[1..])
  }

  /** For all callbacks, all protections and all cuts: the chunks do not matter. */
  lemma {:induction false} ChunksDoNotMatter<S(!new)>(link: Link<S>, st: S, mess: Option<seq<Byte>>,
                                               pending: seq<Byte>, chunks: seq<seq<Byte>>)
    ensures Feed(link, st, mess, pending, chunks) == Run(link, st, mess, pending + Joined(chunks))
    decreases |chunks|
  {
    hide Run;
    if chunks == [] {
      assert pending + Joined(chunks) == pending;
    } else {
      var a, b := pending + chunks[0], Joined(chunks[1..]);
      assert pending + Joined(chunks) == a + b;
      RunSplit(link, st, mess, a, b);
      var o := Run(link, st, mess, a);
      if o.ret == InProgress { ChunksDoNotMatter(link, o.st, o.mess, o.pending, chunks[1..]); }
    }
  }

  /** Run, resumed by the caller for as long as there is no error: ptls_handshake or ptls_receive is called again
      with what was not consumed. */
  ghost function Stream<S>(link: Link<S>, st: S, mess: Option<seq<Byte>>, s: seq<Byte>): (o: Outcome<S>)
    decreases |s|
  {
    match FirstRecord(s)
    case Partial => Outcome(st, mess, s, InProgress, [])
    case Malformed => Outcome(st, mess, [], Error(DECODE_ERROR), s)
    case Complete(r) =>
      var h := OnRecord(link, st, mess, r);
      var rest := s[5 + |r.fragment|..];
      if h.ret.Error? then Outcome(h.st, h.mess, [], h.ret, rest) else Stream(link, h.st, h.mess, rest)
  }

  lemma {:induction false} StreamIsResumedRun<S(!new)>(link: Link<S>, st: S, mess: Option<seq<Byte>>, s: seq<Byte>)
    ensures var o := Run(link, st, mess, s);
            Stream(link, st, mess, s) == if o.ret == Done then Stream(link, o.st, o.mess, o.left) else o
    decreases |s|
  {
    hide OnRecord;
    if FirstRecord(s).Complete? {
      var r := FirstRecord(s).record;
      var h := OnRecord(link, st, mess, r);
      if h.ret == InProgress { StreamIsResumedRun(link, h.st, h.mess, s[5 + |r.fragment|..]); }
    }
  }

  /** The handshake part of the state: removing protection does not change it, and the callback, which may change
      everything else too, treats it as f does. */
  ghost predicate Sees<S(!new), H(!new)>(link: Link<S>, view: S -> H, f: Callback<H>) {
    && (forall st, m, e :: var (st', ret) := link.cb(st, m, e); f(view(st), m, e) == (view(st'), ret))
    && (forall st, r :: link.unprotect(st, r).Content? ==> view(link.unprotect(st, r).st) == view(st))
  }

  /** The records are well-formed, and along the run they open to handshake fragments. */
  ghost predicate Opens<S>(link: Link<S>, st: S, mess: Option<seq<Byte>>, records: seq<Record>,
                           fragments: seq<seq<Byte>>)
    decreases |records|
  {
    && |records| == |fragments|
    && (records != [] ==>
          && Fits(records[0]) && var u := link.unprotect(st, records[0]);
          && u.Content? && u.contentType == HANDSHAKE && u.fragment == fragments[0]
          && var h := OnHandshake(link.cb, link.max, u.st, mess, HANDSHAKE, fragments[0]);
             AllFit(records) && (!h.ret.Error? ==> Opens(link, h.st, h.mess, records[1..], fragments[1..])))
  }

  ghost predicate AllFit(records: seq<Record>) {
    forall i :: 0 <= i < |records| ==> Fits(records[i])
  }

  ghost function WireAll(records: seq<Record>): (s: seq<Byte>)
    requires AllFit(records)
  {
    if records == [] then [] else Wire(records[0]) + WireAll(records[1..])
  }

  lemma SeesAt<S(!new), H(!new)>(link: Link<S>, view: S -> H, f: Callback<H>, st: S, m: seq<Byte>, e: bool)
    requires Sees(link, view, f)
    ensures var (st', ret) := link.cb(st, m, e); f(view(st), m, e) == (view(st'), ret)
  {}

  lemma {:induction false} PourView<S(!new), H(!new)>(link: Link<S>, view: S -> H, f: Callback<H>, st: S, log: Log)
    requires Sees(link, view, f)
    ensures var p, q := Pour(link.cb, st, log), Pour(f, view(st), log); view(p.st) == q.st && p.error == q.error
  {
    if log != [] {
      var (st', ret) := link.cb(st, log[0].0, log[0].1);
      SeesAt(link, view, f, st, log[0].0, log[0].1);
      if !ret.Error? { PourView(link, view, f, st', log[1..]); }
    }
  }

  /** Both layers: protected records, cut in any way, and the handshake above them. */
  lemma {:induction false} StreamIsPour<S(!new), H(!new)>(link: Link<S>, view: S -> H, f: Callback<H>, st: S,
                                                           mess: Option<seq<Byte>>, records: seq<Record>,
                                                           fragments: seq<seq<Byte>>)
    requires Sees(link, view, f) && !HasMessage(Held(mess)) && Room(link.max, mess, fragments)
    requires AllFit(records) && Opens(link, st, mess, records, fragments)
    ensures var o := Stream(link, st, mess, WireAll(records));
            var p := Pour(f, view(st), Flagged(Held(mess), fragments));
            && view(o.st) == p.st && Code(o.ret) == p.error && o.pending == []
            && (p.error.None? ==> Held(o.mess) == SplitMessages(Held(mess) + Joined(fragments)).1)
    decreases |records|
  {
    hide HasMessage, SplitMessages, OnHandshake, Pour, Marked, Overflow, Sees, FirstRecord, Wire, Fits;
    if records == [] {
      NothingMore(f, view(st), Held(mess));
      assert Held(mess) + Joined(fragments) == Held(mess);
      NothingHeld();
    } else {
      var r, tail := records[0], WireAll(records[1..]);
      FirstOfWire(r, tail);
      var u := link.unprotect(st, r);
      ViewKept(link, view, f, st, r);
      var s, t := Held(mess) + fragments[0], Joined(fragments[1..]);
      var (ms, rest) := SplitMessages(s);
      var h := OnHandshake(link.cb, link.max, u.st, mess, HANDSHAKE, fragments[0]);
      assert OnRecord(link, st, mess, r) == h;
      OnHandshakeIsPour(link.cb, link.max, u.st, mess, fragments[0]);
      PourView(link, view, f, u.st, Marked(ms, rest == []));
      PourAppend(f, view(st), Marked(ms, rest == []), Flagged(rest, fragments[1..]));
      assert Held(mess) + Joined(fragments) == s + t;
      SplitMessagesAppend(s, t);
      if !h.ret.Error? { StreamIsPour(link, view, f, h.st, h.mess, records[1..], fragments[1..]); }
    }
  }

  lemma FirstOfWire(r: Record, tail: seq<Byte>)
    requires Fits(r)
    ensures var w := Wire(r) + tail;
            && FirstRecord(w) == Complete(r) && |w| >= 5 + |r.fragment|
            && w[5 + |r.fragment|..] == tail
  {
    FirstIsWire(Wire(r) + tail, r);
  }

  lemma ViewKept<S(!new), H(!new)>(link: Link<S>, view: S -> H, f: Callback<H>, st: S, r: Record)
    requires Sees(link, view, f) && link.unprotect(st, r).Content?
    ensures view(link.unprotect(st, r).st) == view(st)
  {}

  /** And if the handshake does not look at the flag: the messages of the whole, handed over at once. */
  lemma StreamIsOneShot<S(!new), H(!new)>(link: Link<S>, view: S -> H, f: Callback<H>, st: S, mess: Option<seq<Byte>>,
                                           records: seq<Record>, fragments: seq<seq<Byte>>)
    requires Sees(link, view, f) && FlagBlind(f) && !HasMessage(Held(mess)) && Room(link.max, mess, fragments)
    requires AllFit(records) && Opens(link, st, mess, records, fragments)
    ensures var o := Stream(link, st, mess, WireAll(records));
            var d := Deliver(f, view(st), Held(mess) + Joined(fragments), InProgress);
            && view(o.st) == d.st && Code(o.ret) == Code(d.ret) && o.pending == []
            && (!o.ret.Error? ==> Held(o.mess) == d.rest)
  {
    hide HasMessage, Room, Opens, Sees, Flagged, SplitMessages, Pour, FlagBlind, Deliver, Stream, WireAll;
    var s := Held(mess) + Joined(fragments);
    var (ms, rest) := SplitMessages(s);
    StreamIsPour(link, view, f, st, mess, records, fragments);
    DeliverIsPour(f, view(st), s, InProgress);
    FlaggedMessages(Held(mess), fragments);
    assert Messages(Marked(ms, rest == [])) == ms;
    BlindPour(f, view(st), Flagged(Held(mess), fragments), Marked(ms, rest == []));
  }

  // ----- the receiver ----------------------------------------------------------------------------------------------

  /** The receive buffers of ptls_t and the state behind them. */
  class Receiver<S(!new)> {
    const link: Link<S>
    var st: S
    var rec: Option<seq<Byte>>
    var mess: Option<seq<Byte>>

    constructor (link: Link<S>, st: S)
      ensures Valid() && this.link == link && this.st == st && rec.None? && mess.None?
    {
      this.link, this.st, this.rec, this.mess := link, st, None, None;
    }

    /** What is buffered is an incomplete record. */
    ghost predicate Valid()
      reads this
    {
      FirstRecord(Held(rec)).Partial?
    }

    /** parse_record: a record lying complete in the input is used in place; otherwise header and
        fragment are gathered in the buffer. */
    method ParseRecord(src: seq<Byte>) returns (p: Parsed, consumed: nat)
      requires Valid()
      modifies this`rec
      ensures p == FirstRecord(old(Held(rec)) + src) && consumed <= |src|
      ensures p.Complete? ==> old(|Held(rec)|) + consumed == 5 + |p.record.fragment|
      ensures p.Partial? ==> consumed == |src| && Held(rec) == old(Held(rec)) + src
      ensures src != [] ==> consumed > 0
    {
      if rec.None? && |src| >= 5 {
        assert Held(rec) + src == src;
        if !HeaderFits(src) { return Malformed, |src|; }
        if 5 + RecordLength(src) <= |src| {
          return Complete(Record(src[0], Be16(src[1..3]), src[5..5 + RecordLength(src)])), 5 + RecordLength(src);
        }
      }
      p, consumed := GatherRecord(src);
    }

    /** The slow path of parse_record. */
    method GatherRecord(src: seq<Byte>) returns (p: Parsed, consumed: nat)
      requires Valid()
      modifies this`rec
      ensures p == FirstRecord(old(Held(rec)) + src) && consumed <= |src|
      ensures p.Complete? ==> old(|Held(rec)|) + consumed == 5 + |p.record.fragment|
      ensures p.Partial? ==> consumed == |src| && Held(rec) == old(Held(rec)) + src
      ensures src != [] ==> consumed > 0
    {
      ghost var held := Held(rec);
      ghost var all := held + src;
      var buf, i := Held(rec), 0;
      PartialBound(held);
      hide FirstRecord, HeaderFits, RecordLength, Be16;
      while |buf| < 5 && i < |src|
        invariant i <= |src| && |held| + i == |buf| && buf == all[..|buf|] && (|buf| <= 5 || i == 0)
      {
        buf, i := buf + [src[i]], i + 1;
      }
      rec := Some(buf);
      if |buf| < 5 {
        assert buf == all;
        TooShort(all);
        return Partial, i;
      }
      SameHeader(all, |buf|);
      if !HeaderFits(buf) {
        BadHeader(all);
        return Malformed, |src|;
      }
      var addlen := 5 + RecordLength(buf) - |buf|;
      if addlen > |src| - i { addlen := |src| - i; }
      consumed := i + addlen;
      ghost var n := |buf| + addlen;
      buf := buf + src[i..consumed];
      assert buf == all[..n];
      RecordOfPrefix(all, n);
      rec := Some(buf);
      if |buf| == 5 + RecordLength(buf) {
        p := Complete(Record(buf[0], Be16(buf[1..3]), buf[5..]));
      } else {
        assert all[..n] == all;
        p := Partial;
      }
    }

    /** handle_handshake_record: the loop over the complete messages; the rest is kept. */
    method HandleHandshakeRecord(contentType: Byte, fragment: seq<Byte>) returns (ret: Ret)
      modifies this`st, this`mess
      ensures Handled(st, mess, ret) == OnHandshake(link.cb, link.max, old(st), old(mess), contentType, fragment)
    {
      if contentType != HANDSHAKE { return Error(DECODE_ERROR); }
      var src := fragment;
      if mess.Some? {
        if Overflow(link.max, |mess.value| + |fragment|) { return Error(HANDSHAKE_FAILURE); }
        mess := Some(mess.value + fragment);
        src := mess.value;
      }
      ghost var s := src;
      assert s == Held(old(mess)) + fragment;
      ret := InProgress;
      while HasMessage(src)
        invariant !ret.Error?
        invariant mess == if old(mess).None? then None else Some(s)
        invariant Deliver(link.cb, old(st), s, InProgress) == Deliver(link.cb, st, src, ret)
        decreases |src|
      {
        var n := MessageLength(src);
        var next, r := CallBack(src[..n], |src| == n);
        st, ret := next, r;
        if ret.Error? {
          mess := None;
          return;
        }
        src := src[n..];
      }
      if src != [] {
        if Overflow(link.max, |src|) { return Error(HANDSHAKE_FAILURE); }
        mess := Some(src);
        ret := InProgress;
      } else {
        mess := None;
      }
    }

    method CallBack(message: seq<Byte>, isEnd: bool) returns (next: S, ret: Ret)
      ensures (next, ret) == link.cb(st, message, isEnd)
    {
      var r := link.cb(st, message, isEnd);
      return r.0, r.1;
    }

    /** handle_input: at most one record; on success nothing of it stays in the record buffer. */
    method HandleInput(input: seq<Byte>) returns (ret: Ret, consumed: nat)
      requires Valid()
      modifies this
      ensures consumed <= |input| && (input != [] ==> consumed > 0)
      ensures var p := FirstRecord(old(Held(rec)) + input);
              match p
              case Partial => Valid() && ret == InProgress && consumed == |input| && Held(rec) == old(Held(rec)) + input
                              && st == old(st) && mess == old(mess)
              case Malformed => ret == Error(DECODE_ERROR) && st == old(st) && mess == old(mess)
              case Complete(r) => Handled(st, mess, ret) == OnRecord(link, old(st), old(mess), r)
                                  && old(|Held(rec)|) + consumed == 5 + |r.fragment| && (!ret.Error? ==> rec == None)
    {
      hide OnHandshake;
      var p;
      p, consumed := ParseRecord(input);
      if p.Partial? { return InProgress, consumed; }
      if p.Malformed? { return Error(DECODE_ERROR), consumed; }
      match link.unprotect(st, p.record) {
        case Skip(st') =>
          st := st';
          ret := InProgress;
        case Refuse(st', code) =>
          st := st';
          return Error(code), consumed;
        case Content(st', contentType, fragment) =>
          st := st';
          if mess.Some? || contentType == HANDSHAKE {
            ret := HandleHandshakeRecord(contentType, fragment);
          } else {
            var r := link.other(st, contentType, fragment);
            st, ret := r.0, r.1;
          }
      }
      rec := None;
    }

    /** The loop of ptls_handshake: records are handled until the input is swallowed or one of them
        does not ask for more.  The result is that of one-shot processing. */
    method Handshake(input: seq<Byte>) returns (ret: Ret, consumed: nat)
      requires Valid()
      modifies this
      ensures consumed <= |input|
      ensures var o := Run(link, old(st), old(mess), old(Held(rec)) + input);
              && st == o.st && mess == o.mess && ret == o.ret
              && (!ret.Error? ==> Valid() && Held(rec) == o.pending && input[consumed..] == o.left)
    {
      hide OnRecord, Run, FirstRecord;
      ret, consumed := InProgress, 0;
      ghost var o := Run(link, st, mess, Held(rec) + input);
      assert input[0..] == input;
      while ret == InProgress && consumed != |input|
        invariant consumed <= |input|
        invariant ret == InProgress ==> Valid() && o == Run(link, st, mess, Held(rec) + input[consumed..])
        invariant ret != InProgress ==> o.st == st && o.mess == mess && o.ret == ret
        invariant ret != InProgress && !ret.Error? ==> rec == None && o.pending == [] && o.left == input[consumed..]
        decreases |input| - consumed, ret == InProgress
      {
        ghost var rest, held, st0, mess0 := input[consumed..], Held(rec), st, mess;
        var n;
        ret, n := HandleInput(input[consumed..]);
        consumed := consumed + n;
        RunStep(link, st0, mess0, held, rest, n);
        assert rest[n..] == input[consumed..];
        NothingHeld();
      }
      if ret == InProgress {
        assert Held(rec) + input[consumed..] == Held(rec);
        RunPartial(link, st, mess, Held(rec));
      }
      NothingHeld();
    }
  }

  lemma NothingHeld()
    ensures FirstRecord([]).Partial?
  {}

  lemma RunPartial<S(!new)>(link: Link<S>, st: S, mess: Option<seq<Byte>>, s: seq<Byte>)
    requires FirstRecord(s).Partial?
    ensures Run(link, st, mess, s) == Outcome(st, mess, s, InProgress, [])
  {}
}
