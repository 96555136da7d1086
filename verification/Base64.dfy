/** Base64 of lib/pembase64.c: the encoder, and the decoder that takes a text line by line. */
module Base64 {
  import opened Common
  import opened Arith

  type Sextet = n: nat | n < 64

  // ----- the alphabet ---------------------------------------------------------------------------------------------

  /** ptls_base64_alphabet */
  function Letter(n: Sextet): (c: char) {
    if n < 26 then ('A' as int + n) as char
    else if n < 52 then ('a' as int + (n - 26)) as char
    else if n < 62 then ('0' as int + (n - 52)) as char
    else if n == 62 then '+' else '/'
  }

  /** ptls_base64_values, -1 outside the alphabet. */
  function Value(c: char): (n: int)
    ensures -1 <= n < 64
  {
    if 'A' <= c <= 'Z' then c as int - 'A' as int
    else if 'a' <= c <= 'z' then c as int - 'a' as int + 26
    else if '0' <= c <= '9' then c as int - '0' as int + 52
    else if c == '+' then 62 else if c == '/' then 63 else -1
  }

  lemma LetterValue(n: Sextet)
    ensures Value(Letter(n)) == n && !Blank(Letter(n)) && Letter(n) != '='
  {}

  /** What may precede the text of a line. */
  predicate LeadBlank(c: char) {
    c == ' ' || c == '\t' || c == '\r' || c == '\n'
  }

  /** What may follow it: vertical tab and form feed as well. */
  predicate Blank(c: char) {
    LeadBlank(c) || c as int == 0x0B || c as int == 0x0C
  }

  predicate AllBlank(t: string) {
    forall i :: 0 <= i < |t| ==> Blank(t[i])
  }

  // ----- encoding ---------------------------------------------------------------------------------------------------

  /** The four sextets of three octets. */
  function Cell(a: Byte, b: Byte, c: Byte): (n: seq<Sextet>)
    ensures |n| == 4
  {
    [a / 4, (a % 4) * 16 + b / 16, (b % 16) * 4 + c / 64, c % 64]
  }

  function Letters(n: seq<Sextet>): (t: string)
    ensures |t| == |n| && forall i :: 0 <= i < |n| ==> t[i] == Letter(n[i])
  {
    seq(|n|, i requires 0 <= i < |n| => Letter(n[i]))
  }

  /** Base64 of section 4 of RFC 4648. */
  function Encoding(data: seq<Byte>): (t: string)
    ensures |t| == HowLong(|data|)
    decreases |data|
  {
    if |data| == 0 then ""
    else if |data| == 1 then Letters(Cell(data[0], 0, 0)[..2]) + "=="
    else if |data| == 2 then Letters(Cell(data[0], data[1], 0)[..3]) + "="
    else Letters(Cell(data[0], data[1], data[2])) + Encoding(data[3..])
  }

  /** ptls_base64_howlong */
  function HowLong(n: nat): (k: nat) {
    ((n + 2) / 3) * 4
  }

  /** ptls_base64_encode into the given array, with a terminating NUL. */
  method Encode(data: seq<Byte>, text: array<char>) returns (length: nat)
    requires HowLong(|data|) < text.Length
    modifies text
    ensures length == HowLong(|data|) + 1
    ensures text[..length] == Encoding(data) + ['\0']
  {
    hide Letter, Cell, Encoding, HowLong, Letters;
    var l, lt := 0, 0;
    ghost var rest := data;
    while |data| - l >= 3
      invariant 0 <= l <= |data| && rest == data[l..] && lt + HowLong(|rest|) == HowLong(|data|)
      invariant text[..lt] + Encoding(rest) == Encoding(data)
      decreases |data| - l
    {
      ghost var done := text[..lt];
      EncodingStep(rest);
      ghost var cell := Letters(Cell(rest[0], rest[1], rest[2]));
      EncodeCell(data[l], data[l + 1], data[l + 2], text, lt);
      assert text[..lt + 4] == text[..lt] + text[lt..lt + 4] == done + cell;
      rest := rest[3..];
      assert done + cell + Encoding(rest) == done + (cell + Encoding(rest));
      l, lt := l + 3, lt + 4;
    }
    lt := EncodeTail(data[l..], text, lt);
    text[lt] := '\0';
    length := lt + 1;
  }

  lemma EncodingStep(data: seq<Byte>)
    requires |data| >= 3
    ensures Encoding(data) == Letters(Cell(data[0], data[1], data[2])) + Encoding(data[3..])
    ensures HowLong(|data|) == 4 + HowLong(|data| - 3)
  {
    hide Cell, Letters;
  }

  /** The one or two octets left over. */
  method EncodeTail(rest: seq<Byte>, text: array<char>, lt: nat) returns (lt': nat)
    requires |rest| < 3 && lt + HowLong(|rest|) <= text.Length
    modifies text
    ensures lt' == lt + HowLong(|rest|) && text[..lt'] == old(text[..lt]) + Encoding(rest)
  {
    hide Letter, Cell;
    ghost var done := text[..lt];
    lt' := lt;
    if |rest| == 1 {
      var n := Cell(rest[0], 0, 0);
      text[lt], text[lt + 1], text[lt + 2], text[lt + 3] := Letter(n[0]), Letter(n[1]), '=', '=';
      assert text[..lt + 4] == done + (Letters(n[..2]) + "==");
      lt' := lt + 4;
    } else if |rest| == 2 {
      var n := Cell(rest[0], rest[1], 0);
      text[lt], text[lt + 1], text[lt + 2], text[lt + 3] := Letter(n[0]), Letter(n[1]), Letter(n[2]), '=';
      assert text[..lt + 4] == done + (Letters(n[..3]) + "=");
      lt' := lt + 4;
    }
  }

  /** ptls_base64_cell */
  method EncodeCell(a: Byte, b: Byte, c: Byte, text: array<char>, lt: nat)
    requires lt + 4 <= text.Length
    modifies text
    ensures text[..lt] == old(text[..lt]) && text[lt..lt + 4] == Letters(Cell(a, b, c))
  {
    hide Letter, Cell;
    var n := Cell(a, b, c);
    for i := 0 to 4
      invariant text[..lt] == old(text[..lt])
      invariant forall k :: 0 <= k < i ==> text[lt + k] == Letter(n[k])
    {
      text[lt + i] := Letter(n[i]);
    }
  }

  // ----- decoding ----------------------------------------------------------------------------------------------------

  datatype Status = InProgress | Done | Failed

  /** ptls_base64_decode_state_t and the octets decoded so far.  v has 32 bits. */
  datatype State = State(nbc: nat, nbo: nat, v: nat, status: Status, buf: seq<Byte>)

  const WORD: nat := 0x1_0000_0000

  function Shl(v: nat, bits: nat): (w: nat)
    requires v < WORD && (bits == 6 || bits == 12)
    ensures w < WORD
  {
    (v * if bits == 6 then 64 else 4096) % WORD
  }

  /** The first n of the three octets of v. */
  function Octets(v: nat, n: nat): (s: seq<Byte>)
    requires n <= 3
    ensures |s| == n
  {
    [(v / 0x1_0000) % 256, (v / 0x100) % 256, v % 256][..n]
  }

  /** One letter; the fourth completes a cell. */
  function Push(st: State, c: char): (r: State)
    requires Value(c) >= 0 && st.v < WORD
    ensures r.v < WORD
  {
    var v := ShlOr(st.v, Value(c));
    if st.nbc + 1 == 4 && st.nbo == 3 then State(0, 3, 0, st.status, st.buf + Octets(v, 3))
    else st.(nbc := st.nbc + 1, v := v)
  }

  function ShlOr(v: nat, n: Sextet): (w: nat)
    requires v < WORD
    ensures w < WORD
  {
    ShlRoom(v);
    Shl(v, 6) + n
  }

  lemma ShlRoom(v: nat)
    requires v < WORD
    ensures Shl(v, 6) + 63 < WORD
  {
    var q, r := v / 0x400_0000, v % 0x400_0000;
    DivModUnique(v * 64, WORD, q, r * 64);
  }

  function Finish(st: State, nbo: nat, bits: nat): (r: State)
    requires nbo <= 2 && st.v < WORD && (bits == 6 || bits == 12)
    ensures r.v < WORD
  {
    var v := Shl(st.v, bits);
    State(4, nbo, v, Done, st.buf + Octets(v, nbo))
  }

  /** The main loop on the rest of a line; false stands for PTLS_ERROR_INCORRECT_BASE64.  After the
      padding the rest of the line is not looked at. */
  function Scan(st: State, t: string): (r: (State, bool))
    requires st.v < WORD
    ensures r.0.v < WORD
    decreases |t|
  {
    if t == "" || st.status != InProgress then (st, true)
    else if Value(t[0]) >= 0 then Scan(Push(st, t[0]), t[1..])
    else if st.nbc == 2 && t[0] == '=' && |t| > 1 && t[1] == '=' then (Finish(st, 1, 12), true)
    else if st.nbc == 3 && t[0] == '=' then (Finish(st, 2, 6), true)
    else if AllBlank(t) then (st, true)
    else (st.(nbo := 0, status := Failed), false)
  }

  function SkipLead(t: string): (r: string)
    ensures |r| <= |t|
  {
    if t != "" && LeadBlank(t[0]) then SkipLead(t[1..]) else t
  }

  /** The decoder: its state persists from line to line. */
  class Decoder {
    var nbc: nat
    var nbo: nat
    var v: nat
    var status: Status
    var buf: seq<Byte>

    function Contents(): (st: State)
      reads this
    {
      State(nbc, nbo, v, status, buf)
    }

    /** A cell in progress has at most three letters. */
    ghost predicate Valid()
      reads this
    {
      v < WORD && (status.InProgress? ==> nbc < 4 && nbo == 3)
    }

    /** ptls_base64_decode_init, with an empty buffer. */
    constructor ()
      ensures Valid() && Contents() == Start()
    {
      nbc, nbo, v, status, buf := 0, 3, 0, InProgress, [];
    }

    /** ptls_base64_decode on one line, up to its terminating NUL. */
    method Decode(text: string) returns (ok: bool)
      requires Valid() && '\0' !in text
      modifies this
      ensures Valid() && (Contents(), ok) == Scan(old(Contents()), SkipLead(text))
    {
      hide Value, ShlOr, Shl, Octets, AllBlank, LeadBlank;
      var i := 0;
      assert text[0..] == text;
      while i < |text| && LeadBlank(text[i])
        invariant 0 <= i <= |text| && SkipLead(text) == SkipLead(text[i..])
      {
        assert text[i..][1..] == text[i + 1..];
        i := i + 1;
      }
      hide Scan, SkipLead;
      ok := true;
      var stop := false;
      ghost var all := Scan(Contents(), text[i..]);
      while i < |text| && !stop && status == InProgress
        invariant 0 <= i <= |text| && Valid()
        invariant !stop ==> ok && Scan(Contents(), text[i..]) == all
        invariant stop ==> (Contents(), ok) == all
        decreases |text| - i, !stop
      {
        i, ok, stop := Take(text, i);
      }
      if !stop { ScanNothing(Contents(), text[i..]); }
    }

    /** One turn of the main loop. */
    method Take(text: string, i: nat) returns (i': nat, ok: bool, stop: bool)
      requires Valid() && i < |text| && status == InProgress
      modifies this
      ensures Valid() && i <= i' <= |text| && (!stop ==> i < i' && ok)
      ensures !stop ==> Scan(Contents(), text[i'..]) == Scan(old(Contents()), text[i..])
      ensures stop ==> (Contents(), ok) == Scan(old(Contents()), text[i..])
    {
      hide Value, ShlOr, Shl, Octets, AllBlank, LeadBlank;
      ghost var rest := text[i..];
      assert rest[0] == text[i] && rest[1..] == text[i + 1..] && (i + 1 < |text| ==> rest[1] == text[i + 1]);
      var c := text[i];
      i', ok, stop := i + 1, true, false;
      if Value(c) == -1 {
        if nbc == 2 && c == '=' && i' < |text| && text[i'] == '=' {
          nbc, i', nbo, v := 4, i' + 1, 1, Shl(v, 12);
        } else if nbc == 3 && c == '=' {
          nbc, nbo, v := 4, 2, Shl(v, 6);
        } else {
          var blank := RestIsBlank(text, i);
          if blank { return i, true, true; }
          nbo, status := 0, Failed;
          return i, false, true;
        }
      } else {
        nbc, v := nbc + 1, ShlOr(v, Value(c));
      }
      if nbc == 4 {
        buf := buf + Octets(v, nbo);
        if nbo < 3 {
          status := Done;
          return i', true, true;
        }
        v, nbo, nbc := 0, 3, 0;
      }
    }
  }

  lemma ScanNothing(st: State, t: string)
    requires st.v < WORD && (t == "" || st.status != InProgress)
    ensures Scan(st, t) == (st, true)
  {}

  /** The loop over the final blanks. */
  method RestIsBlank(text: string, from: nat) returns (blank: bool)
    requires from <= |text|
    ensures blank == AllBlank(text[from..])
  {
    var i := from;
    while i < |text| && Blank(text[i])
      invariant from <= i <= |text| && forall k :: from <= k < i ==> Blank(text[k])
    {
      i := i + 1;
    }
    blank := i == |text|;
    if !blank { assert text[from..][i - from] == text[i]; }
  }

  function Start(): (st: State) {
    State(0, 3, 0, InProgress, [])
  }

  // ----- the round trip ----------------------------------------------------------------------------------------------

  /** The letters of the encoding, and its padding. */
  function Body(data: seq<Byte>): (t: string)
    decreases |data|
  {
    if |data| == 0 then ""
    else if |data| == 1 then Letters(Cell(data[0], 0, 0)[..2])
    else if |data| == 2 then Letters(Cell(data[0], data[1], 0)[..3])
    else Letters(Cell(data[0], data[1], data[2])) + Body(data[3..])
  }

  function Padding(data: seq<Byte>): (t: string) {
    if |data| % 3 == 1 then "==" else if |data| % 3 == 2 then "=" else ""
  }

  lemma {:induction false} EncodingIs(data: seq<Byte>)
    ensures Encoding(data) == Body(data) + Padding(data)
    decreases |data|
  {
    hide Cell, Letters, HowLong;
    if |data| >= 3 {
      EncodingIs(data[3..]);
      SamePadding(data);
      var cell, rest, pad := Letters(Cell(data[0], data[1], data[2])), Body(data[3..]), Padding(data);
      assert cell + (rest + pad) == (cell + rest) + pad;
    } else if |data| == 0 {
      assert "" + Padding(data) == "";
    }
  }

  lemma SamePadding(data: seq<Byte>)
    requires |data| >= 3
    ensures Padding(data[3..]) == Padding(data)
  {}

  ghost predicate AllLetters(t: string) {
    forall i :: 0 <= i < |t| ==> Value(t[i]) >= 0
  }

  lemma {:induction false} BodyLetters(data: seq<Byte>)
    ensures AllLetters(Body(data))
    decreases |data|
  {
    hide Cell, Letter, Value;
    if |data| >= 3 { BodyLetters(data[3..]); }
    forall i | 0 <= i < |Body(data)|
      ensures Value(Body(data)[i]) >= 0
    {
      if |data| < 3 || i < 4 {
        var n := Cell(data[0], if |data| > 1 then data[1] else 0, if |data| > 2 then data[2] else 0)[i];
        LetterValue(n);
      } else {
        assert Body(data)[i] == Body(data[3..])[i - 4];
      }
    }
  }

  function PushAll(st: State, t: string): (r: State)
    requires st.v < WORD && AllLetters(t)
    ensures r.v < WORD && r.status == st.status
    decreases |t|
  {
    if t == "" then st else PushAll(Push(st, t[0]), t[1..])
  }

  lemma {:induction false} PushAllAppend(st: State, a: string, b: string)
    requires st.v < WORD && AllLetters(a) && AllLetters(b)
    ensures AllLetters(a + b) && PushAll(st, a + b) == PushAll(PushAll(st, a), b)
    decreases |a|
  {
    hide Push, Value;
    if a == "" {
      assert a + b == b;
    } else {
      assert (a + b)[1..] == a[1..] + b;
      PushAllAppend(Push(st, a[0]), a[1..], b);
    }
  }

  /** Letters are taken one by one, whatever follows. */
  lemma {:induction false} ScanLetters(st: State, a: string, b: string)
    requires st.v < WORD && AllLetters(a) && st.status == InProgress
    ensures Scan(st, a + b) == Scan(PushAll(st, a), b)
    decreases |a|
  {
    hide Push, Value;
    if a == "" {
      assert a + b == b;
    } else {
      assert (a + b)[1..] == a[1..] + b;
      PushKeepsGoing(st, a[0]);
      ScanLetters(Push(st, a[0]), a[1..], b);
    }
  }

  lemma PushKeepsGoing(st: State, c: char)
    requires Value(c) >= 0 && st.v < WORD
    ensures Push(st, c).status == st.status
  {}

  /** The value of n letters of a cell. */
  function Gathered(n: seq<Sextet>): (v: nat)
    requires |n| <= 4
  {
    if n == [] then 0 else Gathered(n[..|n| - 1]) * 64 + n[|n| - 1]
  }

  lemma GatheredBound(n: seq<Sextet>)
    requires |n| <= 4
    ensures |n| == 3 ==> Gathered(n) < 0x4_0000
    ensures |n| == 2 ==> Gathered(n) < 0x1000
    ensures |n| == 1 ==> Gathered(n) < 64
    ensures |n| == 0 ==> Gathered(n) == 0
  {
    if |n| == 3 {
      assert n[..2][..1] == n[..1] && n[..1][..0] == [];
    } else if |n| == 2 {
      assert n[..1][..0] == [];
    }
  }

  ghost predicate Gathering(st: State, n: seq<Sextet>, buf: seq<Byte>) {
    |n| < 4 && st == State(|n|, 3, Gathered(n), InProgress, buf)
  }

  lemma PushLetter(st: State, n: seq<Sextet>, buf: seq<Byte>, x: Sextet)
    requires Gathering(st, n, buf)
    ensures st.v < WORD && Value(Letter(x)) >= 0
    ensures |n| < 3 ==> Gathering(Push(st, Letter(x)), n + [x], buf)
    ensures |n| == 3 ==> Push(st, Letter(x)) == State(0, 3, 0, InProgress, buf + Octets(Gathered(n + [x]), 3))
  {
    LetterValue(x);
    GatheredBound(n);
    ShlOrSmall(st.v, x);
    GatheredSnoc(n, x);
    hide Letter, Value, Octets, ShlOr, Gathered;
  }

  lemma ShlOrSmall(v: nat, x: Sextet)
    requires v < 0x4_0000
    ensures ShlOr(v, x) == v * 64 + x
  {
    DivModUnique(v * 64, WORD, 0, v * 64);
  }

  lemma GatheredSnoc(n: seq<Sextet>, x: Sextet)
    requires |n| < 4
    ensures Gathered(n + [x]) == Gathered(n) * 64 + x
  {
    assert (n + [x])[..|n|] == n;
  }

  lemma {:induction false} PushPartial(st: State, n: seq<Sextet>, buf: seq<Byte>, more: seq<Sextet>)
    requires Gathering(st, n, buf) && |n| + |more| < 4
    ensures st.v < WORD && AllLetters(Letters(more)) && Gathering(PushAll(st, Letters(more)), n + more, buf)
    decreases |more|
  {
    hide Push, Letter, Value, Gathered;
    forall i | 0 <= i < |more|
      ensures Value(Letters(more)[i]) >= 0
    {
      LetterValue(more[i]);
    }
    if more == [] {
      GatheringBound(st, n, buf);
      assert n + more == n && Letters(more) == "";
    } else {
      PushLetter(st, n, buf, more[0]);
      var st' := Push(st, Letter(more[0]));
      PushPartial(st', n + [more[0]], buf, more[1..]);
      assert Letters(more)[1..] == Letters(more[1..]);
      assert n + [more[0]] + more[1..] == n + more;
    }
  }

  lemma GatheringBound(st: State, n: seq<Sextet>, buf: seq<Byte>)
    requires Gathering(st, n, buf)
    ensures st.v < WORD
  {
    GatheredBound(n);
  }

  /** The four sextets of a cell are its three octets. */
  lemma CellValue(a: Byte, b: Byte, c: Byte)
    ensures Gathered(Cell(a, b, c)) == a as nat * 0x1_0000 + b as nat * 0x100 + c
  {
    var n := Cell(a, b, c);
    assert n[..3][..2] == n[..2] && n[..2][..1] == n[..1] && n[..1][..0] == [];
    assert Gathered(n[..1]) == n[0];
    assert Gathered(n[..2]) == n[0] as nat * 64 + n[1];
    assert Gathered(n[..3]) == (n[0] as nat * 64 + n[1]) * 64 + n[2];
    assert Gathered(n) == ((n[0] as nat * 64 + n[1]) * 64 + n[2]) * 64 + n[3];
  }

  lemma OctetsOf(a: Byte, b: Byte, c: Byte)
    ensures Octets(a as nat * 0x1_0000 + b as nat * 0x100 + c, 3) == [a, b, c]
  {
    var v: nat := a as nat * 0x1_0000 + b as nat * 0x100 + c;
    DivModUnique(v, 0x1_0000, a, b as nat * 0x100 + c);
    DivModUnique(v, 0x100, a as nat * 0x100 + b, c);
    DivModUnique(a as nat * 0x100 + b, 0x100, a, b);
  }

  lemma PushCell(buf: seq<Byte>, a: Byte, b: Byte, c: Byte)
    ensures var t := Letters(Cell(a, b, c)); var st := State(0, 3, 0, InProgress, buf);
            AllLetters(t) && PushAll(st, t) == st.(buf := buf + [a, b, c])
  {
    hide Push, Letter, Value, Octets, Cell, Gathered;
    var n := Cell(a, b, c);
    var st := State(0, 3, 0, InProgress, buf);
    GatheredBound([]);
    PushPartial(st, [], buf, n[..3]);
    assert [] + n[..3] == n[..3];
    PushLetter(PushAll(st, Letters(n[..3])), n[..3], buf, n[3]);
    assert n[..3] + [n[3]] == n && Letters(n) == Letters(n[..3]) + [Letter(n[3])];
    PushAllAppend(st, Letters(n[..3]), [Letter(n[3])]);
    PushOne(PushAll(st, Letters(n[..3])), Letter(n[3]));
    CellValue(a, b, c);
    OctetsOf(a, b, c);
  }

  lemma PushOne(st: State, c: char)
    requires st.v < WORD && Value(c) >= 0
    ensures AllLetters([c]) && PushAll(st, [c]) == Push(st, c)
  {
    hide Push;
    assert [c][1..] == "";
    assert PushAll(Push(st, c), "") == Push(st, c);
  }

  /** The sextets of the incomplete last cell. */
  function Tail(data: seq<Byte>): (n: seq<Sextet>)
    requires |data| < 3
    ensures |n| == if |data| == 0 then 0 else |data| + 1
  {
    if |data| == 0 then [] else if |data| == 1 then Cell(data[0], 0, 0)[..2] else Cell(data[0], data[1], 0)[..3]
  }

  /** The octets in whole cells. */
  function Whole(n: nat): (k: nat)
    ensures k <= n < k + 3
  {
    n - n % 3
  }

  lemma WholeFacts(n: nat)
    ensures n < 3 ==> Whole(n) == 0
    ensures n >= 3 ==> Whole(n) == 3 + Whole(n - 3)
  {}

  /** All letters of the encoding: whole cells are in the buffer, the tail is being gathered. */
  lemma {:induction false} PushBody(buf: seq<Byte>, data: seq<Byte>)
    ensures AllLetters(Body(data))
    ensures var k := Whole(|data|);
            Gathering(PushAll(State(0, 3, 0, InProgress, buf), Body(data)), Tail(data[k..]), buf + data[..k])
    decreases |data|
  {
    hide Push, PushAll, Letter, Value, Octets, Cell, Gathered, Gathering, Tail, AllLetters, Whole;
    BodyLetters(data);
    WholeFacts(|data|);
    if |data| < 3 {
      PushTail(buf, data);
      assert data[0..] == data && buf + data[..0] == buf;
    } else {
      var k, rest := Whole(|data|), data[3..];
      var first := [data[0], data[1], data[2]];
      PushCell(buf, data[0], data[1], data[2]);
      PushBody(buf + first, rest);
      PushAllAppend(State(0, 3, 0, InProgress, buf), Letters(Cell(data[0], data[1], data[2])), Body(rest));
      Rejoin(buf, data, k);
    }
  }

  lemma Rejoin(buf: seq<Byte>, data: seq<Byte>, k: nat)
    requires 3 <= k <= |data|
    ensures data[3..][k - 3..] == data[k..]
    ensures buf + [data[0], data[1], data[2]] + data[3..][..k - 3] == buf + data[..k]
  {}

  lemma PushTail(buf: seq<Byte>, data: seq<Byte>)
    requires |data| < 3
    ensures AllLetters(Body(data)) && Gathering(PushAll(State(0, 3, 0, InProgress, buf), Body(data)), Tail(data), buf)
  {
    hide Push, PushAll, Letter, Value, Cell, Gathered, AllLetters;
    var n := Tail(data);
    GatheredNothing();
    PushPartial(State(0, 3, 0, InProgress, buf), [], buf, n);
    assert [] + n == n;
    TailIsBody(data);
  }

  lemma TailIsBody(data: seq<Byte>)
    requires |data| < 3
    ensures Letters(Tail(data)) == Body(data)
  {
    hide Cell, Letter;
  }

  lemma GatheredNothing()
    ensures Gathered([]) == 0
  {}

  /** The state after the prefix x of the encoding. */
  ghost function StateAt(data: seq<Byte>, x: string): (st: State)
    requires x <= Encoding(data)
    ensures st.v < WORD
  {
    BodyLetters(data);
    EncodingIs(data);
    var body := Body(data);
    if |x| <= |body| then
      assert x == body[..|x|];
      PushAll(Start(), x)
    else if |data| % 3 == 1 then Finish(PushAll(Start(), body), 1, 12)
    else Finish(PushAll(Start(), body), 2, 6)
  }

  /** A cut that does not separate the two characters of "==". */
  predicate GoodCut(data: seq<Byte>, x: string) {
    |data| % 3 == 1 ==> |x| != |Encoding(data)| - 1
  }

  lemma BlankStops(st: State, trail: string)
    requires st.v < WORD && AllBlank(trail)
    ensures Scan(st, trail) == (st, true)
  {}

  /** The padding completes the last octets. */
  lemma ScanPadding(data: seq<Byte>, trail: string)
    requires Padding(data) != "" && AllBlank(trail) && AllLetters(Body(data))
    ensures Scan(PushAll(Start(), Body(data)), Padding(data) + trail) == (StateAt(data, Encoding(data)), true)
  {
    hide PushAll, Push, Octets, Cell, Finish;
    PushBody([], data);
    EncodingIs(data);
    var t := Padding(data) + trail;
    assert t[0] == '=' && (|data| % 3 == 1 ==> t[1] == '=');
  }

  datatype Line = Line(lead: string, body: string, trail: string)

  ghost predicate GoodLine(line: Line) {
    (forall i :: 0 <= i < |line.lead| ==> LeadBlank(line.lead[i])) && AllBlank(line.trail)
  }

  lemma {:induction false} SkipLeadAll(lead: string, t: string)
    requires forall i :: 0 <= i < |lead| ==> LeadBlank(lead[i])
    ensures SkipLead(lead + t) == SkipLead(t)
  {
    if lead == "" {
      assert lead + t == t;
    } else {
      assert (lead + t)[1..] == lead[1..] + t;
      SkipLeadAll(lead[1..], t);
    }
  }

  lemma {:induction false} SkipLeadBlank(t: string)
    requires AllBlank(t)
    ensures AllBlank(SkipLead(t))
  {
    if t != "" && LeadBlank(t[0]) { SkipLeadBlank(t[1..]); }
  }

  /** One line moves the decoder from one good cut to the next. */
  lemma FeedLine(data: seq<Byte>, x: string, line: Line)
    requires GoodLine(line) && x + line.body <= Encoding(data) && GoodCut(data, x) && GoodCut(data, x + line.body)
    ensures x <= Encoding(data)
    ensures Scan(StateAt(data, x), SkipLead(line.lead + line.body + line.trail)) == (StateAt(data, x + line.body), true)
  {
    hide Scan, SkipLead, StateAt, Encoding, AllBlank, GoodCut;
    var body, trail := line.body, line.trail;
    PrefixOf(x, body, Encoding(data));
    assert line.lead + body + trail == line.lead + (body + trail);
    SkipLeadAll(line.lead, body + trail);
    if body == "" {
      assert body + trail == trail && x + body == x;
      SkipLeadBlank(trail);
      BlankStops(StateAt(data, x), SkipLead(trail));
    } else {
      FirstIsText(data, |x|);
      assert body[0] == Encoding(data)[|x|];
      NoLead(body + trail);
      CutInPadding(data, x, body);
      if |x + body| <= |Body(data)| {
        FeedLetters(data, x, body, trail);
      } else {
        CutInPadding(data, x + body, "");
        FeedLast(data, x, body, trail);
      }
    }
  }

  /** A piece of the letters. */
  lemma FeedLetters(data: seq<Byte>, x: string, body: string, trail: string)
    requires x + body <= Encoding(data) && |x + body| <= |Body(data)| && AllBlank(trail) && x <= Encoding(data)
    ensures Scan(StateAt(data, x), body + trail) == (StateAt(data, x + body), true)
  {
    hide Scan, PushAll, AllBlank, AllLetters, Body, Encoding, Padding;
    var letters := Body(data);
    EncodingIs(data);
    BodyLetters(data);
    var i, j := |x|, |x + body|;
    PrefixOf(x, body, letters + Padding(data));
    assert x == letters[..i] && body == letters[i..j];
    SubLetters(letters, i, j);
    ScanLetters(StateAt(data, x), body, trail);
    PushAllAppend(Start(), x, body);
    BlankStops(StateAt(data, x + body), trail);
  }

  /** The last letters and the padding. */
  lemma FeedLast(data: seq<Byte>, x: string, body: string, trail: string)
    requires x + body == Encoding(data) && |x| <= |Body(data)| < |x + body| && AllBlank(trail) && x <= Encoding(data)
    ensures Scan(StateAt(data, x), body + trail) == (StateAt(data, x + body), true)
  {
    hide Scan, PushAll, AllBlank, AllLetters, Body, Encoding;
    var letters := Body(data);
    EncodingIs(data);
    BodyLetters(data);
    var i := |x|;
    PrefixOf(x, body, letters + Padding(data));
    var rest := letters[i..];
    assert x == letters[..i] && body == rest + Padding(data) && x + rest == letters;
    assert letters[i..|letters|] == rest;
    SubLetters(letters, i, |letters|);
    assert body + trail == rest + (Padding(data) + trail);
    ScanLetters(StateAt(data, x), rest, Padding(data) + trail);
    PushAllAppend(Start(), x, rest);
    ScanPadding(data, trail);
  }

  lemma PrefixOf(x: string, body: string, t: string)
    requires x + body <= t
    ensures x <= t && body == t[|x|..|x + body|] && x == t[..|x|]
  {
    assert (x + body)[..|x|] == x;
    assert (x + body)[|x|..] == body;
    assert t[..|x + body|] == x + body;
  }

  /** A good cut beyond the letters is the end. */
  lemma CutInPadding(data: seq<Byte>, x: string, more: string)
    requires x + more <= Encoding(data) && GoodCut(data, x)
    ensures |x| > |Body(data)| ==> |x| == |Encoding(data)|
    ensures more != "" ==> |x| <= |Body(data)|
  {
    EncodingIs(data);
  }

  lemma SubLetters(t: string, i: nat, j: nat)
    requires AllLetters(t) && i <= j <= |t|
    ensures AllLetters(t[..i]) && AllLetters(t[i..j])
  {}

  /** No character of an encoding is a blank. */
  lemma FirstIsText(data: seq<Byte>, i: nat)
    requires i < |Encoding(data)|
    ensures !LeadBlank(Encoding(data)[i])
  {
    EncodingIs(data);
    BodyLetters(data);
    var c := Encoding(data)[i];
    assert i < |Body(data)| ==> c == Body(data)[i];
  }

  lemma NoLead(t: string)
    requires t != "" && !LeadBlank(t[0])
    ensures SkipLead(t) == t
  {}

  ghost function Bodies(lines: seq<Line>): (t: string) {
    if lines == [] then "" else lines[0].body + Bodies(lines[1..])
  }

  /** The lines one after the other; false as soon as one is refused. */
  ghost function DecodeAll(st: State, lines: seq<Line>): (r: (State, bool))
    requires st.v < WORD
    decreases |lines|
  {
    if lines == [] then (st, true)
    else
      var (st', ok) := Scan(st, SkipLead(lines[0].lead + lines[0].body + lines[0].trail));
      if ok then DecodeAll(st', lines[1..]) else (st', false)
  }

  /** Nothing but blanks around the text. */
  ghost predicate GoodLines(lines: seq<Line>) {
    forall i :: 0 <= i < |lines| ==> GoodLine(lines[i])
  }

  /** Every cut between lines is a good one. */
  ghost predicate GoodCuts(data: seq<Byte>, x: string, lines: seq<Line>)
    decreases |lines|
  {
    lines != [] ==> GoodCut(data, x + lines[0].body) && GoodCuts(data, x + lines[0].body, lines[1..])
  }

  /** A line that ends between the two characters of "==" is refused. */
  lemma BadCutIsRefused(data: seq<Byte>, x: string, line: Line)
    requires GoodLine(line) && x + line.body <= Encoding(data) && GoodCut(data, x) && !GoodCut(data, x + line.body)
    ensures x <= Encoding(data) && !Scan(StateAt(data, x), SkipLead(line.lead + line.body + line.trail)).1
  {
    hide Scan, SkipLead, StateAt, Encoding, AllBlank;
    var body, trail := line.body, line.trail;
    PrefixOf(x, body, Encoding(data));
    assert x + "" == x;
    if body != "" {
      assert line.lead + body + trail == line.lead + (body + trail);
      SkipLeadAll(line.lead, body + trail);
      FirstIsText(data, |x|);
      assert body[0] == Encoding(data)[|x|];
      NoLead(body + trail);
      CutInPadding(data, x, body);
      HalfPadding(data, x, body, trail);
    }
  }

  lemma HalfPadding(data: seq<Byte>, x: string, body: string, trail: string)
    requires x + body <= Encoding(data) && |data| % 3 == 1 && |x + body| == |Encoding(data)| - 1 && |x| <= |Body(data)|
    requires AllBlank(trail) && x <= Encoding(data)
    ensures !Scan(StateAt(data, x), body + trail).1
  {
    hide Scan, PushAll, AllBlank, AllLetters, Body, Encoding;
    var letters := Body(data);
    EncodingIs(data);
    BodyLetters(data);
    var i := |x|;
    PrefixOf(x, body, letters + Padding(data));
    var rest := letters[i..];
    assert x == letters[..i] && body == rest + "=" && x + rest == letters;
    assert letters[i..|letters|] == rest;
    SubLetters(letters, i, |letters|);
    assert body + trail == rest + ("=" + trail);
    ScanLetters(StateAt(data, x), rest, "=" + trail);
    PushAllAppend(Start(), x, rest);
    OneIsNotEnough(data, trail);
  }

  lemma OneIsNotEnough(data: seq<Byte>, trail: string)
    requires |data| % 3 == 1 && AllBlank(trail) && AllLetters(Body(data))
    ensures !Scan(PushAll(Start(), Body(data)), "=" + trail).1
  {
    hide PushAll, Push, Octets, Cell, Finish;
    PushBody([], data);
    var t := "=" + trail;
    assert t[0] == '=' && (|t| > 1 ==> t[1] == trail[0]);
  }

  /** Where the lines can be fed, they lead to the end; else one of them is refused. */
  lemma {:induction false} FeedLines(data: seq<Byte>, x: string, lines: seq<Line>)
    requires x + Bodies(lines) == Encoding(data) && GoodCut(data, x) && GoodLines(lines)
    ensures x <= Encoding(data)
    ensures var (st, ok) := DecodeAll(StateAt(data, x), lines);
            (ok <==> GoodCuts(data, x, lines)) && (ok ==> st == StateAt(data, Encoding(data)))
    decreases |lines|
  {
    hide Scan, SkipLead, StateAt, Encoding, GoodCut, GoodLine;
    if lines == [] {
      assert x + Bodies(lines) == x;
    } else {
      var line := lines[0];
      assert x + Bodies(lines) == x + line.body + Bodies(lines[1..]);
      if GoodCut(data, x + line.body) {
        FeedLine(data, x, line);
        FeedLines(data, x + line.body, lines[1..]);
      } else {
        BadCutIsRefused(data, x, line);
      }
    }
  }

  /** For every octet string and every cut of its text into lines between blanks: the decoder gives the
      octets back and has nothing pending, exactly if no line ends between the two characters of "==". */
  lemma DecodeUndoesEncode(data: seq<Byte>, lines: seq<Line>)
    requires Bodies(lines) == Encoding(data) && GoodLines(lines)
    ensures var (st, ok) := DecodeAll(Start(), lines);
            && (ok <==> GoodCuts(data, "", lines))
            && (ok ==> st.buf == data && (st.status == Done || (st.status == InProgress && st.nbc == 0)))
  {
    hide Encoding, DecodeAll, GoodCuts;
    assert "" + Bodies(lines) == Encoding(data);
    EncodingIs(data);
    BodyLetters(data);
    assert StateAt(data, "") == Start();
    FirstCut(data);
    FeedLines(data, "", lines);
    Complete(data);
  }

  lemma FirstCut(data: seq<Byte>)
    ensures GoodCut(data, "")
  {
    EncodingIs(data);
  }

  lemma Complete(data: seq<Byte>)
    ensures var st := StateAt(data, Encoding(data));
            st.buf == data && (st.status == Done || (st.status == InProgress && st.nbc == 0))
  {
    hide PushAll, Push, Cell, Octets, Gathered;
    EncodingIs(data);
    PushBody([], data);
    var k := Whole(|data|);
    var st := PushAll(Start(), Body(data));
    assert [] + data[..k] == data[..k];
    if |data| % 3 == 0 {
      assert data[..k] == data && Body(data) + "" == Body(data);
    } else {
      LastOctets(data[k..]);
      assert data[..k] + data[k..] == data;
    }
  }

  /** What the padding shifts out. */
  lemma LastOctets(rest: seq<Byte>)
    requires 1 <= |rest| <= 2
    ensures |rest| == 1 ==> Gathered(Tail(rest)) < WORD && Octets(Shl(Gathered(Tail(rest)), 12), 1) == rest
    ensures |rest| == 2 ==> Gathered(Tail(rest)) < WORD && Octets(Shl(Gathered(Tail(rest)), 6), 2) == rest
  {
    hide Gathered, Octets, Shl, Cell;
    var a, b := rest[0], if |rest| == 2 then rest[1] else 0;
    var n := Cell(a, b, 0);
    var v: nat := a as nat * 0x1_0000 + b as nat * 0x100;
    CellValue(a, b, 0);
    OctetsOf(a, b, 0);
    CellEnds(a, b);
    CellParts(n);
    OctetsPrefix(v, |rest|);
    if |rest| == 1 {
      GatheredBound(n[..2]);
      ShlSmall(Gathered(n[..2]), 12);
    } else {
      GatheredBound(n[..3]);
      ShlSmall(Gathered(n[..3]), 6);
    }
  }

  lemma CellEnds(a: Byte, b: Byte)
    ensures Cell(a, b, 0)[3] == 0 && (b == 0 ==> Cell(a, b, 0)[2] == 0)
  {}

  lemma OctetsPrefix(v: nat, n: nat)
    requires n <= 3
    ensures Octets(v, n) == Octets(v, 3)[..n]
  {}

  lemma ShlSmall(v: nat, bits: nat)
    requires v < 0x4_0000 && (bits == 6 || (bits == 12 && v < 0x1000))
    ensures Shl(v, bits) == if bits == 6 then v * 64 else v * 4096
  {}

  lemma CellParts(n: seq<Sextet>)
    requires |n| == 4
    ensures n[3] == 0 ==> Gathered(n) == Gathered(n[..3]) * 64
    ensures n[3] == 0 && n[2] == 0 ==> Gathered(n) == Gathered(n[..2]) * 4096
  {
    assert n[..3][..2] == n[..2];
  }
}
