/** The BER walker of lib/asn1.c: type and length octets, and the recursive validation of one element
    inside a bounded piece of memory. */
module Ber {
  import opened Common
  import opened Arith

  /** PTLS_ERROR_BER_*; a later error replaces an earlier one. */
  datatype Status = Ok | MalformedType | MalformedLength | ExcessiveLength | UnexpectedEoc | ElementTooShort

  const WORD: nat := 0x1_0000_0000
  const TYPE_LIMIT: nat := 0x7FFF_FFFF

  // ----- types and lengths ---------------------------------------------------------------------------------------

  /** The digits of a long type number: its value in 32 bits, how many octets, whether the end was found. */
  function LongType(t: seq<Byte>, acc: nat): (r: (nat, nat, bool))
    requires acc < WORD
    ensures r.0 < WORD && r.1 <= |t|
  {
    if t == [] || acc > TYPE_LIMIT then (acc, 0, false)
    else
      var next := Digit(acc, t[0]);
      if t[0] < 128 then (next, 1, true)
      else
        var (n, k, found) := LongType(t[1..], next);
        (n, k + 1, found)
  }

  /** One base-128 digit more: the accumulator keeps 32 bits. */
  function Digit(acc: nat, b: Byte): (n: nat)
    ensures n < WORD
  {
    Carryless(acc);
    (acc * 128) % WORD + b % 128
  }

  lemma Carryless(acc: nat)
    ensures (acc * 128) % WORD <= WORD - 128
  {
    var q, r := acc / 0x200_0000, acc % 0x200_0000;
    assert acc * 128 == q * WORD + r * 128;
    DivModUnique(acc * 128, WORD, q, r * 128);
  }

  datatype TypeInfo = TypeInfo(structured: bool, cls: nat, number: nat, index: nat, status: Status)

  /** ptls_asn1_read_type */
  function ReadType(s: seq<Byte>, status: Status): (t: TypeInfo)
    requires s != []
    ensures 1 <= t.index <= |s|
  {
    var short := TypeInfo((s[0] / 32) % 2 == 1, s[0] / 64, s[0] % 32, 1, status);
    if s[0] % 32 != 31 then short
    else
      var (n, k, found) := LongType(s[1..], 0);
      if found then short.(number := n, index := 1 + k) else short.(index := 1 + k, status := MalformedType)
  }

  /** One octet more: the accumulator keeps 32 bits. */
  function Shifted(acc: nat, b: Byte): (n: nat)
    ensures n < WORD
  {
    OctetRoom(acc);
    (acc * 256) % WORD + b
  }

  /** A big-endian number in 32 bits: leading octets are shifted out. */
  function BigEndian(s: seq<Byte>): (n: nat)
    ensures n < WORD
  {
    if s == [] then 0 else Shifted(BigEndian(s[..|s| - 1]), s[|s| - 1])
  }

  lemma OctetRoom(acc: nat)
    ensures (acc * 256) % WORD <= WORD - 256
  {
    var q, r := acc / 0x100_0000, acc % 0x100_0000;
    assert acc * 256 == q * WORD + r * 256;
    DivModUnique(acc * 256, WORD, q, r * 256);
  }

  datatype LengthInfo = LengthInfo(length: nat, indefinite: bool, last: nat, index: nat, status: Status)

  /** ptls_asn1_read_length: `last` may lie beyond s, and then the status is an error unless one was
      pending.  A missing length octet is not an error: the element is taken to fill s. */
  function ReadLength(s: seq<Byte>, index: nat, status: Status): (l: LengthInfo)
    requires 1 <= index <= |s|
    ensures index <= l.index <= |s| && l.index <= l.last && l.length < WORD
    ensures l.last > |s| ==> l.status != Ok
    ensures l.indefinite ==> l.last == |s|
  {
    if index == |s| then LengthInfo(0, false, |s|, index, status)
    else
      var b := s[index];
      var i := index + 1;
      if b < 128 then Checked(|s|, LengthInfo(b, false, i + b, i, status))
      else
        var k := b - 128;
        if i + k >= |s| then LengthInfo(0, false, |s|, i, MalformedLength)
        else if k == 0 then LengthInfo(0, true, |s|, i, status)
        else
          var n := BigEndian(s[i..i + k]);
          Checked(|s|, LengthInfo(n, false, i + k + n, i + k, status))
  }

  function Checked(max: nat, l: LengthInfo): (r: LengthInfo) {
    if l.status == Ok && l.last > max then l.(status := ExcessiveLength) else l
  }

  // ----- the walk --------------------------------------------------------------------------------------------------

  /** ptls_asn1_validation_recursive: octets consumed and status. */
  function Walk(s: seq<Byte>, status: Status): (r: (nat, Status))
    requires s != []
    ensures 1 <= r.0 <= |s|
    decreases |s|, 1, 0
  {
    var t := ReadType(s, status);
    var l := ReadLength(s, t.index, t.status);
    if l.last > |s| then (l.index, l.status)
    else if t.structured then Children(s, l.last, l.index, l.indefinite, l.status)
    else (l.last, l.status)
  }

  /** The loop over the elements inside a constructed one. */
  function Children(s: seq<Byte>, last: nat, i: nat, indefinite: bool, status: Status): (r: (nat, Status))
    requires 1 <= i <= last <= |s| && (indefinite ==> last == |s|)
    ensures i <= r.0 <= |s|
    decreases |s|, 0, last - i
  {
    if i == last then (i, status)
    else if indefinite && s[i] == 0 then
      if i + 2 > |s| || s[i + 1] != 0 then (|s|, UnexpectedEoc) else (i + 2, status)
    else
      var (n, status') := Walk(s[i..last], status);
      if status' != Ok then (|s|, status') else Children(s, last, i + n, indefinite, status')
  }

  /** ptls_asn1_validation */
  function Validate(s: seq<Byte>): (status: Status)
    requires s != []
  {
    var (n, status) := Walk(s, Ok);
    if status == Ok && n < |s| then ElementTooShort else status
  }

  // ----- the same in place -------------------------------------------------------------------------------------------

  /** The octets of the piece of memory at off. */
  ghost function Piece(bytes: array<Byte>, off: nat, max: nat): (s: seq<Byte>)
    requires off + max <= bytes.Length
    reads bytes
    ensures |s| == max
  {
    bytes[off..off + max]
  }

  lemma SubPiece(bytes: array<Byte>, off: nat, max: nat, i: nat, j: nat)
    requires off + max <= bytes.Length && i <= j <= max
    ensures Piece(bytes, off, max)[i..j] == bytes[off + i..off + j] == Piece(bytes, off + i, j - i)
    ensures forall k :: 0 <= k < max ==> Piece(bytes, off, max)[k] == bytes[off + k]
  {
    var s := Piece(bytes, off, max);
    forall k | 0 <= k < j - i
      ensures s[i..j][k] == bytes[off + i..off + j][k]
    {}
  }

  /** The loop of ptls_asn1_read_type. */
  method ReadLongType(bytes: array<Byte>, off: nat, max: nat) returns (number: nat, index: nat, found: bool)
    requires 1 <= max && off + max <= bytes.Length
    ensures (number, index - 1, found) == LongType(Piece(bytes, off, max)[1..], 0) && 1 <= index <= max
  {
    hide Digit;
    ghost var t := Piece(bytes, off, max)[1..];
    number, index, found := 0, 1, false;
    assert t[0..] == t;
    while index < max && number <= TYPE_LIMIT
      invariant 1 <= index <= max && number < WORD && !found
      invariant LongType(t, 0) == (var (n, k, f) := LongType(t[index - 1..], number); (n, k + index - 1, f))
    {
      var next := bytes[off + index];
      assert next == t[index - 1] && t[index - 1..][1..] == t[index..];
      index := index + 1;
      number := Digit(number, next);
      if next < 128 {
        found := true;
        break;
      }
    }
  }

  method TypeOf(bytes: array<Byte>, off: nat, max: nat, status: Status) returns (t: TypeInfo)
    requires 1 <= max && off + max <= bytes.Length
    ensures t == ReadType(Piece(bytes, off, max), status)
  {
    var first := bytes[off];
    t := TypeInfo((first / 32) % 2 == 1, first / 64, first % 32, 1, status);
    if first % 32 == 31 {
      var number, index, found := ReadLongType(bytes, off, max);
      t := if found then t.(number := number, index := index) else t.(index := index, status := MalformedType);
    }
  }

  method LengthOf(bytes: array<Byte>, off: nat, max: nat, index: nat, status: Status) returns (l: LengthInfo)
    requires 1 <= index <= max && off + max <= bytes.Length
    ensures l == ReadLength(Piece(bytes, off, max), index, status)
  {
    hide BigEndian;
    ghost var s := Piece(bytes, off, max);
    l := LengthInfo(0, false, max, index, status);
    if index < max {
      assert s[index] == bytes[off + index];
      var i := index + 1;
      var b: nat := bytes[off + index];
      if b >= 128 {
        var k := b - 128;
        if i + k >= max {
          return l.(index := i, status := MalformedLength);
        }
        if k == 0 {
          return l.(index := i, indefinite := true);
        }
        SubPiece(bytes, off, max, i, i + k);
        var n := NumberAt(bytes, off + i, k);
        l := LengthInfo(n, false, i + k + n, i + k, status);
      } else {
        l := LengthInfo(b, false, i + b, i, status);
      }
      if status == Ok && l.last > max { l := l.(status := ExcessiveLength); }
    }
  }

  /** The loop over the length octets. */
  method NumberAt(bytes: array<Byte>, off: nat, k: nat) returns (n: nat)
    requires off + k <= bytes.Length
    ensures n == BigEndian(bytes[off..off + k])
  {
    n := 0;
    for i := 0 to k
      invariant n == BigEndian(bytes[off..off + i])
    {
      assert bytes[off..off + i + 1][..i] == bytes[off..off + i];
      n := Shifted(n, bytes[off + i]);
    }
  }

  /** ptls_asn1_validation_recursive: every read lies inside the piece, and the walk comes to an end. */
  method ValidationRecursive(bytes: array<Byte>, off: nat, max: nat, status: Status)
    returns (index: nat, status': Status)
    requires 1 <= max && off + max <= bytes.Length
    ensures (index, status') == Walk(Piece(bytes, off, max), status) && 1 <= index <= max
    decreases max, 1
  {
    hide ReadType, ReadLength, Children;
    var t := TypeOf(bytes, off, max, status);
    var l := LengthOf(bytes, off, max, t.index, t.status);
    if l.last > max {
      index, status' := l.index, l.status;
    } else if t.structured {
      index, status' := WalkChildren(bytes, off, max, l.last, l.index, l.indefinite, l.status);
    } else {
      index, status' := l.last, l.status;
    }
  }

  /** Its loop over the elements of a constructed element. */
  method WalkChildren(bytes: array<Byte>, off: nat, max: nat, last: nat, first: nat, indefinite: bool, status: Status)
    returns (index: nat, status': Status)
    requires off + max <= bytes.Length && 1 <= first <= last <= max && (indefinite ==> last == max)
    ensures (index, status') == Children(Piece(bytes, off, max), last, first, indefinite, status)
    decreases max, 0
  {
    hide Walk, Piece;
    ghost var s := Piece(bytes, off, max);
    index, status' := first, status;
    while index < last
      invariant first <= index <= last
      invariant Children(s, last, first, indefinite, status) == Children(s, last, index, indefinite, status')
      decreases last - index
    {
      SubPiece(bytes, off, max, index, last);
      if indefinite && bytes[off + index] == 0 {
        if index + 2 > max || bytes[off + index + 1] != 0 {
          return max, UnexpectedEoc;
        }
        return index + 2, status';
      }
      var n;
      n, status' := ValidationRecursive(bytes, off + index, last - index, status');
      if status' != Ok { return max, status'; }
      index := index + n;
    }
  }

  /** ptls_asn1_validation, on a non-empty input. */
  method Validation(bytes: array<Byte>, length: nat) returns (status: Status)
    requires 1 <= length <= bytes.Length
    ensures status == Validate(bytes[..length])
  {
    var decoded;
    decoded, status := ValidationRecursive(bytes, 0, length, Ok);
    assert Piece(bytes, 0, length) == bytes[..length];
    if status == Ok && decoded < length { status := ElementTooShort; }
  }

  // ----- encodings ---------------------------------------------------------------------------------------------------

  /** A BER element: primitive, or constructed with a definite or an indefinite length. */
  datatype Node =
    | Prim(cls: nat, number: nat, content: seq<Byte>)
    | Cons(cls: nat, number: nat, children: seq<Node>, indefinite: bool)

  /** Base-128 digits of n, most significant first, all but possibly the last with the continuation bit. */
  function Digits(n: nat, final: bool): (s: seq<Byte>)
    ensures s != []
  {
    var d: nat := n % 128 + if final then 0 else 128;
    if n < 128 then [d] else Digits(n / 128, false) + [d]
  }

  function EncodeType(cls: nat, structured: bool, number: nat): (s: seq<Byte>)
    requires cls < 4
    ensures s != []
  {
    var first: nat := cls * 64 + (if structured then 32 else 0) + if number < 31 then number else 31;
    [first] + if number < 31 then [] else Digits(number, true)
  }

  /** The fewest octets that hold n. */
  function Octets(n: nat): (s: seq<Byte>)
    ensures s != []
  {
    if n < 256 then [n] else Octets(n / 256) + [n % 256]
  }

  function EncodeLength(n: nat): (s: seq<Byte>)
    requires n < WORD
    ensures s != []
  {
    OctetsShort(n);
    if n < 128 then [n] else [128 + |Octets(n)|] + Octets(n)
  }

  lemma OctetsShort(n: nat)
    requires n < WORD
    ensures |Octets(n)| <= 4
  {
    OctetsBelow(n / 256 / 256 / 256, 1);
    OctetsBelow(n / 256 / 256, 2);
    OctetsBelow(n / 256, 3);
  }

  lemma OctetsBelow(n: nat, k: nat)
    requires n < 256 || (k > 1 && |Octets(n / 256)| < k)
    ensures n < 256 ==> |Octets(n)| == 1
    ensures |Octets(n)| <= k || k == 0
  {
  }

  ghost function Encode(n: Node): (s: seq<Byte>)
    requires WellFormed(n)
    ensures s != []
    decreases n, 1
  {
    match n
    case Prim(cls, number, content) => EncodeType(cls, false, number) + EncodeLength(|content|) + content
    case Cons(cls, number, children, indefinite) =>
      if indefinite then EncodeType(cls, true, number) + [128] + EncodeAll(children) + [0, 0]
      else EncodeType(cls, true, number) + EncodeLength(|EncodeAll(children)|) + EncodeAll(children)
  }

  ghost function EncodeAll(ns: seq<Node>): (s: seq<Byte>)
    requires forall i :: 0 <= i < |ns| ==> WellFormed(ns[i])
    decreases ns, 0
  {
    if ns == [] then [] else Encode(ns[0]) + EncodeAll(ns[1..])
  }

  /** 32-bit numbers and lengths; inside an indefinite length no element may look like its end. */
  ghost predicate WellFormed(n: Node)
    decreases n, 0
  {
    && n.cls < 4 && n.number < WORD
    && match n
       case Prim(_, _, content) => |content| < WORD
       case Cons(_, _, children, indefinite) =>
         && (forall i :: 0 <= i < |children| ==> WellFormed(children[i]))
         && (if indefinite then forall i :: 0 <= i < |children| ==> Encode(children[i])[0] != 0
             else |EncodeAll(children)| < WORD)
  }

  // ----- every encoding validates ------------------------------------------------------------------------------------

  /** One digit while the accumulator is short. */
  lemma LongTypeStep(b: Byte, t: seq<Byte>, acc: nat)
    requires acc < 0x200_0000
    ensures var next := acc * 128 + b % 128;
            next < WORD && LongType([b] + t, acc) ==
              if b < 128 then (next, 1, true) else var (v, k, f) := LongType(t, next); (v, k + 1, f)
  {
    DivModUnique(acc * 128, WORD, 0, acc * 128);
    assert ([b] + t)[1..] == t;
  }

  lemma {:induction false} DigitsContinue(n: nat, t: seq<Byte>)
    requires n < 0x200_0000
    ensures var (v, k, f) := LongType(t, n); LongType(Digits(n, false) + t, 0) == (v, k + |Digits(n, false)|, f)
    decreases n
  {
    hide LongType;
    var d: nat := n % 128 + 128;
    if n < 128 {
      LongTypeStep(d, t, 0);
    } else {
      DigitsContinue(n / 128, [d] + t);
      assert Digits(n, false) + t == Digits(n / 128, false) + ([d] + t);
      LongTypeStep(d, t, n / 128);
      Rebuild(n);
    }
  }

  lemma Rebuild(n: nat)
    ensures (n / 128) * 128 + (n % 128 + 128) % 128 == n && (n / 128) * 128 + n % 128 == n
  {}

  /** The long form of every 32-bit type number is read back. */
  lemma LongTypeReads(n: nat, t: seq<Byte>)
    requires n < WORD
    ensures LongType(Digits(n, true) + t, 0) == (n, |Digits(n, true)|, true)
  {
    hide LongType;
    var d: nat := n % 128;
    if n < 128 {
      LongTypeStep(d, t, 0);
    } else {
      DigitsContinue(n / 128, [d] + t);
      assert Digits(n, true) + t == Digits(n / 128, false) + ([d] + t);
      LongTypeStep(d, t, n / 128);
      Rebuild(n);
    }
  }

  lemma TypeReads(cls: nat, structured: bool, number: nat, t: seq<Byte>)
    requires cls < 4 && number < WORD
    ensures var e := EncodeType(cls, structured, number);
            ReadType(e + t, Ok) == TypeInfo(structured, cls, number, |e|, Ok)
  {
    var e := EncodeType(cls, structured, number);
    assert (e + t)[0] == e[0];
    if number >= 31 {
      assert (e + t)[1..] == Digits(number, true) + t;
      LongTypeReads(number, t);
    }
  }

  lemma {:induction false} OctetsRead(n: nat)
    requires n < WORD
    ensures BigEndian(Octets(n)) == n
  {
    var s := Octets(n);
    if n < 256 {
      assert s[..0] == [];
    } else {
      OctetsRead(n / 256);
      assert s[..|s| - 1] == Octets(n / 256);
      assert n / 256 * 256 + n % 256 == n;
    }
  }

  /** A definite length that fits is read back, with the end of the content. */
  lemma LengthReads(h: seq<Byte>, n: nat, t: seq<Byte>)
    requires h != [] && n < WORD && n <= |t|
    ensures var e := EncodeLength(n); var i := |h| + |e|;
            ReadLength(h + e + t, |h|, Ok) == LengthInfo(n, false, i + n, i, Ok)
  {
    var e := EncodeLength(n);
    var s := h + e + t;
    assert s[|h|] == e[0];
    if n >= 128 {
      OctetsShort(n);
      OctetsRead(n);
      assert s[|h| + 1..|h| + |e|] == Octets(n);
    }
  }

  lemma IndefiniteReads(h: seq<Byte>, t: seq<Byte>)
    requires h != [] && t != []
    ensures var s := h + [128] + t; ReadLength(s, |h|, Ok) == LengthInfo(0, true, |s|, |h| + 1, Ok)
  {
    assert (h + [128] + t)[|h|] == 128;
  }

  /** Type and length of a definite encoding are read back, and the walk goes on with its content. */
  lemma WalkDefinite(cls: nat, structured: bool, number: nat, content: seq<Byte>, t: seq<Byte>)
    requires cls < 4 && number < WORD && |content| < WORD
    ensures var h := EncodeType(cls, structured, number) + EncodeLength(|content|);
            var s, end := h + content + t, |h| + |content|;
            Walk(s, Ok) == if structured then Children(s, end, |h|, false, Ok) else (end, Ok)
  {
    hide ReadType, ReadLength, Children, EncodeType, EncodeLength;
    var h, e := EncodeType(cls, structured, number), EncodeLength(|content|);
    var s := h + e + content + t;
    assert s == h + (e + content + t) == h + e + (content + t);
    TypeReads(cls, structured, number, e + content + t);
    LengthReads(h, |content|, content + t);
  }

  lemma WalkIndefinite(cls: nat, number: nat, content: seq<Byte>, t: seq<Byte>)
    requires cls < 4 && number < WORD && t != []
    ensures var h := EncodeType(cls, true, number) + [128];
            var s := h + content + t;
            Walk(s, Ok) == Children(s, |s|, |h|, true, Ok)
  {
    hide ReadType, ReadLength, Children, EncodeType;
    var h := EncodeType(cls, true, number);
    var s := h + [128] + content + t;
    assert s == h + ([128] + content + t) == h + [128] + (content + t);
    TypeReads(cls, true, number, [128] + content + t);
    IndefiniteReads(h, content + t);
  }

  /** Whatever follows, an encoding is walked without error and consumed exactly. */
  lemma {:induction false} WalkEncoding(n: Node, t: seq<Byte>)
    requires WellFormed(n)
    ensures Walk(Encode(n) + t, Ok) == (|Encode(n)|, Ok)
    decreases n, 1
  {
    hide Walk, Children, EncodeType, EncodeLength, EncodeAll, WellFormed;
    UnfoldWellFormed(n);
    var s := Encode(n) + t;
    match n
    case Prim(cls, number, content) =>
      WalkDefinite(cls, false, number, content, t);
    case Cons(cls, number, children, indefinite) =>
      var body := EncodeAll(children);
      if indefinite {
        var h := EncodeType(cls, true, number) + [128];
        assert s == h + body + ([0, 0] + t);
        WalkIndefinite(cls, number, body, [0, 0] + t);
        ChildrenEncoding(children, h, [0, 0] + t, true);
        EocEnds(s, |h| + |body|);
      } else {
        var h := EncodeType(cls, true, number) + EncodeLength(|body|);
        WalkDefinite(cls, true, number, body, t);
        ChildrenEncoding(children, h, t, false);
        ContentEnds(s, |h| + |body|);
      }
  }

  lemma UnfoldWellFormed(n: Node)
    requires WellFormed(n)
    ensures n.cls < 4 && n.number < WORD
    ensures n.Prim? ==> |n.content| < WORD
    ensures n.Cons? ==> (forall i :: 0 <= i < |n.children| ==> WellFormed(n.children[i]))
                        && (n.indefinite ==> forall i :: 0 <= i < |n.children| ==> Encode(n.children[i])[0] != 0)
                        && (!n.indefinite ==> |EncodeAll(n.children)| < WORD)
  {}

  lemma EocEnds(s: seq<Byte>, i: nat)
    requires 1 <= i && i + 2 <= |s| && s[i] == 0 && s[i + 1] == 0
    ensures Children(s, |s|, i, true, Ok) == (i + 2, Ok)
  {}

  lemma ContentEnds(s: seq<Byte>, i: nat)
    requires 1 <= i <= |s|
    ensures Children(s, i, i, false, Ok) == (i, Ok)
  {}

  lemma ChildrenStep(s: seq<Byte>, last: nat, i: nat, indefinite: bool, n: nat)
    requires 1 <= i < last <= |s| && (indefinite ==> last == |s| && s[i] != 0) && Walk(s[i..last], Ok) == (n, Ok)
    ensures i + n <= last && Children(s, last, i, indefinite, Ok) == Children(s, last, i + n, indefinite, Ok)
  {
    hide Walk;
  }

  lemma FirstOf(h: seq<Byte>, first: seq<Byte>, rest: seq<Byte>, t: seq<Byte>, indefinite: bool)
    requires first != []
    ensures var s := h + (first + rest) + t;
            && s == (h + first) + rest + t && s[|h|] == first[0]
            && s[|h|..if indefinite then |s| else |h| + |first + rest|] == first + if indefinite then rest + t else rest
  {}

  /** The loop walks over the encodings of all children and stands right behind them. */
  lemma {:induction false} ChildrenEncoding(ns: seq<Node>, h: seq<Byte>, t: seq<Byte>, indefinite: bool)
    requires h != [] && forall i :: 0 <= i < |ns| ==> WellFormed(ns[i])
    requires indefinite ==> forall i :: 0 <= i < |ns| ==> Encode(ns[i])[0] != 0
    ensures var s, end := h + EncodeAll(ns) + t, |h| + |EncodeAll(ns)|;
            var last := if indefinite then |s| else end;
            Children(s, last, |h|, indefinite, Ok) == Children(s, last, end, indefinite, Ok)
    decreases ns, 0
  {
    hide Walk, Encode, WellFormed, Children;
    if ns != [] {
      var first, rest := Encode(ns[0]), EncodeAll(ns[1..]);
      var s, end := h + EncodeAll(ns) + t, |h| + |EncodeAll(ns)|;
      var last := if indefinite then |s| else end;
      var tail := if indefinite then rest + t else rest;
      FirstOf(h, first, rest, t, indefinite);
      WalkEncoding(ns[0], tail);
      ChildrenStep(s, last, |h|, indefinite, |first|);
      ChildrenEncoding(ns[1..], h + first, t, indefinite);
    }
  }

  /** The encoding of every tree is valid. */
  lemma EncodingsValidate(n: Node)
    requires WellFormed(n)
    ensures Validate(Encode(n)) == Ok
  {
    hide Walk, WellFormed;
    WalkEncoding(n, []);
    assert Encode(n) + [] == Encode(n);
  }
}
