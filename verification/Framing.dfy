/** The fixed 96-byte control message and its layout. */
module Framing {
  import opened Types

  const MSG_SIZE: nat := 96
  const NAME_SIZE: nat := 32

  const REGISTER_ACK: nat := 2
  const UNREGISTER_ACK: nat := 4
  const PATH_EVENT: nat := 7

  const ERROR_NONE: nat := 0
  const ERROR_INVALID_MESSAGE: nat := 1
  const ERROR_UNKNOWN_CLASS: nat := 2

  type uint32 = x: nat | x < TWO32
  type uint64 = x: nat | x < TWO64

  /** The struct as the code fills it: the two names are raw 32-byte buffers. */
  datatype ApiMsg = ApiMsg(
    kind: uint32, error: uint32, handle: uint64, pid: int32, rssi: int32, state: uint32, pad: uint32,
    classId: seq<char>, iface: seq<char>)

  const EMPTY_NAME: seq<char> := seq(NAME_SIZE, _ => '\0')
  const ZERO_MSG := ApiMsg(0, 0, 0, 0, 0, 0, 0, EMPTY_NAME, EMPTY_NAME)

  function StateCode(s: PathState): uint32 {
    match s
    case Idle => 0
    case Scanning => 1
    case Connecting => 2
    case PathUp => 3
    case PathDegraded => 4
    case PathDown => 5
  }

  /** Characters that are single bytes. */
  ghost predicate Bytes(s: seq<char>) {
    forall i :: 0 <= i < |s| ==> s[i] as int < 256
  }

  ghost predicate MsgOk(m: ApiMsg) {
    && |m.classId| == NAME_SIZE && Bytes(m.classId)
    && |m.iface| == NAME_SIZE && Bytes(m.iface)
  }

  // ---- names in 32-byte buffers ----

  /** Length up to the first NUL, at most `limit`. */
  function Strnlen(s: seq<char>, limit: nat): (n: nat)
    ensures n <= limit && n <= |s|
    ensures forall i :: 0 <= i < n ==> s[i] != '\0'
    ensures n < limit && n < |s| ==> s[n] == '\0'
  {
    if limit == 0 || s == [] || s[0] == '\0' then 0 else 1 + Strnlen(s[1..], limit - 1)
  }

  /** A bounded copy of at most 31 bytes into a zeroed buffer. */
  function NameToBuffer(s: string): (b: seq<char>)
    ensures |b| == NAME_SIZE
  {
    var n := Strnlen(s, NAME_SIZE - 1);
    s[..n] + seq(NAME_SIZE - n, _ => '\0')
  }

  function BufferToName(b: seq<char>): string {
    b[..Strnlen(b, NAME_SIZE)]
  }

  /** A name survives the buffer exactly when it is NUL-free and at most 31 bytes long. */
  lemma NameRoundTripIff(s: string)
    ensures BufferToName(NameToBuffer(s)) == s
      <==> |s| < NAME_SIZE && forall i :: 0 <= i < |s| ==> s[i] != '\0'
  {
    var n := Strnlen(s, NAME_SIZE - 1);
    var b := NameToBuffer(s);
    assert b[n] == '\0';
    assert forall i :: 0 <= i < n ==> b[i] == s[i];
    assert Strnlen(b, NAME_SIZE) == n;
    assert b[..n] == s[..n];
    if n == |s| {
      assert s[..n] == s;
    }
  }

  /** What the buffer holds of any name: its bytes up to a NUL or the 31st, and NULs from there on. */
  lemma NameBytes(s: string, n: nat)
    requires n <= |s| && n < NAME_SIZE && (forall i :: 0 <= i < n ==> s[i] != '\0')
    requires n == NAME_SIZE - 1 || n == |s| || s[n] == '\0'
    ensures forall i :: 0 <= i < NAME_SIZE ==> NameToBuffer(s)[i] == if i < n then s[i] else '\0'
    ensures BufferToName(NameToBuffer(s)) == s[..n]
  {
    var b := NameToBuffer(s);
    assert Strnlen(s, NAME_SIZE - 1) == n;
    assert Strnlen(b, NAME_SIZE) == n by {
      assert b[n] == '\0' && forall i :: 0 <= i < n ==> b[i] == s[i];
    }
    assert b[..n] == s[..n];
  }

  // ---- the numbers a client sees ----

  /** States by number, in the order in which they are declared. */
  const STATES_IN_ORDER := [Idle, Scanning, Connecting, PathUp, PathDegraded, PathDown]

  /** The numbers of states, of the message kinds the server sends, and of its errors. */
  lemma WireNumbers(s: PathState)
    ensures StateCode(s) < |STATES_IN_ORDER| && STATES_IN_ORDER[StateCode(s)] == s
    ensures REGISTER_ACK == 2 && UNREGISTER_ACK == 4 && PATH_EVENT == 7
    ensures ERROR_NONE == 0 && ERROR_INVALID_MESSAGE == 1 && ERROR_UNKNOWN_CLASS == 2
  {
    match s
    case Idle =>
    case Scanning =>
    case Connecting =>
    case PathUp =>
    case PathDegraded =>
    case PathDown =>
  }

  // ---- integers, least significant byte first ----

  function Put32(x: uint32): (b: seq<char>)
    ensures |b| == 4 && Bytes(b)
  {
    var q := x / 0x100;
    var r := q / 0x100;
    [(x % 0x100) as char, (q % 0x100) as char, (r % 0x100) as char, (r / 0x100) as char]
  }

  function Get32(b: seq<char>): uint32
    requires |b| == 4 && Bytes(b)
  {
    b[0] as int + 0x100 * (b[1] as int + 0x100 * (b[2] as int + 0x100 * b[3] as int))
  }

  function Put64(x: uint64): (b: seq<char>)
    ensures |b| == 8 && Bytes(b)
  {
    Put32(x % TWO32) + Put32(x / TWO32)
  }

  function Get64(b: seq<char>): uint64
    requires |b| == 8 && Bytes(b)
  {
    Get32(b[..4]) + TWO32 * Get32(b[4..])
  }

  function Unsigned(x: int32): uint32 {
    if x < 0 then x + TWO32 else x
  }

  function Signed(x: uint32): int32 {
    if x < 0x8000_0000 then x else x - TWO32
  }

  lemma Get32Put32(x: uint32)
    ensures Get32(Put32(x)) == x
  {}

  lemma Put32Get32(b: seq<char>)
    requires |b| == 4 && Bytes(b)
    ensures Put32(Get32(b)) == b
  {
    var r := b[2] as int + 0x100 * b[3] as int;
    var q := b[1] as int + 0x100 * r;
    assert Get32(b) == b[0] as int + 0x100 * q;
    assert Get32(b) / 0x100 == q && q / 0x100 == r && r / 0x100 == b[3] as int;
  }

  lemma Get64Put64(x: uint64)
    ensures Get64(Put64(x)) == x
  {
    var lo, hi := Put32(x % TWO32), Put32(x / TWO32);
    assert (lo + hi)[..4] == lo && (lo + hi)[4..] == hi;
    Get32Put32(x % TWO32);
    Get32Put32(x / TWO32);
  }

  lemma WordsSplit(lo: uint32, hi: uint32)
    ensures (lo + TWO32 * hi) % TWO32 == lo && (lo + TWO32 * hi) / TWO32 == hi
  {}

  lemma Put64Words(lo: uint32, hi: uint32)
    ensures Put64(lo + TWO32 * hi) == Put32(lo) + Put32(hi)
  {
    WordsSplit(lo, hi);
  }

  lemma HalvesPutBack(lo: seq<char>, hi: seq<char>)
    requires |lo| == |hi| == 4 && Bytes(lo) && Bytes(hi)
    ensures Put64(Get32(lo) + TWO32 * Get32(hi)) == lo + hi
  {
    var x, y := Get32(lo), Get32(hi);
    Put64Words(x, y);
    Put32Get32(lo);
    Put32Get32(hi);
  }

  lemma Put64Get64(b: seq<char>)
    requires |b| == 8 && Bytes(b)
    ensures Put64(Get64(b)) == b
  {
    HalvesPutBack(b[..4], b[4..]);
    assert b == b[..4] + b[4..];
  }

  // ---- the message ----

  const HEAD_SIZE: nat := 32

  function EncodeHead(m: ApiMsg): (b: seq<char>)
    ensures |b| == HEAD_SIZE && Bytes(b)
  {
    Put32(m.kind) + Put32(m.error) + Put64(m.handle) + Put32(Unsigned(m.pid)) + Put32(Unsigned(m.rssi))
    + Put32(m.state) + Put32(m.pad)
  }

  function Encode(m: ApiMsg): (b: seq<char>)
    requires MsgOk(m)
    ensures |b| == MSG_SIZE && Bytes(b)
  {
    EncodeHead(m) + m.classId + m.iface
  }

  function DecodeParts(h: seq<char>, classId: seq<char>, iface: seq<char>): ApiMsg
    requires |h| == HEAD_SIZE && Bytes(h)
  {
    ApiMsg(Get32(h[0..4]), Get32(h[4..8]), Get64(h[8..16]), Signed(Get32(h[16..20])), Signed(Get32(h[20..24])),
           Get32(h[24..28]), Get32(h[28..32]), classId, iface)
  }

  function Decode(b: seq<char>): (m: ApiMsg)
    requires |b| == MSG_SIZE && Bytes(b)
    ensures MsgOk(m)
  {
    DecodeParts(b[..32], b[32..64], b[64..96])
  }

  lemma HeadFields(kind: seq<char>, error: seq<char>, handle: seq<char>, pid: seq<char>, rssi: seq<char>,
                   state: seq<char>, pad: seq<char>)
    requires |kind| == |error| == |pid| == |rssi| == |state| == |pad| == 4 && |handle| == 8
    ensures var h := kind + error + handle + pid + rssi + state + pad;
      && |h| == HEAD_SIZE
      && h[0..4] == kind && h[4..8] == error && h[8..16] == handle && h[16..20] == pid && h[20..24] == rssi
      && h[24..28] == state && h[28..32] == pad
  {}

  lemma DecodeHead(m: ApiMsg)
    ensures DecodeParts(EncodeHead(m), m.classId, m.iface) == m
  {
    HeadFields(Put32(m.kind), Put32(m.error), Put64(m.handle), Put32(Unsigned(m.pid)), Put32(Unsigned(m.rssi)),
               Put32(m.state), Put32(m.pad));
    Get32Put32(m.kind);
    Get32Put32(m.error);
    Get64Put64(m.handle);
    Get32Put32(Unsigned(m.pid));
    Get32Put32(Unsigned(m.rssi));
    Get32Put32(m.state);
    Get32Put32(m.pad);
  }

  /** Decoding undoes encoding for every message. */
  lemma DecodeEncode(m: ApiMsg)
    requires MsgOk(m)
    ensures Decode(Encode(m)) == m
  {
    var b := Encode(m);
    assert b[..32] == EncodeHead(m) && b[32..64] == m.classId && b[64..96] == m.iface;
    DecodeHead(m);
  }

  lemma EncodeHeadOf(h: seq<char>, classId: seq<char>, iface: seq<char>)
    requires |h| == HEAD_SIZE && Bytes(h)
    ensures EncodeHead(DecodeParts(h, classId, iface)) == h
  {
    Put32Get32(h[0..4]);
    Put32Get32(h[4..8]);
    Put64Get64(h[8..16]);
    Put32Get32(h[16..20]);
    Put32Get32(h[20..24]);
    Put32Get32(h[24..28]);
    Put32Get32(h[28..32]);
    assert h[0..4] + h[4..8] + h[8..16] + h[16..20] + h[20..24] + h[24..28] + h[28..32] == h;
  }

  /** Encoding undoes decoding for every block of 96 bytes: the layout has no gap and no overlap. */
  lemma EncodeDecode(b: seq<char>)
    requires |b| == MSG_SIZE && Bytes(b)
    ensures Encode(Decode(b)) == b
  {
    EncodeHeadOf(b[..32], b[32..64], b[64..96]);
    assert b == b[..32] + b[32..64] + b[64..96];
  }

  // ---- where each field lies ----

  /** The k-th byte of a number, the lowest being byte 0. */
  function ByteAt(u: nat, k: nat): nat
    decreases k
  {
    if k == 0 then u % 256 else ByteAt(u / 256, k - 1)
  }

  /** `size` bytes at `at`, the lowest first; a negative 32-bit number stands for itself plus 2^32. */
  ghost predicate Word(b: seq<char>, at: nat, size: nat, value: int)
    requires value >= -0x8000_0000
  {
    var u := if value < 0 then value + 0x1_0000_0000 else value;
    at + size <= |b| && forall k :: 0 <= k < size ==> b[at + k] as int == ByteAt(u, k)
  }

  function Pow256(n: nat): nat {
    if n == 0 then 1 else 256 * Pow256(n - 1)
  }

  lemma ShiftByte(x: nat, t: nat)
    ensures (x + 256 * t) % 256 == x % 256 && (x + 256 * t) / 256 == x / 256 + t
  {}

  lemma {:induction false} BytesOfTwo(lo: nat, hi: nat, n: nat, k: nat)
    requires lo < Pow256(n)
    ensures ByteAt(lo + Pow256(n) * hi, k) == if k < n then ByteAt(lo, k) else ByteAt(hi, k - n)
    decreases n
  {
    if n > 0 {
      var t := Pow256(n - 1) * hi;
      assert Pow256(n) * hi == 256 * t;
      ShiftByte(lo, t);
      if k > 0 { BytesOfTwo(lo / 256, hi, n - 1, k - 1); }
    } else {
      assert Pow256(0) * hi == hi;
    }
  }

  lemma FourBytes(u: nat)
    ensures ByteAt(u, 0) == u % 256 && ByteAt(u, 1) == u / 256 % 256
    ensures ByteAt(u, 2) == u / 256 / 256 % 256 && ByteAt(u, 3) == u / 256 / 256 / 256 % 256
  {
    assert ByteAt(u, 1) == ByteAt(u / 256, 0);
    assert ByteAt(u, 2) == ByteAt(u / 256, 1) == ByteAt(u / 256 / 256, 0);
    assert ByteAt(u, 3) == ByteAt(u / 256, 2) == ByteAt(u / 256 / 256, 1) == ByteAt(u / 256 / 256 / 256, 0);
  }

  lemma Put32Word(x: uint32)
    ensures Word(Put32(x), 0, 4, x)
  {
    FourBytes(x);
    var b := Put32(x);
    var q := x / 0x100;
    var r := q / 0x100;
    assert r / 0x100 < 0x100 && r / 0x100 % 256 == r / 0x100;
    assert b[0] as int == ByteAt(x, 0) && b[1] as int == ByteAt(x, 1);
    assert b[2] as int == ByteAt(x, 2) && b[3] as int == ByteAt(x, 3);
  }

  lemma PutSignedWord(x: int32)
    ensures Word(Put32(Unsigned(x)), 0, 4, x)
  {
    Put32Word(Unsigned(x));
  }

  lemma WordInPlace(b: seq<char>, at: nat, size: nat, word: seq<char>, value: int)
    requires value >= -0x8000_0000 && at + size <= |b| && b[at..at + size] == word && Word(word, 0, size, value)
    ensures Word(b, at, size, value)
  {
    var u := if value < 0 then value + 0x1_0000_0000 else value;
    forall k | 0 <= k < size ensures b[at + k] as int == ByteAt(u, k) {
      assert b[at + k] == word[k] && word[0 + k] as int == ByteAt(u, k);
    }
  }

  lemma Put64Word(x: uint64)
    ensures Word(Put64(x), 0, 8, x)
  {
    var lo, hi, b := x % TWO32, x / TWO32, Put64(x);
    Put32Word(lo);
    Put32Word(hi);
    assert Pow256(4) == TWO32 by {
      assert Pow256(1) == 256 && Pow256(2) == 256 * Pow256(1) && Pow256(3) == 256 * Pow256(2);
    }
    assert x == lo + TWO32 * hi;
    forall k | 0 <= k < 8 ensures b[0 + k] as int == ByteAt(x, k) {
      BytesOfTwo(lo, hi, 4, k);
      assert k < 4 ==> b[k] == Put32(lo)[0 + k];
      assert k >= 4 ==> b[k] == Put32(hi)[0 + (k - 4)];
    }
  }

  lemma HeadLayout(m: ApiMsg)
    ensures var h := EncodeHead(m);
      && Word(h, 0, 4, m.kind) && Word(h, 4, 4, m.error) && Word(h, 8, 8, m.handle) && Word(h, 16, 4, m.pid)
      && Word(h, 20, 4, m.rssi) && Word(h, 24, 4, m.state) && Word(h, 28, 4, m.pad)
  {
    var h := EncodeHead(m);
    HeadFields(Put32(m.kind), Put32(m.error), Put64(m.handle), Put32(Unsigned(m.pid)), Put32(Unsigned(m.rssi)),
               Put32(m.state), Put32(m.pad));
    Put32Word(m.kind);
    Put32Word(m.error);
    Put64Word(m.handle);
    PutSignedWord(m.pid);
    PutSignedWord(m.rssi);
    Put32Word(m.state);
    Put32Word(m.pad);
    WordInPlace(h, 0, 4, Put32(m.kind), m.kind);
    WordInPlace(h, 4, 4, Put32(m.error), m.error);
    WordInPlace(h, 8, 8, Put64(m.handle), m.handle);
    WordInPlace(h, 16, 4, Put32(Unsigned(m.pid)), m.pid);
    WordInPlace(h, 20, 4, Put32(Unsigned(m.rssi)), m.rssi);
    WordInPlace(h, 24, 4, Put32(m.state), m.state);
    WordInPlace(h, 28, 4, Put32(m.pad), m.pad);
  }

  /** Where every field of a message lies in its 96 bytes, and in which byte order. */
  lemma Layout(m: ApiMsg)
    requires MsgOk(m)
    ensures var b := Encode(m);
      && |b| == 96
      && Word(b, 0, 4, m.kind) && Word(b, 4, 4, m.error) && Word(b, 8, 8, m.handle) && Word(b, 16, 4, m.pid)
      && Word(b, 20, 4, m.rssi) && Word(b, 24, 4, m.state) && Word(b, 28, 4, m.pad)
      && b[32..64] == m.classId && b[64..96] == m.iface
  {
    var b := Encode(m);
    HeadLayout(m);
    assert b[..32] == EncodeHead(m) && b[32..64] == m.classId && b[64..96] == m.iface;
    WordsOfHead(EncodeHead(m), b, m);
  }

  lemma WordsOfHead(h: seq<char>, b: seq<char>, m: ApiMsg)
    requires |h| == 32 <= |b| && b[..32] == h
    requires Word(h, 0, 4, m.kind) && Word(h, 4, 4, m.error) && Word(h, 8, 8, m.handle) && Word(h, 16, 4, m.pid)
    requires Word(h, 20, 4, m.rssi) && Word(h, 24, 4, m.state) && Word(h, 28, 4, m.pad)
    ensures Word(b, 0, 4, m.kind) && Word(b, 4, 4, m.error) && Word(b, 8, 8, m.handle) && Word(b, 16, 4, m.pid)
    ensures Word(b, 20, 4, m.rssi) && Word(b, 24, 4, m.state) && Word(b, 28, 4, m.pad)
  {
    assert forall k :: 0 <= k < 32 ==> b[k] == h[k];
  }
}
