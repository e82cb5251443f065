/** The binary wire format: the protocol tags and result codes, the cursor
    readers over a received buffer (util.c) and the two-word answer that the
    gateway sends back (net.c).  Integers travel in the sender's native
    little-endian order, because the network-byte-order switch is off. */
module Wire {
  import opened Base

  // Message tags.  Each is a four-character constant packed the way GCC and
  // MSVC pack them: 'ntll' == 0x6E746C6C.
  const NTL_LOGIN: u32 := 0x6E74_6C6C
  const NTL_REGISTER: u32 := 0x6E74_6C72
  const NTL_FORGOT_PASS: u32 := 0x6E74_6C66
  const NTL_CLIENT_HASH: u32 := 0x6E74_6C68
  const NTL_COMMAND: u32 := 0x6E74_6C63
  const NTL_ANSWER: u32 := 0x6E74_6C61
  const NTL_ECHO: u32 := 0x6E74_6C65

  // Result codes carried in an answer.
  const NTLE_NO_ERROR: int := 0
  const NTLE_REGISTER_DISABLED: int := 1
  const NTLE_LOGIN_EXIST: int := 2
  const NTLE_EMAIL_EXIST: int := 3
  const NTLE_REGISTER_LATER: int := 4
  const NTLE_YOU_ARE_BANNED: int := 5
  const NTLE_INVALID_SERVER: int := 6
  const NTLE_LOGIN_FAILED: int := 7

  // Field bounds passed to the string reader.
  const MAX_HWID_LEN: nat := 31
  const MAX_EMAIL_LEN: nat := 31
  const MAX_PASS_LEN: nat := 31
  const MAX_PLAYER_NAME: nat := 20

  /** A received buffer with its read cursor: `data` is the whole buffer,
      `maxsize` the number of bytes received into it. */
  datatype Msg = Msg(data: seq<byte>, readcount: int, maxsize: int) {
    predicate Valid() {
      0 <= readcount <= maxsize <= |data|
    }
  }

  /** 256 raised to the n-th power: the number of values n bytes can hold. */
  function Pow256(n: nat): (p: nat)
    ensures p >= 1
  {
    if n == 0 then 1 else 256 * Pow256(n - 1)
  }

  /** The n low-order bytes of v, least significant first. */
  function LeBytes(v: nat, n: nat): (b: seq<byte>)
    ensures |b| == n
  {
    if n == 0 then [] else [v % 256] + LeBytes(v / 256, n - 1)
  }

  /** The value of a little-endian byte sequence. */
  function FromLe(b: seq<byte>): nat
  {
    if |b| == 0 then 0 else (b[0] as int) + 256 * FromLe(b[1..])
  }

  lemma DivMod256(a: int, x: int)
    requires 0 <= a < 256
    ensures (a + 256 * x) % 256 == a && (a + 256 * x) / 256 == x
  {
  }

  lemma {:induction false} FromLeBound(b: seq<byte>)
    ensures FromLe(b) < Pow256(|b|)
  {
    if |b| > 0 {
      FromLeBound(b[1..]);
    }
  }

  lemma {:induction false} LeBytesDecodes(v: nat, n: nat)
    requires v < Pow256(n)
    ensures FromLe(LeBytes(v, n)) == v
  {
    if n > 0 {
      var b := LeBytes(v, n);
      assert b[1..] == LeBytes(v / 256, n - 1);
      LeBytesDecodes(v / 256, n - 1);
      DivMod256(v % 256, v / 256);
    }
  }

  lemma {:induction false} LeBytesEncodes(b: seq<byte>)
    ensures LeBytes(FromLe(b), |b|) == b
  {
    if |b| > 0 {
      var v := FromLe(b);
      DivMod256(b[0] as int, FromLe(b[1..]));
      LeBytesEncodes(b[1..]);
      var e := LeBytes(v, |b|);
      assert e[0] == b[0];
      assert e[1..] == b[1..];
    }
  }

  /** The four bytes of a 32-bit value in little-endian order. */
  function Le32(v: u32): (b: seq<byte>)
    ensures |b| == 4
  {
    LeBytes(v, 4)
  }

  /** The two bytes of a 16-bit value in little-endian order. */
  function Le16(v: u16): (b: seq<byte>)
    ensures |b| == 2
  {
    LeBytes(v, 2)
  }

  /** The value of four little-endian bytes: what `*(unsigned int *)data` reads. */
  function FromLe32(b: seq<byte>): u32
    requires |b| == 4
  {
    FromLeBound(b);
    assert Pow256(4) == TWO_32;
    FromLe(b)
  }

  /** The value of two little-endian bytes: what `*(unsigned short *)data` reads. */
  function FromLe16(b: seq<byte>): u16
    requires |b| == 2
  {
    FromLeBound(b);
    assert Pow256(2) == TWO_16;
    FromLe(b)
  }

  lemma Le32Decodes(v: u32)
    ensures FromLe32(Le32(v)) == v
  {
    assert Pow256(4) == TWO_32;
    LeBytesDecodes(v, 4);
  }

  lemma Le32Encodes(b: seq<byte>)
    requires |b| == 4
    ensures Le32(FromLe32(b)) == b
  {
    LeBytesEncodes(b);
  }

  lemma Le16Decodes(v: u16)
    ensures FromLe16(Le16(v)) == v
  {
    assert Pow256(2) == TWO_16;
    LeBytesDecodes(v, 2);
  }

  lemma Le16Encodes(b: seq<byte>)
    requires |b| == 2
    ensures Le16(FromLe16(b)) == b
  {
    LeBytesEncodes(b);
  }

  /** msg_get_uint: reads four bytes at the cursor, or yields the caller's
      error value (converted to unsigned) when fewer than four remain. */
  function MsgGetUint(m: Msg, error: int): (r: (u32, Msg))
    requires m.Valid()
    ensures r.1.Valid() && r.1.data == m.data && r.1.maxsize == m.maxsize
    ensures m.readcount + 4 > m.maxsize ==> r.0 == error % TWO_32 && r.1 == m
    ensures m.readcount + 4 <= m.maxsize ==>
      && r.1.readcount == m.readcount + 4
      && Le32(r.0) == m.data[m.readcount..m.readcount + 4]
  {
    if m.readcount + 4 > m.maxsize then
      (error % TWO_32, m)
    else
      var b := m.data[m.readcount..m.readcount + 4];
      Le32Encodes(b);
      (FromLe32(b), m.(readcount := m.readcount + 4))
  }

  /** msg_get_ushort: the same with two bytes. */
  function MsgGetUshort(m: Msg, error: int): (r: (u32, Msg))
    requires m.Valid()
    ensures r.1.Valid() && r.1.data == m.data && r.1.maxsize == m.maxsize
    ensures m.readcount + 2 > m.maxsize ==> r.0 == error % TWO_32 && r.1 == m
    ensures m.readcount + 2 <= m.maxsize ==>
      && r.1.readcount == m.readcount + 2
      && r.0 < TWO_16
      && Le16(r.0) == m.data[m.readcount..m.readcount + 2]
  {
    if m.readcount + 2 > m.maxsize then
      (error % TWO_32, m)
    else
      var b := m.data[m.readcount..m.readcount + 2];
      Le16Encodes(b);
      (FromLe16(b), m.(readcount := m.readcount + 2))
  }

  /** How many bytes msg_get_string lets memchr inspect: the smaller of the
      field bound and what is left of the received bytes. */
  function Window(m: Msg, maxlen: nat): nat
    requires m.Valid()
  {
    if maxlen > m.maxsize - m.readcount then m.maxsize - m.readcount else maxlen
  }

  /** memchr(s, 0, |s|): the position of the first zero byte. */
  function FirstZero(s: seq<byte>): (r: Option<nat>)
    ensures r.Some? ==> r.value < |s| && s[r.value] == 0
    ensures r.Some? ==> forall j :: 0 <= j < r.value ==> s[j] != 0
    ensures r.None? ==> forall j :: 0 <= j < |s| ==> s[j] != 0
  {
    if |s| == 0 then None
    else if s[0] == 0 then Some(0)
    else match FirstZero(s[1..])
      case None => None
      case Some(k) => Some(k + 1)
  }

  predicate NoZero(s: seq<byte>) {
    forall i :: 0 <= i < |s| ==> s[i] != 0
  }

  /** msg_get_string: the NUL-terminated string at the cursor.  It fails
      (NULL, cursor unmoved) when no NUL lies within the window; otherwise the
      cursor moves past the NUL. */
  function MsgGetString(m: Msg, maxlen: nat): (r: (Option<seq<byte>>, Msg))
    requires m.Valid()
    ensures r.1.Valid() && r.1.data == m.data && r.1.maxsize == m.maxsize
    ensures r.0.None? <==>
      forall j :: m.readcount <= j < m.readcount + Window(m, maxlen) ==> m.data[j] != 0
    ensures r.0.None? ==> r.1 == m
    ensures r.0.Some? ==>
      && |r.0.value| < Window(m, maxlen)
      && NoZero(r.0.value)
      && r.1.readcount == m.readcount + |r.0.value| + 1
      && m.data[m.readcount..r.1.readcount] == r.0.value + [0]
  {
    var w := m.data[m.readcount..m.readcount + Window(m, maxlen)];
    match FirstZero(w)
    case None =>
      assert forall j :: m.readcount <= j < m.readcount + Window(m, maxlen) ==> m.data[j] == w[j - m.readcount];
      (None, m)
    case Some(k) =>
      (Some(w[..k]), m.(readcount := m.readcount + k + 1))
  }

  /** A string field on the wire: its bytes followed by a NUL. */
  function EncodeString(s: seq<byte>): seq<byte> {
    s + [0]
  }

  /** Reading back an encoded string field yields the string, and the cursor
      lands just past it, provided it fits the field bound. */
  lemma MsgGetStringReadsEncoded(m: Msg, maxlen: nat, s: seq<byte>)
    requires m.Valid() && NoZero(s)
    requires |s| < maxlen
    requires m.readcount + |s| + 1 <= m.maxsize
    requires m.data[m.readcount..m.readcount + |s| + 1] == EncodeString(s)
    ensures MsgGetString(m, maxlen) == (Some(s), m.(readcount := m.readcount + |s| + 1))
  {
    var w := m.data[m.readcount..m.readcount + Window(m, maxlen)];
    assert w[..|s| + 1] == s + [0];
    FirstZeroAfter(w, s);
    MsgGetStringAt(m, maxlen, w, |s|);
  }

  /** The string read once memchr's answer on the window is known. */
  lemma MsgGetStringAt(m: Msg, maxlen: nat, w: seq<byte>, k: nat)
    requires m.Valid() && w == m.data[m.readcount..m.readcount + Window(m, maxlen)]
    requires FirstZero(w) == Some(k)
    ensures MsgGetString(m, maxlen) == (Some(w[..k]), m.(readcount := m.readcount + k + 1))
  {
  }

  /** memchr finds the terminator of a string at the front of a window. */
  lemma FirstZeroAfter(w: seq<byte>, s: seq<byte>)
    requires NoZero(s) && |s| < |w| && w[..|s| + 1] == s + [0]
    ensures FirstZero(w) == Some(|s|) && w[..|s|] == s
  {
    assert w[|s|] == (s + [0])[|s|];
    forall j | 0 <= j < |s|
      ensures w[j] != 0
    {
      assert w[j] == w[..|s| + 1][j];
    }
    assert w[..|s|] == w[..|s| + 1][..|s|];
  }

  /** A string that does not fit its bound is refused, even when terminated. */
  lemma MsgGetStringRejectsOverlong(m: Msg, maxlen: nat, s: seq<byte>)
    requires m.Valid() && NoZero(s)
    requires |s| >= maxlen
    requires m.readcount + |s| <= m.maxsize
    requires m.data[m.readcount..m.readcount + |s|] == s
    ensures MsgGetString(m, maxlen) == (None, m)
  {
    assert Window(m, maxlen) <= |s|;
    forall j | m.readcount <= j < m.readcount + Window(m, maxlen)
      ensures m.data[j] != 0
    {
      assert m.data[j] == s[j - m.readcount];
    }
  }

  /** The three cursor readers never move the cursor outside the received
      bytes, whatever the buffer holds. */
  lemma ReadersKeepCursorInBounds(m: Msg, maxlen: nat, error: int)
    requires m.Valid()
    ensures m.readcount <= MsgGetUint(m, error).1.readcount <= m.maxsize
    ensures m.readcount <= MsgGetUshort(m, error).1.readcount <= m.maxsize
    ensures m.readcount <= MsgGetString(m, maxlen).1.readcount <= m.maxsize
  {
  }

  /** net_send_answer: the eight bytes of the answer {ntl_answer, code}. */
  function NetSendAnswer(code: int): (r: seq<byte>)
    ensures |r| == 8
    ensures FromLe32(r[..4]) == NTL_ANSWER
    ensures FromLe32(r[4..]) == code % TWO_32
  {
    Le32Decodes(NTL_ANSWER);
    Le32Decodes(code % TWO_32);
    var r := Le32(NTL_ANSWER) + Le32(code % TWO_32);
    assert r[..4] == Le32(NTL_ANSWER) && r[4..] == Le32(code % TWO_32);
    r
  }
}
