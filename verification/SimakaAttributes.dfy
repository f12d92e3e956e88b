/**
 * EAP-SIM/AKA attributes (section 10 of RFC 4187): how each kind is written
 * and read, and what reading returns of what was written.
 */
module SimakaAttributes {
  import opened Bytes

  const AT_RAND: byte := 1
  const AT_AUTN: byte := 2
  const AT_RES: byte := 3
  const AT_AUTS: byte := 4
  const AT_PADDING: byte := 6
  const AT_NONCE_MT: byte := 7
  const AT_PERMANENT_ID_REQ: byte := 10
  const AT_MAC: byte := 11
  const AT_NOTIFICATION: byte := 12
  const AT_ANY_ID_REQ: byte := 13
  const AT_IDENTITY: byte := 14
  const AT_VERSION_LIST: byte := 15
  const AT_SELECTED_VERSION: byte := 16
  const AT_FULLAUTH_ID_REQ: byte := 17
  const AT_COUNTER: byte := 19
  const AT_COUNTER_TOO_SMALL: byte := 20
  const AT_NONCE_S: byte := 21
  const AT_CLIENT_ERROR_CODE: byte := 22
  const AT_IV: byte := 129
  const AT_ENCR_DATA: byte := 130
  const AT_NEXT_PSEUDONYM: byte := 132
  const AT_NEXT_REAUTH_ID: byte := 133

  datatype Attr = Attr(kind: byte, data: seq<byte>)

  /** How the value follows the two header bytes. */
  datatype Shape =
    | Bare       // two zero bytes
    | Pair       // two bytes of data
    | Counted    // a 16-bit length, the data, zeros up to a multiple of four
    | Sixteen    // two zero bytes and 16 bytes of data
    | Variable   // two zero bytes and data up to the stated length
    | Fourteen   // 14 bytes of data
    | Other      // data up to the stated length

  function ShapeOf(kind: byte): Shape {
    if kind in {AT_COUNTER_TOO_SMALL, AT_ANY_ID_REQ, AT_PERMANENT_ID_REQ, AT_FULLAUTH_ID_REQ} then Bare
    else if kind in {AT_COUNTER, AT_CLIENT_ERROR_CODE, AT_SELECTED_VERSION, AT_NOTIFICATION} then Pair
    else if kind in {AT_NEXT_PSEUDONYM, AT_NEXT_REAUTH_ID, AT_RES, AT_IDENTITY, AT_VERSION_LIST} then Counted
    else if kind in {AT_NONCE_S, AT_AUTN, AT_NONCE_MT, AT_IV, AT_MAC} then Sixteen
    else if kind in {AT_ENCR_DATA, AT_RAND} then Variable
    else if kind == AT_AUTS then Fourteen
    else Other
  }

  /** The parser refuses these outside AT_ENCR_DATA. */
  predicate EncryptedOnly(kind: byte) {
    kind in {AT_NONCE_S, AT_NEXT_PSEUDONYM, AT_NEXT_REAUTH_ID, AT_COUNTER, AT_COUNTER_TOO_SMALL}
  }

  /** The generator has a rule for it; what it adds itself (IV, data, MAC, padding) it has none for. */
  predicate Encodable(kind: byte) {
    ShapeOf(kind) != Other && kind !in {AT_IV, AT_MAC, AT_ENCR_DATA}
  }

  /** Data lengths the shape has room for. */
  predicate Sized(a: Attr) {
    match ShapeOf(a.kind)
    case Bare => |a.data| == 0
    case Pair => |a.data| == 2
    case Counted => |a.data| <= 1012
    case Sixteen => |a.data| == 16
    case Variable => |a.data| % 4 == 0 && |a.data| <= 1012
    case Fourteen => |a.data| == 14
    case Other => true
  }

  /** A kind without a rule is skipped whatever its data. */
  predicate Legal(a: Attr) {
    Encodable(a.kind) ==> Sized(a)
  }

  /** Phase bit of a notification: set before authentication. */
  predicate Phase(data: seq<byte>)
    requires |data| > 0
  {
    HasFlag(data[0], 0x40)
  }

  /** Goes into AT_ENCR_DATA: what must be encrypted, and notifications after authentication. */
  predicate Hidden(a: Attr)
    requires Legal(a)
  {
    EncryptedOnly(a.kind) || (a.kind == AT_NOTIFICATION && !Phase(a.data))
  }

  /** A 16-bit value with its bytes exchanged, as htons leaves it on a little-endian host. */
  function Swapped(n: nat): nat {
    (n % 256) * 256 + (n / 256) % 256
  }

  /** A 16-bit value as a little-endian host stores it. */
  function LittleEndian(v: nat): seq<byte> {
    [v % 256, (v / 256) % 256]
  }

  /** The length field: bytes, except that AT_RES has eight times the already swapped value, in 16 bits. */
  function CountField(kind: byte, n: nat): (field: seq<byte>)
    ensures |field| == 2
  {
    if kind == AT_RES then LittleEndian((Swapped(n) * 8) % 65536) else LittleEndian(Swapped(n))
  }

  /** What the reader makes of that field. */
  function Count(kind: byte, field: seq<byte>): nat
    requires |field| == 2
  {
    if kind == AT_RES then FromU16(field) / 8 else FromU16(field)
  }

  function Padding(n: nat): (p: nat)
    ensures p < 4 && (n + p) % 4 == 0
  {
    (4 - n % 4) % 4
  }

  /** The value of a counted attribute. */
  function CountedValue(a: Attr): (s: seq<byte>)
    ensures |s| == 2 + |a.data| + Padding(|a.data|) && (|s| + 2) % 4 == 0
    ensures s[..2] == CountField(a.kind, |a.data|) && s[2..2 + |a.data|] == a.data
  {
    var pad := Padding(|a.data|);
    assert (|a.data| + pad + 4) % 4 == (|a.data| + pad) % 4;
    CountField(a.kind, |a.data|) + a.data + Fill(0, pad)
  }

  /** One attribute on the wire. */
  function Framed(a: Attr): (s: seq<byte>)
    requires Sized(a) && ShapeOf(a.kind) != Other
    ensures |s| % 4 == 0 && 4 <= |s| <= 1016 && s[0] == a.kind
  {
    match ShapeOf(a.kind)
    case Bare => [a.kind, 1, 0, 0]
    case Pair => [a.kind, 1] + a.data
    case Counted => [a.kind, Quads(|a.data| + Padding(|a.data|))] + CountedValue(a)
    case Sixteen => [a.kind, 5, 0, 0] + a.data
    case Variable => [a.kind, Quads(|a.data|), 0, 0] + a.data
    case Fourteen => [a.kind, 4] + a.data
  }

  /** What the generator writes for an attribute of the message: nothing if it has no rule. */
  function Encoded(a: Attr): (s: seq<byte>)
    requires Legal(a)
    ensures |s| % 4 == 0
  {
    if Encodable(a.kind) then Framed(a) else []
  }

  /** The length byte, in units of four bytes, for a value of n bytes behind a four byte head. */
  function Quads(n: nat): byte
    requires n <= 1016
  {
    n / 4 + 1
  }

  /** What the reader returns for an attribute written. */
  function Recovered(a: Attr): Attr {
    if a.kind == AT_RES then Attr(AT_RES, a.data[..Min(|a.data|, Count(AT_RES, CountField(AT_RES, |a.data|)))]) else a
  }

  /** Reading the length field back. */
  lemma CountBack(kind: byte, n: nat)
    requires n <= 1012
    ensures Count(kind, CountField(kind, n)) == if kind == AT_RES then 256 * (n / 256) + n % 32 else n
  {
    hide Swapped, LittleEndian, FromU16;
    var q, r := n / 256, n % 256;
    assert Swapped(n) == 256 * r + q by { SwappedIs(q, r); }
    if kind == AT_RES {
      Eightfold(q, r);
      StoredSwapped(8 * q, 8 * (r % 32));
      Modulo256(n);
    } else {
      StoredSwapped(q, r);
    }
  }

  lemma Modulo256(n: nat)
    ensures n == 256 * (n / 256) + n % 256 && n % 32 == (n % 256) % 32
    ensures n % 256 < 32 <==> n % 32 == n % 256
  {
    var q, r := n / 256, n % 256;
    Remainder32(8 * q + r / 32, r % 32);
    assert n == 32 * (8 * q + r / 32) + r % 32;
  }

  lemma Remainder32(k: nat, b: nat)
    requires b < 32
    ensures (32 * k + b) % 32 == b
  {
  }

  lemma SwappedIs(q: nat, r: nat)
    requires q < 256 && r < 256
    ensures Swapped(256 * q + r) == 256 * r + q
  {
  }

  /** Eight times the swapped value, in 16 bits: the low byte loses its three top bits. */
  lemma Eightfold(q: nat, r: nat)
    requires q < 4 && r < 256
    ensures ((256 * r + q) * 8) % 65536 == 256 * (8 * (r % 32)) + 8 * q
  {
    assert (256 * r + q) * 8 == 65536 * (r / 32) + (2048 * (r % 32) + 8 * q);
  }

  lemma StoredSwapped(hi: nat, lo: nat)
    requires hi < 256 && lo < 256
    ensures FromU16(LittleEndian(256 * lo + hi)) == 256 * hi + lo
  {
  }

  /** Every attribute survives, except AT_RES values whose length modulo 256 is 32 or more. */
  lemma RecoveredIff(a: Attr)
    requires Sized(a)
    ensures Recovered(a) == a <==> (a.kind == AT_RES ==> |a.data| % 256 < 32)
    ensures Recovered(a).kind == a.kind && Recovered(a).data <= a.data
  {
    hide Count, CountField;
    if a.kind == AT_RES {
      CountBack(AT_RES, |a.data|);
      Modulo256(|a.data|);
      if Recovered(a) == a {
        assert |Recovered(a).data| == |a.data|;
      }
    }
  }

  /** A 32 byte response comes back empty. */
  lemma LongResponseLost(data: seq<byte>)
    requires |data| == 32
    ensures Recovered(Attr(AT_RES, data)) == Attr(AT_RES, [])
  {
    CountBack(AT_RES, 32);
  }

  /** One attribute at the front of the input, and how much of the input it takes. */
  function ReadOne(input: seq<byte>, encrypted: bool): (r: Option<(Attr, nat)>)
    ensures r.Some? ==> |input| > 0 && r.value.1 > 0 && r.value.0.kind == input[0]
    ensures r.Some? && r.value.0.kind == AT_NOTIFICATION ==> |r.value.0.data| == 2
    ensures r.Some? && r.value.0.kind == AT_MAC ==> |r.value.0.data| == 16 && |input| >= 20
  {
    if |input| < 4 then None else
    var kind, units := input[0], input[1] as nat;
    if EncryptedOnly(kind) && !encrypted then None else
    match ShapeOf(kind)
    case Bare => if units != 1 then None else Some((Attr(kind, []), 4))
    case Pair => if units != 1 then None else Some((Attr(kind, input[2..4]), 4))
    case Counted =>
      var n := Count(kind, input[2..4]);
      if units < 1 || n > units * 4 || 4 + n > |input| then None else Some((Attr(kind, input[4..4 + n]), units * 4))
    case Sixteen => if units != 5 || |input| < 20 then None else Some((Attr(kind, input[4..20]), 20))
    case Variable => if units == 0 || units * 4 > |input| then None else Some((Attr(kind, input[4..units * 4]), units * 4))
    case Fourteen => if units != 4 || |input| < 16 then None else Some((Attr(kind, input[2..16]), 16))
    case Other => if units == 0 || units * 4 > |input| then None else Some((Attr(kind, input[2..units * 4]), units * 4))
  }

  lemma ReadFixed(a: Attr, rest: seq<byte>, encrypted: bool)
    requires Sized(a) && ShapeOf(a.kind) != Other && (EncryptedOnly(a.kind) ==> encrypted)
    requires ShapeOf(a.kind) in {Bare, Pair, Sixteen, Fourteen}
    ensures ReadOne(Framed(a) + rest, encrypted) == Some((a, |Framed(a)|))
  {
    var s := Framed(a);
    var input := s + rest;
    assert input[0] == s[0] && input[1] == s[1];
    match ShapeOf(a.kind) {
      case Bare =>
      case Pair => assert input[2..4] == s[2..4] == a.data;
      case Sixteen => assert input[4..20] == s[4..20] == a.data;
      case Fourteen => assert input[2..16] == s[2..16] == a.data;
    }
  }

  lemma ReadVariable(a: Attr, rest: seq<byte>, encrypted: bool)
    requires Sized(a) && ShapeOf(a.kind) == Variable
    ensures ReadOne(Framed(a) + rest, encrypted) == Some((a, |Framed(a)|))
  {
    var s := Framed(a);
    var input := s + rest;
    assert input[0] == s[0] && input[1] == s[1] == Quads(|a.data|);
    assert input[4..|s|] == s[4..] == a.data;
  }

  lemma FramedCounted(a: Attr)
    requires Sized(a) && ShapeOf(a.kind) == Counted
    ensures var s := Framed(a);
            && |s| >= 4 + |a.data| && s[0] == a.kind && |s| == (s[1] as nat) * 4
            && s[2..4] == CountField(a.kind, |a.data|) && s[4..4 + |a.data|] == a.data
  {
    hide CountField, CountedValue, Padding;
    var s, v := Framed(a), CountedValue(a);
    assert s[2..4] == v[..2];
    assert s[4..4 + |a.data|] == v[2..2 + |a.data|];
  }

  lemma ReadCounted(a: Attr, rest: seq<byte>, encrypted: bool)
    requires Sized(a) && ShapeOf(a.kind) == Counted && (EncryptedOnly(a.kind) ==> encrypted)
    ensures ReadOne(Framed(a) + rest, encrypted) == Some((Recovered(a), |Framed(a)|))
  {
    hide Count, CountField, Framed, Recovered;
    FramedCounted(a);
    CountBack(a.kind, |a.data|);
    RecoveredCounted(a);
    var s := Framed(a);
    var input := s + rest;
    var n := Count(a.kind, CountField(a.kind, |a.data|));
    assert input[0] == s[0] && input[1] == s[1] && input[2..4] == s[2..4];
    assert input[4..4 + n] == s[4..4 + |a.data|][..n] == a.data[..n];
  }

  lemma RecoveredCounted(a: Attr)
    requires Sized(a) && ShapeOf(a.kind) == Counted
    ensures Count(a.kind, CountField(a.kind, |a.data|)) <= |a.data|
    ensures Recovered(a) == Attr(a.kind, a.data[..Count(a.kind, CountField(a.kind, |a.data|))])
  {
    hide Count, CountField;
    CountBack(a.kind, |a.data|);
  }

  /** Reading one attribute written, whatever follows it. */
  lemma ReadBack(a: Attr, rest: seq<byte>, encrypted: bool)
    requires Sized(a) && ShapeOf(a.kind) != Other && (EncryptedOnly(a.kind) ==> encrypted)
    ensures ReadOne(Framed(a) + rest, encrypted) == Some((Recovered(a), |Framed(a)|))
  {
    hide ReadOne, Framed;
    match ShapeOf(a.kind) {
      case Variable => ReadVariable(a, rest, encrypted);
      case Counted => ReadCounted(a, rest, encrypted);
      case _ => ReadFixed(a, rest, encrypted);
    }
  }
}
