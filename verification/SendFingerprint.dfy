/**
 The byte encoding that is hashed to recognise a repeated send. Before hashing it
 is injective: different messages never share an encoding.
 */
module SendFingerprint {
  import opened Arithmetic

  type Byte = b: int | 0 <= b < 256
  type Bytes = seq<Byte>

  const U32_RANGE := 0x1_0000_0000

  /** Group sizes below the surrogate range have their own UTF-8 encoding. */
  const MAX_GROUP := 0xD800

  /** Recipients are already trimmed and lowercased. */
  datatype Message = Message(
    sender: Bytes, to: seq<Bytes>, cc: seq<Bytes>, bcc: seq<Bytes>,
    subject: Bytes, body: Bytes, inReplyTo: Bytes, references: seq<Bytes>)

  /** Big-endian 32-bit length; longer values wrap. */
  function U32(n: nat): (b: Bytes)
    ensures |b| == 4
  {
    var v := n % U32_RANGE;
    [v / 0x100_0000, (v / 0x1_0000) % 256, (v / 256) % 256, v % 256]
  }

  /** `string(rune(n))`: UTF-8, with the replacement character outside the scalar values. */
  function Rune(n: nat): (b: Bytes)
    ensures 1 <= |b| <= 4
  {
    if n < 0x80 then [n]
    else if n < 0x800 then [0xC0 + n / 64, 0x80 + n % 64]
    else if n > 0x10FFFF || 0xD800 <= n < 0xE000 then [0xEF, 0xBF, 0xBD]
    else if n < 0x10000 then [0xE0 + n / 4096, 0x80 + (n / 64) % 64, 0x80 + n % 64]
    else [0xF0 + n / 262144, 0x80 + (n / 4096) % 64, 0x80 + (n / 64) % 64, 0x80 + n % 64]
  }

  function Write(value: Bytes): Bytes {
    U32(|value|) + value
  }

  function WriteAll(items: seq<Bytes>): Bytes {
    if items == [] then [] else Write(items[0]) + WriteAll(items[1..])
  }

  function Group(recipients: seq<Bytes>): seq<Bytes> {
    [Rune(|recipients|)] + recipients
  }

  /** The values written to the hash, in order. */
  function Items(m: Message): seq<Bytes> {
    [m.sender] + (Group(m.to) + (Group(m.cc) + (Group(m.bcc) + ([m.subject, m.body, m.inReplyTo] + m.references))))
  }

  function Encode(m: Message): Bytes {
    WriteAll(Items(m))
  }

  ghost predicate Short(items: seq<Bytes>) {
    forall i :: 0 <= i < |items| ==> |items[i]| < U32_RANGE
  }

  /** Group sizes and value lengths that the encoding distinguishes. */
  ghost predicate Encodable(m: Message) {
    && |m.to| < MAX_GROUP && |m.cc| < MAX_GROUP && |m.bcc| < MAX_GROUP
    && Short([m.sender, m.subject, m.body, m.inReplyTo]) && Short(m.to) && Short(m.cc) && Short(m.bcc) && Short(m.references)
  }

  lemma U32Injective(a: nat, b: nat)
    requires a < U32_RANGE && b < U32_RANGE && U32(a) == U32(b)
    ensures a == b
  {
    U32Value(a);
    U32Value(b);
  }

  lemma U32Value(n: nat)
    requires n < U32_RANGE
    ensures n == 0x100_0000 * (U32(n)[0] as int) + 0x1_0000 * (U32(n)[1] as int) + 256 * (U32(n)[2] as int) + U32(n)[3] as int
  {
    var v := n;
    Quotient(n, U32_RANGE, 0);
    var a, b, c := v / 256, v / 0x1_0000, v / 0x100_0000;
    Divided(v, 256);
    Divided(v, 0x1_0000);
    Divided(v, 0x100_0000);
    Quotient(a, 256, b);
    Quotient(b, 256, c);
  }

  /** The bytes are the number's UTF-8 form, or the replacement character's where it has none. */
  lemma RuneIsUtf8(n: nat)
    ensures n < 0x80 ==> Rune(n) == [n]
    ensures 0x80 <= n < 0x800 ==>
              var b := Rune(n);
              && |b| == 2 && 0xC0 <= b[0] < 0xE0 && 0x80 <= b[1] < 0xC0
              && n == 64 * (b[0] as int - 0xC0) + (b[1] as int - 0x80)
    ensures 0x800 <= n < 0xD800 || 0xE000 <= n < 0x10000 ==>
              var b := Rune(n);
              && |b| == 3 && 0xE0 <= b[0] < 0xF0 && 0x80 <= b[1] < 0xC0 && 0x80 <= b[2] < 0xC0
              && n == 4096 * (b[0] as int - 0xE0) + 64 * (b[1] as int - 0x80) + (b[2] as int - 0x80)
    ensures 0x10000 <= n <= 0x10FFFF ==>
              var b := Rune(n);
              && |b| == 4 && 0xF0 <= b[0] < 0xF8 && 0x80 <= b[1] < 0xC0 && 0x80 <= b[2] < 0xC0 && 0x80 <= b[3] < 0xC0
              && n == 262144 * (b[0] as int - 0xF0) + 4096 * (b[1] as int - 0x80) + 64 * (b[2] as int - 0x80) + (b[3] as int - 0x80)
    ensures 0xD800 <= n < 0xE000 || n > 0x10FFFF ==> Rune(n) == [0xEF, 0xBF, 0xBD]
  {
    Divided(n, 64);
    Divided(n / 64, 64);
    Divided(n / 64 / 64, 64);
    Quotient(n, 4096, n / 64 / 64);
    Quotient(n, 262144, n / 64 / 64 / 64);
  }

  lemma RuneInjective(a: nat, b: nat)
    requires a < MAX_GROUP && b < MAX_GROUP && Rune(a) == Rune(b)
    ensures a == b
  {
    RuneIsUtf8(a);
    RuneIsUtf8(b);
    hide Rune;
  }

  /** A length-prefixed value is cut off its stream in one way only. */
  lemma WriteCut(a: Bytes, b: Bytes, x: Bytes, y: Bytes)
    requires |a| < U32_RANGE && |b| < U32_RANGE && Write(a) + x == Write(b) + y
    ensures a == b && x == y
  {
    var left, right := Write(a) + x, Write(b) + y;
    assert left[..4] == U32(|a|) && right[..4] == U32(|b|);
    U32Injective(|a|, |b|);
    assert left[4..4 + |a|] == a && right[4..4 + |b|] == b;
    assert left[4 + |a|..] == x && right[4 + |b|..] == y;
  }

  /** Lists of values are recovered from their stream. */
  lemma {:induction false} WriteAllInjective(a: seq<Bytes>, b: seq<Bytes>)
    requires Short(a) && Short(b) && WriteAll(a) == WriteAll(b)
    ensures a == b
  {
    if a != [] && b != [] {
      WriteCut(a[0], b[0], WriteAll(a[1..]), WriteAll(b[1..]));
      WriteAllInjective(a[1..], b[1..]);
      assert a == [a[0]] + a[1..] && b == [b[0]] + b[1..];
    }
  }

  lemma GroupCut(a: seq<Bytes>, b: seq<Bytes>, x: seq<Bytes>, y: seq<Bytes>)
    requires |a| < MAX_GROUP && |b| < MAX_GROUP && Group(a) + x == Group(b) + y
    ensures a == b && x == y
  {
    hide Rune;
    var left, right := Group(a) + x, Group(b) + y;
    assert left[0] == Rune(|a|) && right[0] == Rune(|b|);
    RuneInjective(|a|, |b|);
    assert left[1..1 + |a|] == a && right[1..1 + |b|] == b;
    assert left[1 + |a|..] == x && right[1 + |b|..] == y;
  }

  lemma ItemsShort(m: Message)
    requires Encodable(m)
    ensures Short(Items(m))
  {
    hide Rune;
    var four := [m.sender, m.subject, m.body, m.inReplyTo];
    assert |four[0]| < U32_RANGE && |four[1]| < U32_RANGE && |four[2]| < U32_RANGE && |four[3]| < U32_RANGE;
    ShortAppend([m.subject, m.body, m.inReplyTo], m.references);
    GroupShort(m.to);
    GroupShort(m.cc);
    GroupShort(m.bcc);
    var tail := [m.subject, m.body, m.inReplyTo] + m.references;
    ShortAppend(Group(m.bcc), tail);
    ShortAppend(Group(m.cc), Group(m.bcc) + tail);
    ShortAppend(Group(m.to), Group(m.cc) + (Group(m.bcc) + tail));
    ShortAppend([m.sender], Group(m.to) + (Group(m.cc) + (Group(m.bcc) + tail)));
  }

  lemma ShortAppend(a: seq<Bytes>, b: seq<Bytes>)
    requires Short(a) && Short(b)
    ensures Short(a + b)
  {
  }

  lemma GroupShort(g: seq<Bytes>)
    requires Short(g)
    ensures Short(Group(g))
  {
  }

  /** Equal encodings mean equal messages. */
  lemma EncodeInjective(a: Message, b: Message)
    requires Encodable(a) && Encodable(b) && Encode(a) == Encode(b)
    ensures a == b
  {
    hide Rune, Group, WriteAll;
    ItemsShort(a);
    ItemsShort(b);
    WriteAllInjective(Items(a), Items(b));
    var tailA, tailB := [a.subject, a.body, a.inReplyTo] + a.references, [b.subject, b.body, b.inReplyTo] + b.references;
    HeadCut(a.sender, b.sender, Group(a.to) + (Group(a.cc) + (Group(a.bcc) + tailA)), Group(b.to) + (Group(b.cc) + (Group(b.bcc) + tailB)));
    GroupCut(a.to, b.to, Group(a.cc) + (Group(a.bcc) + tailA), Group(b.cc) + (Group(b.bcc) + tailB));
    GroupCut(a.cc, b.cc, Group(a.bcc) + tailA, Group(b.bcc) + tailB);
    GroupCut(a.bcc, b.bcc, tailA, tailB);
    assert tailA[0] == tailB[0] && tailA[1] == tailB[1] && tailA[2] == tailB[2];
    assert tailA[3..] == a.references && tailB[3..] == b.references;
  }

  lemma HeadCut(a: Bytes, b: Bytes, x: seq<Bytes>, y: seq<Bytes>)
    requires [a] + x == [b] + y
    ensures a == b && x == y
  {
    assert ([a] + x)[0] == a && ([b] + y)[0] == b;
    assert ([a] + x)[1..] == x && ([b] + y)[1..] == y;
  }
}
