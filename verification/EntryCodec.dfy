/**
 The file format of one persisted block: an 88-byte header whose first eighty bytes are sealed by a checksum,
 then the payload, whose own checksum is one of the sealed fields. The header also carries the digest of the
 key the block was stored under.
 */
module EntryCodec {
  import opened Basics
  import opened Checksum

  const HEADER: nat := 88
  const SEALED: nat := 80
  const MAX_PAYLOAD: nat := 0x400_0000
  const FORMAT_VERSION: nat := 1
  const MAGIC: seq<byte> := [0x55, 0x53, 0x44, 0x42, 0x4C, 0x4B, 0x00, 0x31]

  type Digest = d: seq<byte> | |d| == 32 witness seq(32, _ => 0)

  /** What a reader asks for: the digest of its key, and the block it expects to find behind it. */
  datatype Wanted = Wanted(digest: Digest, blockSize: nat, index: nat, length: nat)

  datatype Outcome = Ok(bytes: seq<byte>) | Corrupt | OtherKey | WrongShape

  // ----- encoding ----------------------------------------------------------

  function Preamble(): (p: seq<byte>)
    ensures |p| == 16
  {
    MAGIC + Word(FORMAT_VERSION, 4) + Word(0, 4)
  }

  function Shape(blockSize: nat, index: nat, length: nat): (s: seq<byte>)
    ensures |s| == 24
  {
    Word(blockSize, 8) + Word(index, 8) + Word(length, 8)
  }

  function Proofs(digest: Digest, payload: seq<byte>): (p: seq<byte>)
    ensures |p| == 40
  {
    digest + Word(Fnv(payload, BASIS), 8)
  }

  function Fields(blockSize: nat, index: nat, digest: Digest, payload: seq<byte>): (f: seq<byte>)
    ensures |f| == SEALED
  {
    Preamble() + Shape(blockSize, index, |payload|) + Proofs(digest, payload)
  }

  function Sealed(fields: seq<byte>): seq<byte> { fields + Word(Fnv(fields, BASIS), 8) }

  function Encoded(blockSize: nat, index: nat, digest: Digest, payload: seq<byte>): (e: seq<byte>)
    ensures |e| == HEADER + |payload|
  {
    Sealed(Fields(blockSize, index, digest, payload)) + payload
  }

  method EncodeEntry(blockSize: nat, index: nat, digest: Digest, payload: seq<byte>) returns (entry: seq<byte>)
    ensures entry == Encoded(blockSize, index, digest, payload)
  {
    hide Word, Fnv;
    entry := AppendLittleEndian(MAGIC, FORMAT_VERSION, 4);
    entry := AppendLittleEndian(entry, 0, 4);
    ghost var preamble := entry;
    entry := AppendLittleEndian(entry, blockSize, 8);
    entry := AppendLittleEndian(entry, index, 8);
    entry := AppendLittleEndian(entry, |payload|, 8);
    assert entry == preamble + Shape(blockSize, index, |payload|);
    ghost var shaped := entry;
    entry := entry + digest;
    var payloadHash := Fnv1a(payload, BASIS);
    entry := AppendLittleEndian(entry, payloadHash, 8);
    assert entry == shaped + Proofs(digest, payload);
    var headerHash := Fnv1a(entry, BASIS);
    entry := AppendLittleEndian(entry, headerHash, 8);
    entry := entry + payload;
  }

  // ----- decoding ----------------------------------------------------------

  /** Structurally one of ours, whoever's key it carries. */
  predicate Intact(raw: seq<byte>) {
    && |raw| >= HEADER
    && raw[..8] == MAGIC
    && Fnv(raw[..80], BASIS) == Number(raw[80..88])
    && Number(raw[8..12]) == FORMAT_VERSION
    && Number(raw[32..40]) <= MAX_PAYLOAD
    && |raw| == HEADER + Number(raw[32..40])
    && Fnv(raw[88..], BASIS) == Number(raw[72..80])
  }

  function Decoded(raw: seq<byte>, wanted: Wanted): Outcome {
    if !Intact(raw) then Corrupt
    else if raw[40..72] != wanted.digest then OtherKey
    else if Number(raw[16..24]) != wanted.blockSize || Number(raw[24..32]) != wanted.index then WrongShape
    else if Number(raw[32..40]) != wanted.length then WrongShape
    else Ok(raw[88..])
  }

  method DecodeEntry(raw: seq<byte>, wanted: Wanted) returns (outcome: Outcome)
    ensures outcome == Decoded(raw, wanted)
  {
    hide Fnv, Number;
    if |raw| < HEADER || raw[..8] != MAGIC { return Corrupt; }
    var headerHash := Fnv1a(raw[..80], BASIS);
    var sealedAs := ReadLittleEndian(raw[80..88]);
    if headerHash != sealedAs { return Corrupt; }
    var version := ReadLittleEndian(raw[8..12]);
    if version != FORMAT_VERSION { return Corrupt; }
    var length := ReadLittleEndian(raw[32..40]);
    if length > MAX_PAYLOAD || |raw| != HEADER + length { return Corrupt; }
    var payloadHash := Fnv1a(raw[88..], BASIS);
    var provedAs := ReadLittleEndian(raw[72..80]);
    if payloadHash != provedAs { return Corrupt; }
    if raw[40..72] != wanted.digest { return OtherKey; }
    var blockSize := ReadLittleEndian(raw[16..24]);
    var index := ReadLittleEndian(raw[24..32]);
    if blockSize != wanted.blockSize || index != wanted.index || length != wanted.length { return WrongShape; }
    return Ok(raw[88..]);
  }

  // ----- the layout --------------------------------------------------------

  lemma PreambleLayout()
    ensures Preamble()[..8] == MAGIC
    ensures Preamble()[8..12] == Word(FORMAT_VERSION, 4)
    ensures Preamble()[12..16] == Word(0, 4)
  {
    hide Word;
  }

  lemma ShapeLayout(blockSize: nat, index: nat, length: nat)
    ensures Shape(blockSize, index, length)[..8] == Word(blockSize, 8)
    ensures Shape(blockSize, index, length)[8..16] == Word(index, 8)
    ensures Shape(blockSize, index, length)[16..24] == Word(length, 8)
  {
    hide Word;
  }

  lemma ProofsLayout(digest: Digest, payload: seq<byte>)
    ensures Proofs(digest, payload)[..32] == digest
    ensures Proofs(digest, payload)[32..40] == Word(Fnv(payload, BASIS), 8)
  {
    hide Word, Fnv;
  }

  /** A slice inside one section of a file is that slice of the section. */
  lemma SliceOfSection(raw: seq<byte>, at: nat, section: seq<byte>, from: nat, to: nat)
    requires at + |section| <= |raw| && raw[at..at + |section|] == section && from <= to <= |section|
    ensures raw[at + from..at + to] == section[from..to]
  {
    forall k | 0 <= k < to - from ensures raw[at + from..at + to][k] == section[from..to][k] {
      assert raw[at..at + |section|][from + k] == section[from + k];
    }
  }

  lemma Sections(blockSize: nat, index: nat, digest: Digest, payload: seq<byte>)
    ensures var e := Encoded(blockSize, index, digest, payload);
            && e[..80] == Fields(blockSize, index, digest, payload)
            && e[0..16] == Preamble()
            && e[16..40] == Shape(blockSize, index, |payload|)
            && e[40..80] == Proofs(digest, payload)
            && e[80..88] == Word(Fnv(Fields(blockSize, index, digest, payload), BASIS), 8)
            && e[88..] == payload
  {
    hide Word, Fnv, Preamble, Shape, Proofs;
    var e, f := Encoded(blockSize, index, digest, payload), Fields(blockSize, index, digest, payload);
    assert e[..80] == f;
    assert e[0..16] == f[0..16] && e[16..40] == f[16..40] && e[40..80] == f[40..80];
  }

  /** Every field of an encoded entry, where the decoder looks for it. */
  lemma EncodedLayout(blockSize: nat, index: nat, digest: Digest, payload: seq<byte>)
    ensures var e := Encoded(blockSize, index, digest, payload);
            && e[..80] == Fields(blockSize, index, digest, payload)
            && e[..8] == [0x55, 0x53, 0x44, 0x42, 0x4C, 0x4B, 0x00, 0x31]
            && e[8..12] == Word(1, 4) && e[12..16] == Word(0, 4)
            && e[16..24] == Word(blockSize, 8) && e[24..32] == Word(index, 8) && e[32..40] == Word(|payload|, 8)
            && e[40..72] == digest && e[72..80] == Word(Fnv(payload, BASIS), 8)
            && e[80..88] == Word(Fnv(Fields(blockSize, index, digest, payload), BASIS), 8)
            && e[88..] == payload
  {
    hide Word, Fnv, Preamble, Shape, Proofs, Fields, Encoded;
    var e := Encoded(blockSize, index, digest, payload);
    Sections(blockSize, index, digest, payload);
    PreambleLayout();
    SliceOfSection(e, 0, Preamble(), 0, 8);
    SliceOfSection(e, 0, Preamble(), 8, 12);
    SliceOfSection(e, 0, Preamble(), 12, 16);
    ShapeLayout(blockSize, index, |payload|);
    SliceOfSection(e, 16, Shape(blockSize, index, |payload|), 0, 8);
    SliceOfSection(e, 16, Shape(blockSize, index, |payload|), 8, 16);
    SliceOfSection(e, 16, Shape(blockSize, index, |payload|), 16, 24);
    ProofsLayout(digest, payload);
    SliceOfSection(e, 40, Proofs(digest, payload), 0, 32);
    SliceOfSection(e, 40, Proofs(digest, payload), 32, 40);
    assert e[..8] == e[0..8];
  }

  // ----- what the codec promises -------------------------------------------

  /** An encoded entry is intact, and answers its own key with its own bytes. */
  lemma RoundTrip(blockSize: nat, index: nat, digest: Digest, payload: seq<byte>)
    requires blockSize < WORD && index < WORD && |payload| <= MAX_PAYLOAD
    ensures Intact(Encoded(blockSize, index, digest, payload))
    ensures Decoded(Encoded(blockSize, index, digest, payload), Wanted(digest, blockSize, index, |payload|))
            == Ok(payload)
  {
    hide Word, Fnv, Number, Encoded, Fields;
    EncodedLayout(blockSize, index, digest, payload);
    WordFits();
    FnvStaysInWord(payload, BASIS);
    FnvStaysInWord(Fields(blockSize, index, digest, payload), BASIS);
    NumberOfWord(FORMAT_VERSION, 4);
    NumberOfWord(blockSize, 8);
    NumberOfWord(index, 8);
    NumberOfWord(|payload|, 8);
    NumberOfWord(Fnv(payload, BASIS), 8);
    NumberOfWord(Fnv(Fields(blockSize, index, digest, payload), BASIS), 8);
  }

  /**
   The decoder accepts nothing else: the bytes it returns are those of an entry encoded for that very block.
   The reserved word is the one field it does not read, and the only way two accepted files can differ.
   */
  lemma OnlyEncodedEntriesDecode(raw: seq<byte>, wanted: Wanted)
    requires Decoded(raw, wanted).Ok?
    ensures var p := Decoded(raw, wanted).bytes;
            && |p| == wanted.length
            && (raw == Encoded(wanted.blockSize, wanted.index, wanted.digest, p)
                <==> raw[12..16] == Word(0, 4))
  {
    var p := Decoded(raw, wanted).bytes;
    EncodedLayout(wanted.blockSize, wanted.index, wanted.digest, p);
    if raw[12..16] == Word(0, 4) { AcceptedIsEncoded(raw, wanted); }
  }

  /** A word is the only spelling of its number at that width. */
  lemma WordOfNumber(w: seq<byte>)
    ensures Word(Number(w), |w|) == w
  {
    NumberIsSmall(w);
    NumberOfWord(Number(w), |w|);
    NumberIsInjective(Word(Number(w), |w|), w);
  }

  lemma {:induction false} NumberIsSmall(w: seq<byte>)
    ensures Number(w) < Range(|w|)
  {
    if w != [] { NumberIsSmall(w[1..]); }
  }

  lemma AcceptedIsEncoded(raw: seq<byte>, wanted: Wanted)
    requires Decoded(raw, wanted).Ok? && raw[12..16] == Word(0, 4)
    ensures raw == Encoded(wanted.blockSize, wanted.index, wanted.digest, raw[88..])
  {
    hide Word, Fnv, Number;
    WordOfNumber(raw[8..12]);
    WordOfNumber(raw[16..24]);
    WordOfNumber(raw[24..32]);
    WordOfNumber(raw[32..40]);
    WordOfNumber(raw[72..80]);
    WordOfNumber(raw[80..88]);
    assert raw[..16] == Preamble() by { assert raw[..16] == raw[..8] + raw[8..12] + raw[12..16]; }
    assert raw[16..40] == Shape(wanted.blockSize, wanted.index, |raw[88..]|) by {
      assert raw[16..40] == raw[16..24] + raw[24..32] + raw[32..40];
    }
    assert raw[40..80] == Proofs(wanted.digest, raw[88..]) by { assert raw[40..80] == raw[40..72] + raw[72..80]; }
    assert raw[..80] == raw[..16] + raw[16..40] + raw[40..80];
    assert raw == raw[..80] + raw[80..88] + raw[88..];
  }

  /** Change any one byte of an intact file, header or payload, and it is no longer intact. */
  lemma SubstitutionIsCorrupt(raw: seq<byte>, other: seq<byte>, i: nat, wanted: Wanted)
    requires Intact(raw) && Substituted(raw, other, i)
    ensures Decoded(other, wanted) == Corrupt
  {
    hide Fnv, Number;
    if i < 80 {
      assert raw[80..88] == other[80..88];
      FnvCatchesSubstitution(raw[..80], other[..80], i, BASIS);
    } else if i < 88 {
      assert raw[..80] == other[..80];
      assert raw[80..88][i - 80] != other[80..88][i - 80];
      if Number(raw[80..88]) == Number(other[80..88]) { NumberIsInjective(raw[80..88], other[80..88]); }
    } else {
      assert raw[72..80] == other[72..80];
      FnvCatchesSubstitution(raw[88..], other[88..], i - 88, BASIS);
    }
  }

  /** Neither a truncated file nor one with something appended is intact. */
  lemma ResizingIsCorrupt(raw: seq<byte>, other: seq<byte>, wanted: Wanted)
    requires Intact(raw) && raw != other && (other <= raw || raw <= other)
    ensures Decoded(other, wanted) == Corrupt
  {
    hide Fnv, Number;
    if |other| >= HEADER {
      assert raw[32..40] == other[32..40];
      assert |raw| != |other|;
    }
  }

  // ----- the key behind a digest -------------------------------------------

  /** What names a block across processes. Sizes and numbers are 64-bit words. */
  datatype DiskKey = DiskKey(identifier: seq<byte>, validator: seq<byte>, blockSize: nat, index: nat) {
    predicate Legal() { |identifier| < WORD && |validator| < WORD && blockSize < WORD && index < WORD }
  }

  /** The bytes a key is digested over. */
  function KeyImage(key: DiskKey): seq<byte> {
    Word(|key.identifier|, 8) + key.identifier + Word(|key.validator|, 8) + key.validator
    + Word(key.blockSize, 8) + Word(key.index, 8)
  }

  /** A concatenation splits one way only, once the length of its head is known. */
  lemma SplitsOnce(a: seq<byte>, b: seq<byte>, restA: seq<byte>, restB: seq<byte>)
    requires |a| == |b| && a + restA == b + restB
    ensures a == b && restA == restB
  {
    assert (a + restA)[..|a|] == a && (b + restB)[..|a|] == b;
    assert (a + restA)[|a|..] == restA && (b + restB)[|a|..] == restB;
  }

  lemma WordIsInjective(m: nat, n: nat)
    requires m < WORD && n < WORD && Word(m, 8) == Word(n, 8)
    ensures m == n
  {
    hide Word, Number;
    WordFits();
    NumberOfWord(m, 8);
    NumberOfWord(n, 8);
  }

  /** A length-prefixed field can be read back off the front, whatever follows it. */
  lemma PrefixedIsReadable(a: seq<byte>, b: seq<byte>, restA: seq<byte>, restB: seq<byte>)
    requires |a| < WORD && |b| < WORD
    requires Word(|a|, 8) + (a + restA) == Word(|b|, 8) + (b + restB)
    ensures a == b && restA == restB
  {
    hide Word;
    SplitsOnce(Word(|a|, 8), Word(|b|, 8), a + restA, b + restB);
    WordIsInjective(|a|, |b|);
    SplitsOnce(a, b, restA, restB);
  }

  lemma Regrouped(a: seq<byte>, b: seq<byte>, c: seq<byte>, d: seq<byte>, e: seq<byte>)
    ensures a + b + c + d + e == a + (b + (c + (d + e)))
  {
    assert a + b + c + d + e == a + b + c + (d + e);
    assert a + b + c + (d + e) == a + b + (c + (d + e));
  }

  /** The image as nested length-prefixed fields. */
  lemma KeyImageNests(k: DiskKey)
    ensures KeyImage(k) == Word(|k.identifier|, 8) + (k.identifier
                           + (Word(|k.validator|, 8) + (k.validator + (Word(k.blockSize, 8) + Word(k.index, 8)))))
  {
    hide Word;
    var numbers := Word(k.blockSize, 8) + Word(k.index, 8);
    Regrouped(Word(|k.identifier|, 8), k.identifier, Word(|k.validator|, 8), k.validator, numbers);
    assert KeyImage(k) == Word(|k.identifier|, 8) + k.identifier + Word(|k.validator|, 8) + k.validator + numbers;
  }

  /** Moving a byte from one field to the next is a different key. */
  lemma KeyImageIsInjective(k: DiskKey, l: DiskKey)
    requires k.Legal() && l.Legal() && KeyImage(k) == KeyImage(l)
    ensures k == l
  {
    var numbersK, numbersL := Word(k.blockSize, 8) + Word(k.index, 8), Word(l.blockSize, 8) + Word(l.index, 8);
    var restK := Word(|k.validator|, 8) + (k.validator + numbersK);
    var restL := Word(|l.validator|, 8) + (l.validator + numbersL);
    hide Word, KeyImage;
    KeyImageNests(k);
    KeyImageNests(l);
    PrefixedIsReadable(k.identifier, l.identifier, restK, restL);
    PrefixedIsReadable(k.validator, l.validator, numbersK, numbersL);
    SplitsOnce(Word(k.blockSize, 8), Word(l.blockSize, 8), Word(k.index, 8), Word(l.index, 8));
    WordIsInjective(k.blockSize, l.blockSize);
    WordIsInjective(k.index, l.index);
  }
}
