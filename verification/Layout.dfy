/**
  * The packed on-disk structures: file allocation table, directory table and
  * index records. The original casts between structures and bytes; here each
  * cast is an encoding with a decoding, and they are inverse to each other.
  */
module Layout {
  import opened Bytes

  const CLUSTER_BLOCK_COUNT := 4
  const CLUSTER_SIZE := 2048
  const CLUSTER_MAP_SIZE := 512
  const TABLE_LENGTH := 64
  const RECORD_SIZE := 15
  /** sizeof(struct IndexTable) is 7680; integer division leaves three clusters. */
  const INDEX_CLUSTERS := (CLUSTER_MAP_SIZE * RECORD_SIZE) / CLUSTER_SIZE
  const INDEX_BYTES := 7680
  const PERSISTED_BYTES := 6144
  /** Whole records among the persisted bytes. */
  const PERSISTED_RECORDS := 409

  const CLUSTER_0_VALUE: word := 0x0FFF_FFF0
  const CLUSTER_1_VALUE: word := 0x0FFF_FFFF
  const END_OF_FILE: word := 0x0FFF_FFFF
  const EMPTY_ENTRY: word := 0

  const FAT_CLUSTER: word := 1
  const ROOT_CLUSTER: word := 2
  const INDEX_CLUSTER: word := 3
  /** First cluster `get_empty_cluster` looks at. */
  const FIRST_DATA_CLUSTER: word := 8

  const ATTR_SUBDIRECTORY: byte := 0x10
  const UATTR_NOT_EMPTY: byte := 0xAA

  type Name = s: seq<byte> | |s| == 8 witness Zeros(8)
  type Ext = s: seq<byte> | |s| == 3 witness Zeros(3)
  type Bytes6 = s: seq<byte> | |s| == 6 witness Zeros(6)
  type Bytes4 = s: seq<byte> | |s| == 4 witness Zeros(4)

  type Cluster = s: seq<byte> | |s| == 2048 witness Zeros(2048)
  const ZERO_CLUSTER: Cluster := Zeros(2048)
  type Fat = s: seq<word> | |s| == 512 witness seq(512, _ => 0)

  datatype DirEntry = DirEntry(
    name: Name, ext: Ext, attribute: byte, userAttribute: byte, undelete: byte,
    times: Bytes6, clusterHigh: half, modified: Bytes4, clusterLow: half, filesize: word)
  {
    /** cluster_high << 16 | cluster_low */
    function ClusterNumber(): word {
      clusterHigh as int * 0x1_0000 + clusterLow as int
    }
  }

  const ZERO_ENTRY := DirEntry(Zeros(8), Zeros(3), 0, 0, 0, Zeros(6), 0, Zeros(4), 0, 0)

  type Table = s: seq<DirEntry> | |s| == 64 witness seq(64, _ => ZERO_ENTRY)

  /** What identifies a file or directory, and also one 15-byte index record. */
  datatype Key = Key(parent: word, name: Name, ext: Ext)

  type Records = s: seq<Key> | |s| == 512 witness seq(512, _ => Key(0, Zeros(8), Zeros(3)))

  // ---- file allocation table ----

  function EncodeFat(fat: Fat): (c: Cluster) {
    seq(2048, j requires 0 <= j < 2048 => EncodeWord(fat[j / 4])[j % 4])
  }

  function DecodeFat(c: Cluster): (fat: Fat) {
    seq(512, i requires 0 <= i < 512 => DecodeWord(c[4 * i..4 * i + 4]))
  }

  lemma EncodedLink(fat: Fat, i: nat)
    requires i < 512
    ensures EncodeFat(fat)[4 * i..4 * i + 4] == EncodeWord(fat[i])
  {
    var e, s := EncodeFat(fat)[4 * i..4 * i + 4], EncodeWord(fat[i]);
    forall j | 0 <= j < 4
      ensures e[j] == s[j]
    {
      assert (4 * i + j) / 4 == i && (4 * i + j) % 4 == j;
    }
  }

  lemma FatRoundTrip(fat: Fat)
    ensures DecodeFat(EncodeFat(fat)) == fat
  {
    var c := EncodeFat(fat);
    forall i | 0 <= i < 512
      ensures DecodeFat(c)[i] == fat[i]
    {
      EncodedLink(fat, i);
      WordRoundTrip(fat[i]);
    }
  }

  lemma FatBytesRoundTrip(c: Cluster)
    ensures EncodeFat(DecodeFat(c)) == c
  {
    var fat := DecodeFat(c);
    forall j | 0 <= j < 2048
      ensures EncodeFat(fat)[j] == c[j]
    {
      var i := j / 4;
      WordBytesRoundTrip(c[4 * i..4 * i + 4]);
    }
  }

  /** A link is the four bytes at its place, the low one first. */
  lemma LinkBytes(c: Cluster, i: nat)
    requires i < 512
    ensures DecodeFat(c)[i]
         == c[4 * i] + c[4 * i + 1] as int * 0x100 + c[4 * i + 2] as int * 0x1_0000 + c[4 * i + 3] as int * 0x100_0000
  {
  }

  // ---- directory table ----

  function EncodeEntry(e: DirEntry): (s: seq<byte>)
    ensures |s| == 32
  {
    e.name + e.ext + [e.attribute, e.userAttribute, e.undelete] + e.times + EncodeHalf(e.clusterHigh)
    + e.modified + EncodeHalf(e.clusterLow) + EncodeWord(e.filesize)
  }

  function DecodeEntry(s: seq<byte>): DirEntry
    requires |s| == 32
  {
    DirEntry(s[..8], s[8..11], s[11], s[12], s[13], s[14..20], DecodeHalf(s[20..22]),
             s[22..26], DecodeHalf(s[26..28]), DecodeWord(s[28..32]))
  }

  lemma EntryRoundTrip(e: DirEntry)
    ensures DecodeEntry(EncodeEntry(e)) == e
  {
    var s := EncodeEntry(e);
    assert s[..8] == e.name;
    assert s[8..11] == e.ext;
    assert s[14..20] == e.times;
    assert s[20..22] == EncodeHalf(e.clusterHigh);
    assert s[22..26] == e.modified;
    assert s[26..28] == EncodeHalf(e.clusterLow);
    assert s[28..32] == s[28..];
    assert s[28..] == EncodeWord(e.filesize);
    WordRoundTrip(e.filesize);
  }

  lemma EntryBytesRoundTrip(s: seq<byte>)
    requires |s| == 32
    ensures EncodeEntry(DecodeEntry(s)) == s
  {
    WordBytesRoundTrip(s[28..32]);
    assert EncodeHalf(DecodeHalf(s[20..22])) == s[20..22];
    assert EncodeHalf(DecodeHalf(s[26..28])) == s[26..28];
    assert [s[11], s[12], s[13]] == s[11..14];
  }

  function EncodeTable(t: Table): (c: Cluster) {
    seq(2048, j requires 0 <= j < 2048 => EncodeEntry(t[j / 32])[j % 32])
  }

  function DecodeTable(c: Cluster): (t: Table) {
    seq(64, i requires 0 <= i < 64 => DecodeEntry(c[32 * i..32 * i + 32]))
  }

  lemma EncodedEntry(t: Table, i: nat)
    requires i < 64
    ensures EncodeTable(t)[32 * i..32 * i + 32] == EncodeEntry(t[i])
  {
    var e, s := EncodeTable(t)[32 * i..32 * i + 32], EncodeEntry(t[i]);
    forall j | 0 <= j < 32
      ensures e[j] == s[j]
    {
      assert (32 * i + j) / 32 == i && (32 * i + j) % 32 == j;
    }
  }

  lemma TableRoundTrip(t: Table)
    ensures DecodeTable(EncodeTable(t)) == t
  {
    var c := EncodeTable(t);
    forall i | 0 <= i < 64
      ensures DecodeTable(c)[i] == t[i]
    {
      EncodedEntry(t, i);
      EntryRoundTrip(t[i]);
    }
  }

  lemma TableByte(c: Cluster, j: nat)
    requires j < 2048
    ensures EncodeTable(DecodeTable(c))[j] == c[j]
  {
    hide EncodeEntry, DecodeEntry;
    var i := j / 32;
    var slice := c[32 * i..32 * i + 32];
    EntryBytesRoundTrip(slice);
    assert DecodeTable(c)[i] == DecodeEntry(slice);
    assert slice[j % 32] == c[j];
  }

  lemma TableBytesRoundTrip(c: Cluster)
    ensures EncodeTable(DecodeTable(c)) == c
  {
    forall j | 0 <= j < 2048
      ensures EncodeTable(DecodeTable(c))[j] == c[j]
    {
      TableByte(c, j);
    }
  }

  /** Where each field of a slot lies among its 32 bytes. */
  lemma EntryFields(c: Cluster, i: nat)
    requires i < 64
    ensures
      var e, b := DecodeTable(c)[i], c[32 * i..32 * i + 32];
      && e.name == b[..8] && e.ext == b[8..11]
      && e.attribute == b[11] && e.userAttribute == b[12] && e.undelete == b[13]
      && e.times == b[14..20] && e.clusterHigh == b[20] + b[21] as int * 0x100
      && e.modified == b[22..26] && e.clusterLow == b[26] + b[27] as int * 0x100
      && e.filesize == b[28] + b[29] as int * 0x100 + b[30] as int * 0x1_0000 + b[31] as int * 0x100_0000
      && e.ClusterNumber() == b[26] + b[27] as int * 0x100 + b[20] as int * 0x1_0000 + b[21] as int * 0x100_0000
  {
  }

  /** The 32 bytes of a slot, one field after the other. */
  lemma SlotBytes(c: Cluster, i: nat)
    requires i < 64
    ensures
      var e := DecodeTable(c)[i];
      c[32 * i..32 * i + 32] ==
      e.name + e.ext + [e.attribute, e.userAttribute, e.undelete] + e.times
      + [e.clusterHigh % 0x100, e.clusterHigh / 0x100] + e.modified + [e.clusterLow % 0x100, e.clusterLow / 0x100]
      + [e.filesize % 0x100, e.filesize / 0x100 % 0x100, e.filesize / 0x1_0000 % 0x100, e.filesize / 0x100_0000]
  {
    hide DecodeTable, EncodeTable, EncodeWord;
    TableBytesRoundTrip(c);
    EncodedEntry(DecodeTable(c), i);
    WordBytes(DecodeTable(c)[i].filesize);
  }

  /** Equal slots are equal bytes. */
  lemma SameByte(c: Cluster, c': Cluster, n: nat)
    requires n < 2048 && DecodeTable(c')[n / 32] == DecodeTable(c)[n / 32]
    ensures c'[n] == c[n]
  {
    hide DecodeTable, EncodeEntry;
    TableByte(c, n);
    TableByte(c', n);
  }

  // ---- index table ----

  function EncodeRecord(k: Key): (s: seq<byte>)
    ensures |s| == 15
  {
    k.name + k.ext + EncodeWord(k.parent)
  }

  function DecodeRecord(s: seq<byte>): Key
    requires |s| == 15
  {
    Key(DecodeWord(s[11..]), s[..8], s[8..11])
  }

  lemma RecordRoundTrip(k: Key)
    ensures DecodeRecord(EncodeRecord(k)) == k
  {
    var s := EncodeRecord(k);
    assert s[..8] == k.name && s[8..11] == k.ext && s[11..] == EncodeWord(k.parent);
    WordRoundTrip(k.parent);
  }

  /** Where each field of a record lies among its 15 bytes. */
  lemma RecordFields(s: seq<byte>)
    requires |s| == 15
    ensures
      var k := DecodeRecord(s);
      && k.name == s[..8] && k.ext == s[8..11]
      && k.parent == s[11] + s[12] as int * 0x100 + s[13] as int * 0x1_0000 + s[14] as int * 0x100_0000
  {
  }

  function EncodeIndex(r: Records): (s: seq<byte>)
    ensures |s| == INDEX_BYTES
  {
    seq(7680, j requires 0 <= j < 7680 => EncodeRecord(r[j / 15])[j % 15])
  }

  function DecodeIndex(s: seq<byte>): (r: Records)
    requires |s| == INDEX_BYTES
  {
    seq(512, i requires 0 <= i < 512 => DecodeRecord(s[15 * i..15 * i + 15]))
  }
}
