/**
  * The index: an array of (name, ext, parent) records kept in clusters 3, 4
  * and 5, with its length in FAT entry 3. The in-memory table is longer than
  * the three clusters; its tail is whatever the stack held ("stack" below).
  */
module IndexFile {
  import opened Bytes
  import opened Layout
  import opened DiskImage

  type Stack = s: seq<byte> | |s| == 1536 witness Zeros(1536)

  function FatOf(img: Image): Fat {
    DecodeFat(img[1])
  }

  /** The index table as read into memory. */
  function LoadIndex(img: Image, stack: Stack): Records {
    DecodeIndex(Joined(img, 3, 3) + stack)
  }

  /** The image after the first three clusters of the table were stored. */
  function SaveIndex(img: Image, r: Records): Image {
    PutClusters(img, 3, EncodeIndex(r)[..PERSISTED_BYTES])
  }

  /** The records that lie wholly within the three clusters. */
  function Persisted(img: Image): (r: seq<Key>)
    ensures |r| == PERSISTED_RECORDS
  {
    var bytes := Joined(img, 3, 3);
    seq(409, i requires 0 <= i < 409 => DecodeRecord(bytes[15 * i..15 * i + 15]))
  }

  lemma LoadKeepsPersisted(img: Image, stack: Stack)
    ensures LoadIndex(img, stack)[..PERSISTED_RECORDS] == Persisted(img)
  {
    var bytes := Joined(img, 3, 3);
    forall i | 0 <= i < 409
      ensures LoadIndex(img, stack)[i] == Persisted(img)[i]
    {
      assert (bytes + stack)[15 * i..15 * i + 15] == bytes[15 * i..15 * i + 15];
    }
  }

  lemma SavedBytes(img: Image, r: Records)
    ensures Joined(SaveIndex(img, r), 3, 3) == EncodeIndex(r)[..PERSISTED_BYTES]
  {
    var img', b := SaveIndex(img, r), EncodeIndex(r)[..6144];
    assert img'[3] == b[0..2048] && img'[4] == b[2048..4096] && img'[5] == b[4096..6144];
    assert Joined(img', 3, 1) == [] + img'[3];
    assert Joined(img', 3, 2) == Joined(img', 3, 1) + img'[4];
    assert b == b[0..2048] + b[2048..4096] + b[4096..6144];
  }

  lemma EncodedRecord(r: Records, i: nat)
    requires i < 512
    ensures EncodeIndex(r)[15 * i..15 * i + 15] == EncodeRecord(r[i])
  {
    var e, s := EncodeIndex(r)[15 * i..15 * i + 15], EncodeRecord(r[i]);
    forall j | 0 <= j < 15
      ensures e[j] == s[j]
    {
      assert (15 * i + j) / 15 == i && (15 * i + j) % 15 == j;
    }
  }

  /** Records straddling a cluster boundary survive a store as well. */
  lemma SaveKeepsRecords(img: Image, r: Records)
    ensures Persisted(SaveIndex(img, r)) == r[..PERSISTED_RECORDS]
  {
    SavedBytes(img, r);
    forall i | 0 <= i < 409
      ensures Persisted(SaveIndex(img, r))[i] == r[i]
    {
      EncodedRecord(r, i);
      assert EncodeIndex(r)[..6144][15 * i..15 * i + 15] == EncodeIndex(r)[15 * i..15 * i + 15];
      RecordRoundTrip(r[i]);
    }
  }

  lemma RecordBytes(s: seq<byte>)
    requires |s| == 15
    ensures EncodeRecord(DecodeRecord(s)) == s
  {
    WordBytesRoundTrip(s[11..]);
  }

  /** A stored record is read back whatever the stack holds exactly when its index is below 409. */
  lemma RecordPersistsIff(img: Image, r: Records, i: nat)
    requires i < CLUSTER_MAP_SIZE
    ensures (forall stack: Stack :: LoadIndex(SaveIndex(img, r), stack)[i] == r[i]) <==> i < PERSISTED_RECORDS
  {
    var img' := SaveIndex(img, r);
    if i < PERSISTED_RECORDS {
      SaveKeepsRecords(img, r);
      forall stack: Stack
        ensures LoadIndex(img', stack)[i] == r[i]
      {
        LoadKeepsPersisted(img', stack);
        assert LoadIndex(img', stack)[..409][i] == LoadIndex(img', stack)[i];
      }
    } else {
      var last := EncodeRecord(r[i])[14];
      var other: byte := if last == 0 then 1 else 0;
      var stack: Stack := seq(1536, _ => other);
      var s := (Joined(img', 3, 3) + stack)[15 * i..15 * i + 15];
      assert s[14] == other;
      RecordBytes(s);
      assert LoadIndex(img', stack)[i] != r[i];
    }
  }

  // ---- record sequences ----

  ghost predicate Distinct<T>(s: seq<T>) {
    forall i, j :: 0 <= i < j < |s| ==> s[i] != s[j]
  }

  /** s without the first occurrence of k, the rest in order. */
  function Without(s: seq<Key>, k: Key): (r: seq<Key>) {
    if s == [] then []
    else if s[0] == k then s[1..]
    else [s[0]] + Without(s[1..], k)
  }

  /** Where the first occurrence of k is, or the length. */
  function Find(s: seq<Key>, k: Key): (i: nat)
    ensures i <= |s|
    ensures i < |s| ==> s[i] == k
    ensures i == |s| <==> k !in s
    ensures forall j :: 0 <= j < i ==> s[j] != k
  {
    if s == [] then 0
    else if s[0] == k then 0
    else 1 + Find(s[1..], k)
  }

  lemma {:induction false} WithoutIsSplice(s: seq<Key>, k: Key)
    requires k in s
    ensures Without(s, k) == s[..Find(s, k)] + s[Find(s, k) + 1..]
  {
    if s[0] != k {
      WithoutIsSplice(s[1..], k);
    }
  }

  lemma {:induction false} WithoutLength(s: seq<Key>, k: Key)
    ensures |Without(s, k)| == if k in s then |s| - 1 else |s|
  {
    if s != [] && s[0] != k {
      WithoutLength(s[1..], k);
    }
  }

  /** On distinct records, removal removes exactly the given one. */
  lemma {:induction false} WithoutMembers(s: seq<Key>, k: Key)
    requires Distinct(s)
    ensures Distinct(Without(s, k))
    ensures forall x :: x in Without(s, k) <==> x in s && x != k
  {
    if s != [] {
      WithoutMembers(s[1..], k);
      assert s == [s[0]] + s[1..];
      assert s[0] !in s[1..];
    }
  }

  /** Only the first occurrence goes. */
  lemma {:induction false} WithoutFirst(a: seq<Key>, k: Key, b: seq<Key>)
    requires k !in a
    ensures Without(a + [k] + b, k) == a + b
  {
    if a == [] {
      assert [] + [k] + b == [k] + b;
    } else {
      WithoutFirst(a[1..], k, b);
      assert (a + [k] + b)[1..] == a[1..] + [k] + b;
    }
  }

  lemma {:induction false} WithoutAppend(s: seq<Key>, k: Key)
    requires k !in s
    ensures Without(s + [k], k) == s
  {
    if s == [] {
    } else {
      WithoutAppend(s[1..], k);
      assert (s + [k])[1..] == s[1..] + [k];
    }
  }

  /** The records from i on moved one place down, within the first n. */
  function ShiftDown(r: Records, i: nat, n: nat): Records
    requires n <= 512
  {
    seq(512, j requires 0 <= j < 512 => if i <= j < n - 1 then r[j + 1] else r[j])
  }

  lemma ShiftIsWithout(r: Records, n: nat, k: Key)
    requires n <= 512 && k in r[..n]
    ensures ShiftDown(r, Find(r[..n], k), n)[..n - 1] == Without(r[..n], k)
  {
    WithoutIsSplice(r[..n], k);
  }

  /** The parents of the records with this name and extension, in order. */
  function Parents(s: seq<Key>, name: Name, ext: Ext): (p: seq<word>)
    ensures |p| <= |s|
  {
    if s == [] then []
    else
      var p := Parents(s[..|s| - 1], name, ext);
      var k := s[|s| - 1];
      if k.name == name && k.ext == ext then p + [k.parent] else p
  }

  lemma {:induction false} ParentsMembers(s: seq<Key>, name: Name, ext: Ext)
    ensures forall p :: p in Parents(s, name, ext) <==> Key(p, name, ext) in s
    ensures Distinct(s) ==> Distinct(Parents(s, name, ext))
  {
    if s != [] {
      var front, k := s[..|s| - 1], s[|s| - 1];
      ParentsMembers(front, name, ext);
      assert s == front + [k];
      assert k.name == name && k.ext == ext ==> k == Key(k.parent, name, ext);
    }
  }

  lemma ParentsOfOne(k: Key, name: Name, ext: Ext)
    ensures Parents([], name, ext) == []
    ensures Parents([k], name, ext) == if k.name == name && k.ext == ext then [k.parent] else []
  {
  }

  lemma ParentsSnoc(s: seq<Key>, k: Key, name: Name, ext: Ext)
    ensures Parents(s + [k], name, ext) == Parents(s, name, ext) + Parents([k], name, ext)
  {
    ParentsOfOne(k, name, ext);
    assert (s + [k])[..|s|] == s;
  }

  /** A search goes record by record, in order. */
  lemma {:induction false} ParentsSplit(a: seq<Key>, b: seq<Key>, name: Name, ext: Ext)
    ensures Parents(a + b, name, ext) == Parents(a, name, ext) + Parents(b, name, ext)
  {
    ParentsOfOne(Key(0, name, ext), name, ext);
    hide Parents;
    if b == [] {
      assert a + b == a;
    } else {
      var front, k := b[..|b| - 1], b[|b| - 1];
      ParentsSplit(a, front, name, ext);
      ParentsSnoc(a + front, k, name, ext);
      ParentsSnoc(front, k, name, ext);
      assert a + b == a + front + [k] && b == front + [k];
    }
  }

  // ---- effects on the image ----

  /** The count of records lives in the FAT entry of cluster 3. */
  function Count(img: Image): word {
    FatOf(img)[INDEX_CLUSTER]
  }

  /** insert_index */
  function InsertIndex(img: Image, k: Key, stack: Stack): Image
    requires Count(img) < CLUSTER_MAP_SIZE
  {
    var n := Count(img);
    SaveIndex(img, LoadIndex(img, stack)[n := k])[1 := EncodeFat(FatOf(img)[INDEX_CLUSTER := n + 1])]
  }

  /** delete_index */
  function DeleteIndex(img: Image, k: Key, stack: Stack): Image
    requires Count(img) <= CLUSTER_MAP_SIZE
  {
    var n, r := Count(img), LoadIndex(img, stack);
    if k in r[..n] then
      SaveIndex(img, ShiftDown(r, Find(r[..n], k), n))[1 := EncodeFat(FatOf(img)[INDEX_CLUSTER := n - 1])]
    else img
  }

  /** The records in use that persist. */
  function Listed(img: Image): seq<Key> {
    var n := Count(img);
    if n <= PERSISTED_RECORDS then Persisted(img)[..n] else Persisted(img)
  }

  /** The records are the given keys, each once. */
  ghost predicate Lists(s: seq<Key>, keys: set<Key>) {
    Distinct(s) && forall k :: k in s <==> k in keys
  }

  /** Whatever the stack holds, the records read back are the given keys, each once. */
  ghost predicate IndexAgrees(img: Image, keys: set<Key>) {
    && Count(img) <= CLUSTER_MAP_SIZE
    && forall stack: Stack :: Lists(LoadIndex(img, stack)[..Count(img)], keys)
  }

  /** The first records do not depend on the stack. */
  lemma LoadedPrefix(img: Image, stack: Stack, n: nat)
    requires n <= PERSISTED_RECORDS
    ensures LoadIndex(img, stack)[..n] == Persisted(img)[..n]
  {
    LoadKeepsPersisted(img, stack);
    assert LoadIndex(img, stack)[..409][..n] == LoadIndex(img, stack)[..n];
  }

  /** A stack of zeros but for the last byte of the n-th record. */
  function StackWith(n: nat, b: byte): Stack
    requires PERSISTED_RECORDS < n <= CLUSTER_MAP_SIZE
  {
    Zeros(1536)[15 * n - 6145 := b]
  }

  /** Two stacks that agree on every record but the n-th, which ends in their byte. */
  lemma LastRecordIsStack(img: Image, n: nat, b: byte)
    requires PERSISTED_RECORDS < n <= CLUSTER_MAP_SIZE
    ensures LoadIndex(img, StackWith(n, b))[..n - 1] == LoadIndex(img, Zeros(1536))[..n - 1]
    ensures EncodeRecord(LoadIndex(img, StackWith(n, b))[n - 1])[14] == b
  {
    var bytes, stack := Joined(img, 3, 3), StackWith(n, b);
    forall i | 0 <= i < n - 1
      ensures LoadIndex(img, stack)[i] == LoadIndex(img, Zeros(1536))[i]
    {
      assert (bytes + stack)[15 * i..15 * i + 15] == (bytes + Zeros(1536))[15 * i..15 * i + 15];
    }
    var s := (bytes + stack)[15 * (n - 1)..15 * (n - 1) + 15];
    assert s[14] == b;
    RecordBytes(s);
  }

  lemma LastOfList(s: seq<Key>, s': seq<Key>, keys: set<Key>)
    requires Lists(s, keys) && Lists(s', keys) && |s| == |s'| > 0 && s[..|s| - 1] == s'[..|s| - 1]
    ensures s[|s| - 1] == s'[|s| - 1]
  {
    forall j | 0 <= j < |s| - 1
      ensures s'[j] == s[j]
    {
      assert s'[..|s| - 1][j] == s[..|s| - 1][j];
    }
    assert s[|s| - 1] in s && s[|s| - 1] in s';
  }

  /** Agreement needs every record to be stored: beyond 409 the stack decides. */
  lemma {:induction false} AgreesIff(img: Image, keys: set<Key>)
    ensures IndexAgrees(img, keys) <==> Count(img) <= PERSISTED_RECORDS && Lists(Listed(img), keys)
  {
    hide LoadIndex, Persisted, Count, Lists, EncodeRecord, StackWith;
    var n := Count(img);
    if n <= PERSISTED_RECORDS {
      forall stack: Stack
        ensures LoadIndex(img, stack)[..n] == Listed(img)
      {
        LoadedPrefix(img, stack, n);
      }
      assert Lists(LoadIndex(img, Zeros(1536))[..n], keys) == Lists(Listed(img), keys);
    } else if IndexAgrees(img, keys) {
      LastRecordIsStack(img, n, 0);
      LastRecordIsStack(img, n, 1);
      var r, r' := LoadIndex(img, StackWith(n, 0)), LoadIndex(img, StackWith(n, 1));
      assert r[..n][..n - 1] == r[..n - 1] && r'[..n][..n - 1] == r'[..n - 1];
      LastOfList(r[..n], r'[..n], keys);
    }
  }

  lemma JoinedDependsOn(img: Image, img': Image)
    requires img[3] == img'[3] && img[4] == img'[4] && img[5] == img'[5]
    ensures Joined(img, 3, 3) == Joined(img', 3, 3)
    ensures Persisted(img) == Persisted(img')
  {
    assert Joined(img, 3, 1) == Joined(img', 3, 1);
    assert Joined(img, 3, 2) == Joined(img', 3, 2);
  }

  lemma Elsewhere(img: Image, r: Records, fat: Fat)
    ensures forall c :: 6 <= c < 2048 || c == 2 || c == 0 ==> SaveIndex(img, r)[1 := EncodeFat(fat)][c] == img[c]
    ensures FatOf(SaveIndex(img, r)[1 := EncodeFat(fat)]) == fat
    ensures Joined(SaveIndex(img, r)[1 := EncodeFat(fat)], 3, 3) == Joined(SaveIndex(img, r), 3, 3)
  {
    FatRoundTrip(fat);
    JoinedDependsOn(SaveIndex(img, r), SaveIndex(img, r)[1 := EncodeFat(fat)]);
  }

  /** The part of the records that is stored. */
  function Stored(s: seq<Key>): seq<Key> {
    if |s| <= PERSISTED_RECORDS then s else s[..PERSISTED_RECORDS]
  }

  /** What storing a table and its count leaves. */
  lemma StoredRecords(img: Image, r: Records, n: word)
    requires n <= CLUSTER_MAP_SIZE
    ensures
      var img' := SaveIndex(img, r)[1 := EncodeFat(FatOf(img)[INDEX_CLUSTER := n])];
      && FatOf(img') == FatOf(img)[INDEX_CLUSTER := n]
      && (forall c :: 6 <= c < 2048 || c == 2 || c == 0 ==> img'[c] == img[c])
      && Listed(img') == Stored(r[..n])
  {
    hide EncodeFat, DecodeFat, SaveIndex, Persisted, FatOf;
    var fat: Fat := FatOf(img)[INDEX_CLUSTER := n];
    Elsewhere(img, r, fat);
    JoinedDependsOn(SaveIndex(img, r), SaveIndex(img, r)[1 := EncodeFat(fat)]);
    SaveKeepsRecords(img, r);
    if n <= PERSISTED_RECORDS {
      assert r[..409][..n] == r[..n];
    } else {
      assert r[..n][..409] == r[..409];
    }
  }

  /** Insertion appends a record, touching only the index and the count; what of the records is stored is listed. */
  lemma InsertedRecord(img: Image, k: Key, stack: Stack)
    requires Count(img) < CLUSTER_MAP_SIZE
    ensures
      var img' := InsertIndex(img, k, stack);
      && FatOf(img') == FatOf(img)[INDEX_CLUSTER := Count(img) + 1]
      && (forall c :: 6 <= c < 2048 || c == 2 || c == 0 ==> img'[c] == img[c])
      && Listed(img') == Stored(LoadIndex(img, stack)[..Count(img)] + [k])
      && (Count(img) < PERSISTED_RECORDS ==> Listed(img') == Listed(img) + [k])
  {
    hide EncodeFat, SaveIndex, LoadIndex, Persisted, FatOf;
    var n, r := Count(img), LoadIndex(img, stack);
    StoredRecords(img, r[n := k], n + 1);
    assert r[n := k][..n + 1] == r[..n] + [k];
    if n < PERSISTED_RECORDS {
      LoadedPrefix(img, stack, n);
    }
  }

  /** Inserting a new key keeps the agreement exactly while fewer than 409 records are in place. */
  lemma {:induction false} InsertKeepsAgreementIff(img: Image, keys: set<Key>, k: Key, stack: Stack)
    requires IndexAgrees(img, keys) && k !in keys
    ensures Count(img) < CLUSTER_MAP_SIZE
    ensures IndexAgrees(InsertIndex(img, k, stack), keys + {k}) <==> Count(img) < PERSISTED_RECORDS
  {
    hide IndexAgrees, InsertIndex, Listed, FatOf;
    AgreesIff(img, keys);
    AgreesIff(InsertIndex(img, k, stack), keys + {k});
    InsertedRecord(img, k, stack);
  }

  /**
    * Deletion removes the first matching record of those read into memory and
    * keeps the order of the rest; what of them is stored is listed.
    */
  lemma {:induction false} RemovedRecord(img: Image, k: Key, stack: Stack)
    requires Count(img) <= CLUSTER_MAP_SIZE && k in LoadIndex(img, stack)[..Count(img)]
    ensures
      var img' := DeleteIndex(img, k, stack);
      && FatOf(img') == FatOf(img)[INDEX_CLUSTER := Count(img) - 1]
      && (forall c :: 6 <= c < 2048 || c == 2 || c == 0 ==> img'[c] == img[c])
      && Listed(img') == Stored(Without(LoadIndex(img, stack)[..Count(img)], k))
  {
    hide EncodeFat, SaveIndex, LoadIndex, Find, Without, ShiftDown, FatOf, Listed, Stored;
    var n, r := Count(img), LoadIndex(img, stack);
    StoredRecords(img, ShiftDown(r, Find(r[..n], k), n), n - 1);
    ShiftIsWithout(r, n, k);
  }

  /** While every record is stored, what is listed is all there is. */
  lemma RemovedListed(img: Image, k: Key, stack: Stack)
    requires Count(img) <= PERSISTED_RECORDS && k in Listed(img)
    ensures
      var img' := DeleteIndex(img, k, stack);
      && FatOf(img') == FatOf(img)[INDEX_CLUSTER := Count(img) - 1]
      && Listed(img') == Without(Listed(img), k)
  {
    hide DeleteIndex, LoadIndex, Persisted, FatOf;
    LoadedPrefix(img, stack, Count(img));
    RemovedRecord(img, k, stack);
    WithoutLength(Listed(img), k);
  }

  lemma {:induction false} DeleteKeepsAgreement(img: Image, keys: set<Key>, k: Key, stack: Stack)
    requires IndexAgrees(img, keys) && k in keys
    ensures IndexAgrees(DeleteIndex(img, k, stack), keys - {k})
  {
    hide IndexAgrees, DeleteIndex, Listed, FatOf;
    AgreesIff(img, keys);
    AgreesIff(DeleteIndex(img, k, stack), keys - {k});
    RemovedListed(img, k, stack);
    WithoutMembers(Listed(img), k);
  }

  /** A search names exactly the directories that hold such an entry, each once. */
  lemma SearchFindsAll(img: Image, keys: set<Key>, stack: Stack, name: Name, ext: Ext)
    requires IndexAgrees(img, keys)
    ensures
      var found := Parents(LoadIndex(img, stack)[..Count(img)], name, ext);
      && (forall p :: p in found <==> Key(p, name, ext) in keys)
      && Distinct(found)
  {
    hide LoadIndex, Count;
    ParentsMembers(LoadIndex(img, stack)[..Count(img)], name, ext);
  }

  // ---- the index clusters, byte by byte ----

  lemma LoadedByte(img: Image, stack: Stack, j: nat)
    requires j < INDEX_BYTES
    ensures EncodeRecord(LoadIndex(img, stack)[j / 15])[j % 15] == (Joined(img, 3, 3) + stack)[j]
  {
    hide EncodeRecord, DecodeRecord, Joined;
    var all, i := Joined(img, 3, 3) + stack, j / 15;
    RecordBytes(all[15 * i..15 * i + 15]);
    assert all[15 * i..15 * i + 15][j % 15] == all[j];
  }

  lemma JoinedThree(img: Image)
    ensures Joined(img, 3, 3) == img[3][..] + img[4] + img[5]
  {
    assert Joined(img, 3, 1) == [] + img[3];
    assert Joined(img, 3, 2) == Joined(img, 3, 1) + img[4];
  }

  /** The three clusters after a table was stored. */
  lemma StoredByte(img: Image, r: Records, fat: Fat, j: nat)
    requires j < PERSISTED_BYTES
    ensures
      var img' := SaveIndex(img, r)[1 := EncodeFat(fat)];
      (img'[3][..] + img'[4] + img'[5])[j] == EncodeRecord(r[j / 15])[j % 15]
  {
    hide EncodeFat, EncodeRecord, SaveIndex, Joined;
    var img' := SaveIndex(img, r)[1 := EncodeFat(fat)];
    JoinedThree(img');
    Elsewhere(img, r, fat);
    SavedBytes(img, r);
  }

  lemma RecordOf(j: nat, n: nat)
    ensures j / 15 == n <==> 15 * n <= j < 15 * n + 15
    ensures j / 15 == n ==> j % 15 == j - 15 * n
  {
  }

  /**
    * After an insertion the bytes of record n are the name, the extension and the
    * parent, the low byte first; every other byte of the index clusters is as before.
    */
  lemma {:induction false} InsertedBytes(img: Image, k: Key, stack: Stack)
    requires Count(img) < CLUSTER_MAP_SIZE
    ensures
      var img', n, p := InsertIndex(img, k, stack), Count(img), k.parent;
      var before, after := img[3][..] + img[4] + img[5], img'[3][..] + img'[4] + img'[5];
      var record := k.name + k.ext + [p % 0x100, p / 0x100 % 0x100, p / 0x1_0000 % 0x100, p / 0x100_0000];
      forall j :: 0 <= j < 6144 ==> after[j] == if 15 * n <= j < 15 * n + 15 then record[j - 15 * n] else before[j]
  {
    hide EncodeFat, SaveIndex, LoadIndex, Joined, FatOf, EncodeWord;
    var img', n, r := InsertIndex(img, k, stack), Count(img), LoadIndex(img, stack);
    var before, after := img[3][..] + img[4] + img[5], img'[3][..] + img'[4] + img'[5];
    WordBytes(k.parent);
    JoinedThree(img);
    forall j | 0 <= j < 6144
      ensures after[j] == if 15 * n <= j < 15 * n + 15 then EncodeRecord(k)[j - 15 * n] else before[j]
    {
      hide EncodeRecord;
      StoredByte(img, r[n := k], FatOf(img)[INDEX_CLUSTER := n + 1], j);
      LoadedByte(img, stack, j);
      RecordOf(j, n);
    }
  }

  lemma NextRecord(j: nat, first: nat, n: nat)
    requires n > 0
    ensures first <= j / 15 < n - 1 <==> 15 * first <= j < 15 * (n - 1)
    ensures (j + 15) / 15 == j / 15 + 1 && (j + 15) % 15 == j % 15
  {
  }

  lemma RemovedByte(img: Image, k: Key, stack: Stack, j: nat)
    requires Count(img) <= CLUSTER_MAP_SIZE && k in LoadIndex(img, stack)[..Count(img)] && j < 6144
    ensures
      var img', n := DeleteIndex(img, k, stack), Count(img);
      var first := Find(LoadIndex(img, stack)[..n], k);
      (img'[3][..] + img'[4] + img'[5])[j]
      == (Joined(img, 3, 3) + stack)[if 15 * first <= j < 15 * (n - 1) then j + 15 else j]
  {
    hide EncodeFat, SaveIndex, LoadIndex, Joined, FatOf, EncodeRecord, Find;
    var n, r := Count(img), LoadIndex(img, stack);
    var first := Find(r[..n], k);
    StoredByte(img, ShiftDown(r, first, n), FatOf(img)[INDEX_CLUSTER := n - 1], j);
    NextRecord(j, first, n);
    LoadedByte(img, stack, if 15 * first <= j < 15 * (n - 1) then j + 15 else j);
  }

  /**
    * After a removal the records behind the first match, up to the last, are one
    * record further down; every other byte of the index clusters is as before.
    */
  lemma {:induction false} RemovedBytes(img: Image, k: Key, stack: Stack)
    requires Count(img) <= CLUSTER_MAP_SIZE && k in LoadIndex(img, stack)[..Count(img)]
    ensures
      var img', n := DeleteIndex(img, k, stack), Count(img);
      var first := Find(LoadIndex(img, stack)[..n], k);
      var before, after := img[3][..] + img[4] + img[5] + stack, img'[3][..] + img'[4] + img'[5];
      forall j :: 0 <= j < 6144 ==> after[j] == if 15 * first <= j < 15 * (n - 1) then before[j + 15] else before[j]
  {
    hide LoadIndex, Joined, FatOf, Find, DeleteIndex;
    JoinedThree(img);
    forall j | 0 <= j < 6144 {
      RemovedByte(img, k, stack, j);
    }
  }
}
