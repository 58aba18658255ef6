/** The in-memory disk image: 8192 blocks of 512 bytes, addressed by block. */
module DiskImage {
  import opened Bytes
  import opened Layout
  import opened StdMem

  /** The image by clusters. */
  type Image = s: seq<Cluster> | |s| == 2048 witness seq<Cluster>(2048, _ => ZERO_CLUSTER)

  function Slices(bytes: seq<byte>): (img: Image)
    requires |bytes| == 4 * 1024 * 1024
  {
    seq(2048, c requires 0 <= c < 2048 => bytes[2048 * c..2048 * c + 2048])
  }

  /** The image with the whole clusters of data stored from the given one on. */
  function PutClusters(img: Image, cluster: nat, data: seq<byte>): (r: Image)
    requires |data| % 2048 == 0 && cluster + |data| / 2048 <= 2048
  {
    seq(2048, c requires 0 <= c < 2048 =>
      if cluster <= c < cluster + |data| / 2048
      then data[2048 * (c - cluster)..2048 * (c - cluster) + 2048]
      else img[c])
  }

  /** count clusters of the image, one after the other. */
  function Joined(img: Image, cluster: nat, count: nat): (data: seq<byte>)
    requires cluster + count <= 2048
    ensures |data| == 2048 * count
  {
    if count == 0 then [] else Joined(img, cluster, count - 1) + img[cluster + count - 1]
  }

  lemma {:induction false} JoinedSlices(s: seq<byte>, cluster: nat, count: nat)
    requires |s| == 4 * 1024 * 1024 && cluster + count <= 2048
    ensures Joined(Slices(s), cluster, count) == s[2048 * cluster..2048 * (cluster + count)]
  {
    if count > 0 {
      JoinedSlices(s, cluster, count - 1);
      var last := cluster + count - 1;
      assert s[2048 * cluster..2048 * last] + s[2048 * last..2048 * last + 2048]
          == s[2048 * cluster..2048 * (last + 1)];
    }
  }

  /** A new array with the given bytes: the address of a packed structure. */
  method ToArray(s: seq<byte>) returns (a: array<byte>)
    ensures fresh(a) && a[..] == s
  {
    a := new byte[|s|](i requires 0 <= i < |s| => s[i]);
  }

  /** Copying block i after blocks 0..i-1 copies blocks 0..i. */
  lemma NextBlock(before: seq<byte>, off: nat, data: seq<byte>, start: nat, i: nat)
    requires start + 512 * (i + 1) <= |data| && off + 512 * (i + 1) <= |before|
    ensures Patch(Patch(before, off, data[start..start + 512 * i]), off + 512 * i,
                  data[start + 512 * i..start + 512 * i + 512])
         == Patch(before, off, data[start..start + 512 * (i + 1)])
  {
    PatchSplit(before, off, data[start..start + 512 * i], data[start + 512 * i..start + 512 * i + 512]);
    assert data[start..start + 512 * i] + data[start + 512 * i..start + 512 * i + 512]
        == data[start..start + 512 * (i + 1)];
  }

  lemma PatchSlices(s: seq<byte>, cluster: nat, t: seq<byte>)
    requires |s| == 4 * 1024 * 1024 && |t| % 2048 == 0 && cluster + |t| / 2048 <= 2048
    ensures Slices(Patch(s, 2048 * cluster, t)) == PutClusters(Slices(s), cluster, t)
  {
    var p := Patch(s, 2048 * cluster, t);
    forall c | 0 <= c < 2048
      ensures Slices(p)[c] == PutClusters(Slices(s), cluster, t)[c]
    {
      if cluster <= c < cluster + |t| / 2048 {
        assert p[2048 * c..2048 * c + 2048] == t[2048 * (c - cluster)..2048 * (c - cluster) + 2048];
      } else {
        assert p[2048 * c..2048 * c + 2048] == s[2048 * c..2048 * c + 2048];
      }
    }
  }

  class Disk {
    const image: array<byte>

    ghost predicate Valid()
    {
      image.Length == 4 * 1024 * 1024
    }

    ghost function Clusters(): (img: Image)
      requires Valid()
      reads image
    {
      Slices(image[..])
    }

    constructor (bytes: seq<byte>)
      requires |bytes| == 4 * 1024 * 1024
      ensures Valid() && fresh(image) && image[..] == bytes
    {
      image := new byte[|bytes|](i requires 0 <= i < |bytes| => bytes[i]);
    }

    method ReadBlocks(ptr: array<byte>, off: nat, lba: word, count: byte)
      requires Valid() && ptr != image
      requires off + 512 * count <= ptr.Length && 512 * (lba + count) <= image.Length
      modifies ptr
      ensures ptr[..] == Patch(old(ptr[..]), off, image[..][512 * lba..512 * (lba + count)])
    {
      hide Patch;
      ghost var before, blocks := ptr[..], image[..];
      PatchNothing(before, off);
      assert blocks[512 * lba..512 * (lba + 0)] == [];
      for i := 0 to count
        invariant image[..] == blocks
        invariant ptr[..] == Patch(before, off, blocks[512 * lba..512 * (lba + i)])
      {
        MemCpy(ptr, off + 512 * i, image, 512 * (lba + i), 512);
        NextBlock(before, off, blocks, 512 * lba, i);
      }
    }

    method WriteBlocks(ptr: array<byte>, off: nat, lba: word, count: byte)
      requires Valid() && ptr != image
      requires off + 512 * count <= ptr.Length && 512 * (lba + count) <= image.Length
      modifies image
      ensures image[..] == Patch(old(image[..]), 512 * lba, ptr[..][off..off + 512 * count])
    {
      hide Patch;
      ghost var before, data := image[..], ptr[..];
      PatchNothing(before, 512 * lba);
      assert data[off..off + 512 * 0] == [];
      for i := 0 to count
        invariant ptr[..] == data
        invariant image[..] == Patch(before, 512 * lba, data[off..off + 512 * i])
      {
        MemCpy(image, 512 * (lba + i), ptr, off + 512 * i, 512);
        NextBlock(before, 512 * lba, data, off, i);
      }
    }

    /** cluster_to_lba, in 32-bit arithmetic. */
    static function ClusterToLba(cluster: word): word {
      (cluster as int * CLUSTER_BLOCK_COUNT) % 0x1_0000_0000
    }

    static lemma LbaInRange(cluster: word)
      requires cluster <= 2048
      ensures ClusterToLba(cluster) == 4 * cluster
    {
    }

    /** read_clusters: whole clusters land one after the other in the buffer. */
    method ReadClusters(ptr: array<byte>, off: nat, cluster: word, count: byte)
      requires Valid() && ptr != image
      requires off + 2048 * count <= ptr.Length && cluster + count <= 2048 && count < 64
      modifies ptr
      ensures ptr[..] == Patch(old(ptr[..]), off, Joined(Clusters(), cluster, count))
      ensures ptr[off..off + 2048 * count] == image[2048 * cluster..2048 * (cluster + count)]
    {
      LbaInRange(cluster);
      JoinedSlices(image[..], cluster, count);
      var lba, blocks := ClusterToLba(cluster), count * CLUSTER_BLOCK_COUNT;
      assert 512 * lba == 2048 * cluster && 512 * blocks == 2048 * count;
      ReadBlocks(ptr, off, lba, blocks);
    }

    /** write_clusters: exactly the addressed clusters change. */
    method WriteClusters(ptr: array<byte>, off: nat, cluster: word, count: byte)
      requires Valid() && ptr != image
      requires off + 2048 * count <= ptr.Length && cluster + count <= 2048 && count < 64
      modifies image
      ensures Clusters() == PutClusters(old(Clusters()), cluster, ptr[off..off + 2048 * count])
      ensures image[2048 * cluster..2048 * (cluster + count)] == ptr[off..off + 2048 * count]
      ensures image[..2048 * cluster] == old(image[..2048 * cluster])
      ensures image[2048 * (cluster + count)..] == old(image[2048 * (cluster + count)..])
    {
      LbaInRange(cluster);
      var lba, blocks := ClusterToLba(cluster), count * CLUSTER_BLOCK_COUNT;
      assert 512 * lba == 2048 * cluster && 512 * blocks == 2048 * count;
      ghost var before, data := image[..], ptr[off..off + 2048 * count];
      WriteBlocks(ptr, off, lba, blocks);
      assert image[..] == Patch(before, 2048 * cluster, data);
      PatchSlices(before, cluster, data);
    }
  }

  /** Storing one cluster is one update of the image. */
  lemma PutOne(img: Image, cluster: nat, data: seq<byte>)
    requires |data| == 2048 && cluster < 2048
    ensures PutClusters(img, cluster, data) == img[cluster := data]
  {
    assert data[0..2048] == data;
  }
}
