/** The freestanding memory routines. A C pointer is an array with an offset. */
module StdMem {
  import opened Bytes

  /** s with the bytes from off on replaced by t. */
  function Patch(s: seq<byte>, off: nat, t: seq<byte>): (r: seq<byte>)
    requires off + |t| <= |s|
    ensures |r| == |s|
  {
    s[..off] + t + s[off + |t|..]
  }

  lemma PatchNothing(s: seq<byte>, off: nat)
    requires off <= |s|
    ensures Patch(s, off, []) == s
  {
  }

  lemma IsPatch(s: seq<byte>, off: nat, t: seq<byte>, r: seq<byte>)
    requires off + |t| <= |s| == |r|
    requires forall j :: 0 <= j < |s| ==> r[j] == if off <= j < off + |t| then t[j - off] else s[j]
    ensures r == Patch(s, off, t)
  {
  }

  lemma PatchAt(s: seq<byte>, off: nat, t: seq<byte>)
    requires off + |t| <= |s|
    ensures forall j :: 0 <= j < |s| ==> Patch(s, off, t)[j] == if off <= j < off + |t| then t[j - off] else s[j]
  {
  }

  /** Two adjacent patches are one patch. */
  lemma PatchSplit(s: seq<byte>, off: nat, t: seq<byte>, u: seq<byte>)
    requires off + |t| + |u| <= |s|
    ensures Patch(Patch(s, off, t), off + |t|, u) == Patch(s, off, t + u)
  {
    var p := Patch(s, off, t);
    assert p[..off + |t|] == s[..off] + t;
    assert p[off + |t| + |u|..] == s[off + |t| + |u|..];
    assert s[..off] + (t + u) == s[..off] + t + u;
  }

  method MemSet(s: array<byte>, off: nat, c: byte, n: nat)
    requires off + n <= s.Length
    modifies s
    ensures s[..] == Patch(old(s[..]), off, seq(n, _ => c))
    ensures forall j :: 0 <= j < s.Length ==> s[j] == if off <= j < off + n then c else old(s[j])
  {
    for i := 0 to n
      invariant forall j :: 0 <= j < s.Length ==> s[j] == if off <= j < off + i then c else old(s[j])
    {
      s[off + i] := c;
    }
    hide Patch;
    IsPatch(old(s[..]), off, seq(n, _ => c), s[..]);
  }

  /** `restrict`: source and destination do not overlap. */
  method MemCpy(dst: array<byte>, dOff: nat, src: array<byte>, sOff: nat, n: nat)
    requires dOff + n <= dst.Length && sOff + n <= src.Length
    requires dst == src ==> dOff + n <= sOff || sOff + n <= dOff
    modifies dst
    ensures dst[..] == Patch(old(dst[..]), dOff, old(src[sOff..sOff + n]))
    ensures forall j :: 0 <= j < dst.Length ==>
                          dst[j] == if dOff <= j < dOff + n then old(src[sOff + j - dOff]) else old(dst[j])
  {
    for i := 0 to n
      invariant forall j :: 0 <= j < dst.Length ==>
                              dst[j] == if dOff <= j < dOff + i then old(src[sOff + j - dOff]) else old(dst[j])
      invariant dst != src ==> src[..] == old(src[..])
    {
      assert dst == src ==> !(dOff <= sOff + i < dOff + i);
      dst[dOff + i] := src[sOff + i];
    }
    hide Patch;
    IsPatch(old(dst[..]), dOff, old(src[sOff..sOff + n]), dst[..]);
  }

  /** Safe when the destination starts no later than the source. */
  method MoveForward(dst: array<byte>, dOff: nat, src: array<byte>, sOff: nat, n: nat)
    requires dOff + n <= dst.Length && sOff + n <= src.Length
    requires dst == src ==> dOff <= sOff
    modifies dst
    ensures dst[..] == Patch(old(dst[..]), dOff, old(src[sOff..sOff + n]))
  {
    ghost var d, s := dst[..], src[..];
    for i := 0 to n
      invariant forall j :: 0 <= j < dst.Length ==> dst[j] == if dOff <= j < dOff + i then s[sOff + j - dOff] else d[j]
      invariant forall j :: sOff + i <= j < sOff + n ==> src[j] == s[j]
    {
      dst[dOff + i] := src[sOff + i];
    }
    hide Patch;
    IsPatch(d, dOff, s[sOff..sOff + n], dst[..]);
  }

  /** Safe when the destination starts no earlier than the source. */
  method MoveBackward(dst: array<byte>, dOff: nat, src: array<byte>, sOff: nat, n: nat)
    requires dOff + n <= dst.Length && sOff + n <= src.Length
    requires dst == src ==> sOff <= dOff
    modifies dst
    ensures dst[..] == Patch(old(dst[..]), dOff, old(src[sOff..sOff + n]))
  {
    ghost var d, s := dst[..], src[..];
    for i := n downto 0
      invariant forall j :: 0 <= j < dst.Length ==>
                              dst[j] == if dOff + i <= j < dOff + n then s[sOff + j - dOff] else d[j]
      invariant forall j :: sOff <= j < sOff + i ==> src[j] == s[j]
    {
      dst[dOff + i] := src[sOff + i];
    }
    hide Patch;
    IsPatch(d, dOff, s[sOff..sOff + n], dst[..]);
  }

  /**
    * Any overlap is allowed. Addresses in different arrays compare one way or
    * the other; addresses in the same array compare as their offsets.
    */
  method MemMove(dst: array<byte>, dOff: nat, src: array<byte>, sOff: nat, n: nat)
    requires dOff + n <= dst.Length && sOff + n <= src.Length
    modifies dst
    ensures dst[..] == Patch(old(dst[..]), dOff, old(src[sOff..sOff + n]))
    ensures forall j :: 0 <= j < dst.Length ==>
                          dst[j] == if dOff <= j < dOff + n then old(src[sOff + j - dOff]) else old(dst[j])
  {
    var below: bool := *;
    if dst == src {
      below := dOff < sOff;
    }
    if below {
      MoveForward(dst, dOff, src, sOff, n);
    } else {
      MoveBackward(dst, dOff, src, sOff, n);
    }
    PatchAt(old(dst[..]), dOff, old(src[sOff..sOff + n]));
  }

  /** Sign of the first difference of two equally long byte strings. */
  function Compare(a: seq<byte>, b: seq<byte>): (r: int)
    requires |a| == |b|
    ensures r == 0 <==> a == b
    ensures r == -1 || r == 0 || r == 1
  {
    if a == [] then 0
    else if a[0] < b[0] then -1
    else if a[0] > b[0] then 1
    else
      assert a == [a[0]] + a[1..] && b == [b[0]] + b[1..];
      Compare(a[1..], b[1..])
  }

  lemma FirstDifferenceShifts(a: seq<byte>, b: seq<byte>)
    requires |a| == |b| > 0 && a[0] == b[0]
    ensures (exists i :: 0 <= i < |a| && a[..i] == b[..i] && a[i] < b[i])
       <==> exists i :: 0 <= i < |a| - 1 && a[1..][..i] == b[1..][..i] && a[1..][i] < b[1..][i]
    ensures (exists i :: 0 <= i < |a| && a[..i] == b[..i] && a[i] > b[i])
       <==> exists i :: 0 <= i < |a| - 1 && a[1..][..i] == b[1..][..i] && a[1..][i] > b[1..][i]
  {
    forall i | 0 <= i < |a| - 1
      ensures a[1..][..i] == b[1..][..i] <==> a[..i + 1] == b[..i + 1]
      ensures a[1..][i] == a[i + 1] && b[1..][i] == b[i + 1]
    {
      assert a[..i + 1] == [a[0]] + a[1..][..i] && b[..i + 1] == [b[0]] + b[1..][..i];
    }
    if i :| 0 <= i < |a| && a[..i] == b[..i] && a[i] < b[i] {
      assert a[1..][i - 1] < b[1..][i - 1];
    }
    if i :| 0 <= i < |a| && a[..i] == b[..i] && a[i] > b[i] {
      assert a[1..][i - 1] > b[1..][i - 1];
    }
    if i :| 0 <= i < |a| - 1 && a[1..][..i] == b[1..][..i] && a[1..][i] < b[1..][i] {
      assert a[..i + 1] == b[..i + 1] && a[i + 1] < b[i + 1];
    }
    if i :| 0 <= i < |a| - 1 && a[1..][..i] == b[1..][..i] && a[1..][i] > b[1..][i] {
      assert a[..i + 1] == b[..i + 1] && a[i + 1] > b[i + 1];
    }
  }

  /** At the first difference the smaller byte decides. */
  lemma {:induction false} CompareIsFirstDifference(a: seq<byte>, b: seq<byte>)
    requires |a| == |b|
    ensures Compare(a, b) < 0 <==> exists i :: 0 <= i < |a| && a[..i] == b[..i] && a[i] < b[i]
    ensures Compare(a, b) > 0 <==> exists i :: 0 <= i < |a| && a[..i] == b[..i] && a[i] > b[i]
  {
    if a != [] {
      if a[0] != b[0] {
        assert a[..0] == b[..0];
        assert forall i :: 0 < i < |a| ==> a[..i][0] != b[..i][0];
      } else {
        CompareIsFirstDifference(a[1..], b[1..]);
        FirstDifferenceShifts(a, b);
      }
    }
  }

  method MemCmp(a: array<byte>, aOff: nat, b: array<byte>, bOff: nat, n: nat) returns (r: int)
    requires aOff + n <= a.Length && bOff + n <= b.Length
    ensures r == Compare(a[aOff..aOff + n], b[bOff..bOff + n])
    ensures
      var x, y := a[aOff..aOff + n], b[bOff..bOff + n];
      && (r == 0 <==> x == y)
      && (r == -1 <==> exists i :: 0 <= i < n && x[..i] == y[..i] && x[i] < y[i])
      && (r == 1 <==> exists i :: 0 <= i < n && x[..i] == y[..i] && x[i] > y[i])
  {
    hide Compare;
    ghost var x, y := a[aOff..aOff + n], b[bOff..bOff + n];
    for i := 0 to n
      invariant x[..i] == y[..i]
    {
      assert x[i] == a[aOff + i] && y[i] == b[bOff + i];
      if a[aOff + i] < b[bOff + i] {
        CompareIsFirstDifference(x, y);
        return -1;
      } else if a[aOff + i] > b[bOff + i] {
        CompareIsFirstDifference(x, y);
        return 1;
      }
    }
    assert x[..n] == x && y[..n] == y;
    CompareIsFirstDifference(x, y);
    return 0;
  }

  lemma {:induction false} CompareIsOrder(a: seq<byte>, b: seq<byte>, c: seq<byte>)
    requires |a| == |b| == |c|
    ensures Compare(b, a) == -Compare(a, b)
    ensures Compare(a, b) <= 0 && Compare(b, c) <= 0 ==> Compare(a, c) <= 0
  {
    if a != [] {
      CompareIsOrder(a[1..], b[1..], c[1..]);
    }
  }
}
