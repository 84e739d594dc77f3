/** Filling parts of byte buffers. */
module Buffers {
  import opened Bytes
  import opened ExtentTree
  import opened FileContents

  /** Everything before `at` and from `at + n` on is as it was; between is `part`. */
  twostate predicate Spliced(dst: array<Byte>, at: nat, part: seq<Byte>)
    reads dst
  {
    && at + |part| <= dst.Length
    && dst[..at] == old(dst[..at]) && dst[at..at + |part|] == part && dst[at + |part|..] == old(dst[at + |part|..])
  }

  method FillZero(dst: array<Byte>, at: nat, n: nat)
    requires at + n <= dst.Length
    modifies dst
    ensures Spliced(dst, at, Zeros(n))
  {
    var i := 0;
    while i < n
      invariant i <= n
      invariant forall k :: 0 <= k < dst.Length ==> dst[k] == if at <= k < at + i then 0 else old(dst[k])
    {
      dst[at + i] := 0;
      i := i + 1;
    }
  }

  method CopyFrom(src: array<Byte>, start: nat, dst: array<Byte>, at: nat, n: nat)
    requires src != dst && start + n <= src.Length && at + n <= dst.Length
    modifies dst
    ensures Spliced(dst, at, src[start..start + n])
  {
    var i := 0;
    while i < n
      invariant i <= n
      invariant forall k :: 0 <= k < dst.Length ==>
                  dst[k] == if at <= k < at + i then src[start + k - at] else old(dst[k])
    {
      dst[at + i] := src[start + i];
      i := i + 1;
    }
  }

  /** Reads a block to `dst[at..]`; a failed read may leave anything there. */
  method LoadBlock(disk: Disk, block: nat, dst: array<Byte>, at: nat) returns (ok: bool)
    requires WellSized(disk) && at + disk.blockSize <= dst.Length
    modifies dst
    ensures ok <==> disk.blocks(block).Some?
    ensures ok ==> Spliced(dst, at, disk.blocks(block).value)
    ensures !ok ==> dst[..at] == old(dst[..at]) && dst[at + disk.blockSize..] == old(dst[at + disk.blockSize..])
  {
    var bytes := disk.blocks(block);
    if bytes.None? {
      return false;
    }
    var i := 0;
    while i < disk.blockSize
      invariant i <= disk.blockSize
      invariant forall k :: 0 <= k < dst.Length ==>
                  dst[k] == if at <= k < at + i then bytes.value[k - at] else old(dst[k])
    {
      dst[at + i] := bytes.value[i];
      i := i + 1;
    }
    return true;
  }

  /** Reads a block into a page and copies a part of it on. */
  method LoadPart(disk: Disk, block: nat, page: array<Byte>, start: nat, dst: array<Byte>, at: nat, n: nat)
    returns (ok: bool)
    requires WellSized(disk) && disk.blockSize <= page.Length && page != dst
    requires start + n <= disk.blockSize && at + n <= dst.Length
    modifies page, dst
    ensures ok <==> disk.blocks(block).Some?
    ensures ok ==> |disk.blocks(block).value| == disk.blockSize
    ensures ok ==> Spliced(dst, at, disk.blocks(block).value[start..start + n])
    ensures !ok ==> dst[..] == old(dst[..])
  {
    ok := LoadBlock(disk, block, page, 0);
    if ok {
      BlockLength(disk, block);
      ghost var bytes := disk.blocks(block).value;
      assert page[0..disk.blockSize] == bytes;
      assert forall k :: 0 <= k < disk.blockSize ==> page[k] == page[0..disk.blockSize][k];
      assert page[start..start + n] == bytes[start..start + n];
      CopyFrom(page, start, dst, at, n);
    }
  }
}
