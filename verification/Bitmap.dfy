/** Packed bitmaps, as the frame allocator and the kernel heap keep them:
    one bit per frame or page, eight to a byte, a set bit meaning "used". */
module Bitmap {

  /** The byte `1 << k`, spelled out. */
  function Mask(k: nat): bv8
    requires k < 8
  {
    match k
    case 0 => 0x01
    case 1 => 0x02
    case 2 => 0x04
    case 3 => 0x08
    case 4 => 0x10
    case 5 => 0x20
    case 6 => 0x40
    case _ => 0x80
  }

  /** Bit `k` of a byte is the one worth `1 << k`. */
  lemma MaskIsShift(k: nat)
    requires k < 8
    ensures Mask(k) == (1 as bv8) << k
  {
  }

  predicate Bit(b: bv8, k: nat)
    requires k < 8
  {
    b & Mask(k) != 0
  }

  function WriteBit(b: bv8, k: nat, value: bool): bv8
    requires k < 8
  {
    if value then b | Mask(k) else b & !Mask(k)
  }

  lemma WriteBitAt(b: bv8, k: nat, value: bool, j: nat)
    requires k < 8 && j < 8
    ensures Bit(WriteBit(b, k, value), j) == if j == k then value else Bit(b, j)
  {
  }

  lemma FullByte(b: bv8)
    ensures b == 0xFF <==> forall j :: 0 <= j < 8 ==> Bit(b, j)
  {
    if forall j :: 0 <= j < 8 ==> Bit(b, j) {
      assert Bit(b, 0) && Bit(b, 1) && Bit(b, 2) && Bit(b, 3);
      assert Bit(b, 4) && Bit(b, 5) && Bit(b, 6) && Bit(b, 7);
    }
  }

  /** The bit of element `f` in a packed bitmap. */
  predicate BitAt(bytes: seq<bv8>, f: nat)
    requires f < 8 * |bytes|
  {
    Bit(bytes[f / 8], f % 8)
  }

  /** `bytes` holds exactly the flags `used`; the bits past the last flag are set. */
  ghost predicate Represents(bytes: seq<bv8>, used: seq<bool>) {
    && |bytes| == (|used| + 7) / 8
    && (forall f {:trigger BitAt(bytes, f)} :: 0 <= f < 8 * |bytes| ==> BitAt(bytes, f) == (f < |used| ==> used[f]))
  }

  function WithBit(bytes: seq<bv8>, f: nat, value: bool): seq<bv8>
    requires f < 8 * |bytes|
  {
    bytes[f / 8 := WriteBit(bytes[f / 8], f % 8, value)]
  }

  lemma WithBitAt(bytes: seq<bv8>, f: nat, value: bool, g: nat)
    requires f < 8 * |bytes| && g < 8 * |bytes|
    ensures BitAt(WithBit(bytes, f, value), g) == if g == f then value else BitAt(bytes, g)
  {
    var b, k, j := bytes[f / 8], f % 8, g % 8;
    var bytes' := WithBit(bytes, f, value);
    if g / 8 == f / 8 {
      assert j == k <==> g == f;
      assert bytes'[g / 8] == WriteBit(b, k, value);
      WriteBitAt(b, k, value, j);
    } else {
      assert bytes'[g / 8] == bytes[g / 8];
    }
  }

  lemma UpdateRepresents(bytes: seq<bv8>, used: seq<bool>, f: nat, value: bool)
    requires Represents(bytes, used) && f < |used|
    ensures Represents(WithBit(bytes, f, value), used[f := value])
  {
    forall g | 0 <= g < 8 * |bytes|
      ensures BitAt(WithBit(bytes, f, value), g) == (g < |used| ==> used[f := value][g])
    {
      WithBitAt(bytes, f, value, g);
    }
  }

  /** How many elements are free. */
  function FreeCount(used: seq<bool>): nat {
    multiset(used)[false]
  }

  lemma FreeCountUpdate(used: seq<bool>, f: nat, value: bool)
    requires f < |used|
    ensures FreeCount(used[f := value]) ==
            FreeCount(used) - (if used[f] then 0 else 1) + (if value then 0 else 1)
  {
  }

  lemma FreeCountZero(used: seq<bool>)
    ensures FreeCount(used) == 0 <==> forall f :: 0 <= f < |used| ==> used[f]
  {
    if f :| 0 <= f < |used| && !used[f] {
      assert false in multiset(used);
    }
    if FreeCount(used) != 0 {
      assert false in used;
    }
  }

  ghost predicate RunIs(used: seq<bool>, start: nat, count: nat, value: bool) {
    start + count <= |used| && forall f :: start <= f < start + count ==> used[f] == value
  }

  /** `s` with the elements of `[start, start + count)` overwritten. */
  function WithRun<T>(s: seq<T>, start: nat, count: nat, value: T): (r: seq<T>)
    ensures |r| == |s|
    ensures forall f :: 0 <= f < |s| ==> r[f] == if start <= f < start + count then value else s[f]
  {
    seq(|s|, f requires 0 <= f < |s| => if start <= f < start + count then value else s[f])
  }

  lemma WithRunStep<T>(s: seq<T>, start: nat, count: nat, value: T)
    requires start + count < |s|
    ensures WithRun(s, start, count, value)[start + count := value] == WithRun(s, start, count + 1, value)
  {
  }

  lemma WithEmptyRun<T>(s: seq<T>, start: nat, value: T)
    ensures WithRun(s, start, 0, value) == s
  {
  }

  lemma {:induction false} WithRunCount(used: seq<bool>, start: nat, count: nat, value: bool)
    requires RunIs(used, start, count, !value)
    ensures FreeCount(WithRun(used, start, count, value)) ==
            FreeCount(used) + (if value then 0 - count else count)
  {
    if count == 0 {
      WithEmptyRun(used, start, value);
    } else {
      WithRunCount(used, start, count - 1, value);
      WithRunStep(used, start, count - 1, value);
    }
  }

  lemma SameBits(a: bv8, b: bv8)
    requires forall j :: 0 <= j < 8 ==> Bit(a, j) == Bit(b, j)
    ensures a == b
  {
    assert Bit(a, 0) == Bit(b, 0) && Bit(a, 1) == Bit(b, 1) && Bit(a, 2) == Bit(b, 2) && Bit(a, 3) == Bit(b, 3);
    assert Bit(a, 4) == Bit(b, 4) && Bit(a, 5) == Bit(b, 5) && Bit(a, 6) == Bit(b, 6) && Bit(a, 7) == Bit(b, 7);
  }

  /** The flags determine the bytes. */
  lemma RepresentedOnce(a: seq<bv8>, b: seq<bv8>, used: seq<bool>)
    requires Represents(a, used) && Represents(b, used)
    ensures a == b
  {
    forall k | 0 <= k < |a|
      ensures a[k] == b[k]
    {
      forall j | 0 <= j < 8
        ensures Bit(a[k], j) == Bit(b[k], j)
      {
        var f := 8 * k + j;
        assert f / 8 == k && f % 8 == j;
        assert BitAt(a, f) == BitAt(b, f);
      }
      SameBits(a[k], b[k]);
    }
  }

  lemma ZeroBytes(bytes: seq<bv8>, used: seq<bool>)
    requires |bytes| == |used| / 8 && |used| % 8 == 0
    requires forall k :: 0 <= k < |bytes| ==> bytes[k] == 0
    requires forall f :: 0 <= f < |used| ==> !used[f]
    ensures Represents(bytes, used)
  {
    forall f | 0 <= f < 8 * |bytes|
      ensures !BitAt(bytes, f)
    {
      assert bytes[f / 8] == 0;
    }
  }
}
