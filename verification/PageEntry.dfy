/** One 64-bit word of physical memory, read as a page table entry:
    bits 0-11 are flags, bits 12-51 a frame number, bits 52-63 further flags (bit 63 is no-execute).
    The model keeps words unpacked; the lemmas below tie them to the packed form bit by bit. */
module PageEntry {
  import opened Division
  import opened Sizes

  const FRAME_LIMIT: nat := 0x100_0000_0000  // 2^40

  type HighBits = n: nat | n < 0x1000

  type FrameNo = f: nat | f < 0x100_0000_0000

  /** The bits of a word that are not part of the frame number. */
  datatype Flags = Flags(present: bool, writable: bool, user: bool, writeThrough: bool,
                         cacheDisable: bool, accessed: bool, dirty: bool, huge: bool,
                         global: bool, cow: bool, bit10: bool, bit11: bool, high: HighBits)

  datatype Word = Word(frame: FrameNo, flags: Flags)

  const NO_FLAGS := Flags(false, false, false, false, false, false, false, false, false, false, false, false, 0)
  const ZERO := Word(0, NO_FLAGS)

  /** `get_page_flags` keeps only the low twelve bits. */
  function LowFlags(flags: Flags): Flags {
    flags.(high := 0)
  }

  /** Read-only and marked copy-on-write. */
  function CowFlags(flags: Flags): Flags {
    flags.(writable := false, cow := true)
  }

  /** Writable and no longer marked copy-on-write. */
  function OwnedFlags(flags: Flags): Flags {
    flags.(writable := true, cow := false)
  }

  /** The low bits of `g` are those of `f`, but for writable (bit 1) and copy-on-write (bit 9), which are as given; bits
      52 to 63 are clear. */
  ghost predicate SameBits(f: Flags, g: Flags, writable: bool, cow: bool) {
    && g.present == f.present && g.user == f.user && g.writeThrough == f.writeThrough
    && g.cacheDisable == f.cacheDisable && g.accessed == f.accessed && g.dirty == f.dirty && g.huge == f.huge
    && g.global == f.global && g.bit10 == f.bit10 && g.bit11 == f.bit11
    && g.writable == writable && g.cow == cow && g.high == 0
  }

  /** Marking changes the two bits one way. */
  lemma CowBits(f: Flags)
    ensures SameBits(f, CowFlags(LowFlags(f)), false, true)
  {
  }

  /** Owning changes them the other way. */
  lemma OwnedBits(f: Flags)
    ensures SameBits(f, OwnedFlags(LowFlags(f)), true, false)
  {
  }

  /** The entry that `PageTableEntry::set` stores. */
  function MakeEntry(addr: nat, flags: Flags): Word {
    Word(addr / PAGE_SIZE % FRAME_LIMIT, flags)
  }

  // ---- the packed form ----

  const HIGH_UNIT: nat := 0x10_0000_0000_0000  // 2^52
  const WORD_LIMIT: nat := 0x1_0000_0000_0000_0000  // 2^64

  /** Bit `k` of a word: 0 is present, 1 writable, 7 huge, 9 copy-on-write. */
  function LowBit(f: Flags, k: nat): bool {
    match k
    case 0 => f.present
    case 1 => f.writable
    case 2 => f.user
    case 3 => f.writeThrough
    case 4 => f.cacheDisable
    case 5 => f.accessed
    case 6 => f.dirty
    case 7 => f.huge
    case 8 => f.global
    case 9 => f.cow
    case 10 => f.bit10
    case _ => f.bit11
  }

  /** Bits 0 to 11, lowest first. */
  function LowBits(f: Flags): (bits: seq<bool>)
    ensures |bits| == 12
  {
    seq(12, k requires 0 <= k < 12 => LowBit(f, k))
  }

  function FlagsFromBits(b: seq<bool>, high: HighBits): Flags
    requires |b| == 12
  {
    Flags(b[0], b[1], b[2], b[3], b[4], b[5], b[6], b[7], b[8], b[9], b[10], b[11], high)
  }

  function PowerOfTwo(k: nat): (p: nat)
    ensures p > 0
  {
    if k == 0 then 1 else 2 * PowerOfTwo(k - 1)
  }

  /** The number with these binary digits, lowest first. */
  function PackBits(bits: seq<bool>): nat {
    if bits == [] then 0 else (if bits[0] then 1 else 0) + 2 * PackBits(bits[1..])
  }

  /** The lowest `count` binary digits of a number. */
  function Digits(n: nat, count: nat): (bits: seq<bool>)
    ensures |bits| == count
  {
    seq(count, k requires 0 <= k < count => n / PowerOfTwo(k) % 2 == 1)
  }

  lemma {:induction false} BitsRoundTrip(bits: seq<bool>)
    ensures PackBits(bits) < PowerOfTwo(|bits|)
    ensures Digits(PackBits(bits), |bits|) == bits
  {
    if bits != [] {
      BitsRoundTrip(bits[1..]);
    }
    forall k | 0 <= k < |bits|
      ensures Digits(PackBits(bits), |bits|)[k] == bits[k]
    {
      DigitOfNumber(bits, k);
    }
  }

  lemma {:induction false} NumberRoundTrip(n: nat, count: nat)
    requires n < PowerOfTwo(count)
    ensures PackBits(Digits(n, count)) == n
  {
    if count > 0 {
      NumberRoundTrip(n / 2, count - 1);
      var bits := Digits(n, count);
      forall k | 0 <= k < count - 1
        ensures bits[1..][k] == Digits(n / 2, count - 1)[k]
      {
        DivideTwice(n, 2, PowerOfTwo(k));
      }
      assert bits[1..] == Digits(n / 2, count - 1);
      assert PowerOfTwo(0) == 1;
      assert bits[0] == (n % 2 == 1);
    }
  }

  lemma {:induction false} DigitOfNumber(bits: seq<bool>, k: nat)
    requires k < |bits|
    ensures PackBits(bits) / PowerOfTwo(k) % 2 == if bits[k] then 1 else 0
  {
    var n, rest := PackBits(bits), PackBits(bits[1..]);
    assert n / 2 == rest && n % 2 == if bits[0] then 1 else 0;
    if k == 0 {
      assert PowerOfTwo(k) == 1;
    } else {
      DigitOfNumber(bits[1..], k - 1);
      var p := PowerOfTwo(k - 1);
      assert PowerOfTwo(k) == 2 * p;
      hide PackBits, PowerOfTwo;
      DivideTwice(n, 2, p);
    }
  }

  lemma TwelveBits()
    ensures PowerOfTwo(12) == 0x1000
  {
    assert PowerOfTwo(4) == 16;
    assert PowerOfTwo(8) == 256;
  }

  /** The 64-bit number a word stands for. */
  function Pack(w: Word): nat {
    w.flags.high * HIGH_UNIT + w.frame * 0x1000 + PackBits(LowBits(w.flags))
  }

  function Unpack(n: nat): Word
    requires n < WORD_LIMIT
  {
    Word(n / 0x1000 % FRAME_LIMIT, FlagsFromBits(Digits(n % 0x1000, 12), n / HIGH_UNIT))
  }

  /** The three fields of a 64-bit number, and back. */
  lemma FieldsOfNumber(high: HighBits, frame: FrameNo, low: nat, n: nat)
    requires low < 0x1000 && n == high * HIGH_UNIT + frame * 0x1000 + low
    ensures n < WORD_LIMIT
    ensures n / HIGH_UNIT == high && n % 0x1000 == low && n / 0x1000 % FRAME_LIMIT == frame
  {
    assert n / 0x1000 == high * FRAME_LIMIT + frame;
  }

  lemma NumberFromFields(n: nat)
    requires n < WORD_LIMIT
    ensures n / HIGH_UNIT * HIGH_UNIT + n / 0x1000 % FRAME_LIMIT * 0x1000 + n % 0x1000 == n
  {
  }

  lemma BitsOfFlags(bits: seq<bool>, high: HighBits)
    requires |bits| == 12
    ensures LowBits(FlagsFromBits(bits, high)) == bits
  {
    forall k | 0 <= k < 12
      ensures LowBit(FlagsFromBits(bits, high), k) == bits[k]
    {
    }
  }

  lemma BitsAreFlags(f: Flags)
    ensures FlagsFromBits(LowBits(f), f.high) == f
  {
  }

  lemma FlagsRoundTrip(f: Flags)
    ensures PackBits(LowBits(f)) < 0x1000
    ensures FlagsFromBits(Digits(PackBits(LowBits(f)), 12), f.high) == f
  {
    var bits := LowBits(f);
    TwelveBits();
    BitsRoundTrip(bits);
    BitsAreFlags(f);
  }

  lemma DigitsRoundTrip(low: nat, high: HighBits)
    requires low < 0x1000
    ensures PackBits(LowBits(FlagsFromBits(Digits(low, 12), high))) == low
  {
    TwelveBits();
    NumberRoundTrip(low, 12);
    BitsOfFlags(Digits(low, 12), high);
  }

  /** Packing and unpacking are inverse: the unpacked words are exactly the 64-bit words. */
  lemma PackUnpack(n: nat)
    requires n < WORD_LIMIT
    ensures Pack(Unpack(n)) == n
  {
    DigitsRoundTrip(n % 0x1000, n / HIGH_UNIT);
    NumberFromFields(n);
  }

  lemma UnpackPack(w: Word)
    ensures Pack(w) < WORD_LIMIT && Unpack(Pack(w)) == w
  {
    FlagsRoundTrip(w.flags);
    FieldsOfNumber(w.flags.high, w.frame, PackBits(LowBits(w.flags)), Pack(w));
  }

  /** The address field of a packed entry, as `PageTableEntry::address` masks it out. */
  lemma PackedAddress(w: Word)
    ensures Pack(w) / 0x1000 % FRAME_LIMIT * 0x1000 == w.frame * PAGE_SIZE
  {
    FlagsRoundTrip(w.flags);
    FieldsOfNumber(w.flags.high, w.frame, PackBits(LowBits(w.flags)), Pack(w));
  }

  /** The field tests of the source are bit tests on the packed word. */
  lemma FlagBits(w: Word)
    ensures w.flags.present <==> Pack(w) / PowerOfTwo(0) % 2 == 1
    ensures w.flags.writable <==> Pack(w) / PowerOfTwo(1) % 2 == 1
    ensures w.flags.user <==> Pack(w) / PowerOfTwo(2) % 2 == 1
    ensures w.flags.writeThrough <==> Pack(w) / PowerOfTwo(3) % 2 == 1
    ensures w.flags.cacheDisable <==> Pack(w) / PowerOfTwo(4) % 2 == 1
    ensures w.flags.accessed <==> Pack(w) / PowerOfTwo(5) % 2 == 1
    ensures w.flags.dirty <==> Pack(w) / PowerOfTwo(6) % 2 == 1
    ensures w.flags.huge <==> Pack(w) / PowerOfTwo(7) % 2 == 1
    ensures w.flags.global <==> Pack(w) / PowerOfTwo(8) % 2 == 1
    ensures w.flags.cow <==> Pack(w) / PowerOfTwo(9) % 2 == 1
    ensures w.flags.bit10 <==> Pack(w) / PowerOfTwo(10) % 2 == 1
    ensures w.flags.bit11 <==> Pack(w) / PowerOfTwo(11) % 2 == 1
    ensures w.flags.high == Pack(w) / HIGH_UNIT
  {
    hide PowerOfTwo, Pack;
    forall k | 0 <= k < 12
      ensures LowBit(w.flags, k) <==> Pack(w) / PowerOfTwo(k) % 2 == 1
    {
      PackedBit(w, k);
    }
    PackedHigh(w);
  }

  lemma PackedHigh(w: Word)
    ensures Pack(w) / HIGH_UNIT == w.flags.high
  {
    FlagsRoundTrip(w.flags);
    FieldsOfNumber(w.flags.high, w.frame, PackBits(LowBits(w.flags)), Pack(w));
  }

  lemma PackedBit(w: Word, k: nat)
    requires k < 12
    ensures Pack(w) / PowerOfTwo(k) % 2 == if LowBits(w.flags)[k] then 1 else 0
  {
    hide LowBits, PackBits;
    var bits := LowBits(w.flags);
    DigitOfNumber(bits, k);
    TwelveBits();
    PowerSplits(k, 12);
    var above := w.flags.high * FRAME_LIMIT + w.frame;
    LowDigit(above, PackBits(bits), PowerOfTwo(k), PowerOfTwo(12 - k - 1));
    assert Pack(w) == 0x1000 * above + PackBits(bits);
  }

  /** Adding a multiple of `2 * p` changes no digit up to the one worth `p`. */
  lemma LowDigit(above: nat, low: nat, p: nat, c: nat)
    requires p > 0
    ensures (p * 2 * c * above + low) / p % 2 == low / p % 2
  {
    var q := 2 * (c * above) + low / p;
    assert p * 2 * c * above == p * (2 * (c * above));
    assert low == p * (low / p) + low % p;
    QuotientIs(p * 2 * c * above + low, p, q, low % p);
  }

  lemma {:induction false} PowerSplits(k: nat, n: nat)
    requires k < n
    ensures PowerOfTwo(n) == PowerOfTwo(k) * 2 * PowerOfTwo(n - k - 1)
  {
    if k > 0 {
      PowerSplits(k - 1, n - 1);
    }
  }

  /** A word is zero as a number exactly if all its fields are: `is_page_table_empty` tests the number. */
  lemma ZeroWord(w: Word)
    ensures Pack(w) == 0 <==> w == ZERO
  {
    hide PackBits, Digits, FlagsFromBits, LowBits;
    UnpackPack(w);
    UnpackPack(ZERO);
    NoFlagsPackToZero();
  }

  lemma NoFlagsPackToZero()
    ensures PackBits(LowBits(NO_FLAGS)) == 0
  {
    AllClear(LowBits(NO_FLAGS));
  }

  lemma {:induction false} AllClear(bits: seq<bool>)
    requires forall k :: 0 <= k < |bits| ==> !bits[k]
    ensures PackBits(bits) == 0
  {
    if bits != [] {
      AllClear(bits[1..]);
    }
  }
}
