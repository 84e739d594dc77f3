/** Virtual addresses and the paths they take through the page tables. */
module VirtAddr {
  import opened Division

  const U64_LIMIT: nat := 0x1_0000_0000_0000_0000

  type Address = a: nat | a < 0x1_0000_0000_0000_0000

  type Index = i: nat | i < 512

  /** A position in the radix tree: the indices followed from the root table. */
  datatype Node = Root | Child(up: Node, index: Index)

  datatype Mode = FourLevel | FiveLevel {
    function Depth(): nat {
      match this
      case FourLevel => 4
      case FiveLevel => 5
    }
  }

  function Depth(n: Node): nat {
    match n
    case Root => 0
    case Child(up, _) => Depth(up) + 1
  }

  /** The first `d` steps of a path. */
  function Prefix(v: Node, d: nat): (p: Node)
    requires d <= Depth(v)
    ensures Depth(p) == d
  {
    if Depth(v) == d then v else Prefix(v.up, d)
  }

  lemma {:induction false} PrefixStep(v: Node, d: nat)
    requires d < Depth(v)
    ensures Prefix(v, d + 1).Child? && Prefix(v, d + 1).up == Prefix(v, d)
  {
    if d + 1 < Depth(v) {
      PrefixStep(v.up, d);
    }
  }

  lemma {:induction false} PrefixOfPrefix(v: Node, d: nat, e: nat)
    requires e <= d <= Depth(v)
    ensures Prefix(Prefix(v, d), e) == Prefix(v, e)
  {
    if d < Depth(v) {
      PrefixOfPrefix(v.up, d, e);
    }
  }

  /** `q` lies on the path `v`, possibly as all of it. */
  predicate On(q: Node, v: Node) {
    Depth(q) <= Depth(v) && Prefix(v, Depth(q)) == q
  }

  function Pml5Index(a: Address): Index { a / 0x1_0000_0000_0000 % 512 }
  function Pml4Index(a: Address): Index { a / 0x80_0000_0000 % 512 }
  function PdptIndex(a: Address): Index { a / 0x4000_0000 % 512 }
  function PdIndex(a: Address): Index { a / 0x20_0000 % 512 }
  function PtIndex(a: Address): Index { a / 0x1000 % 512 }

  /** The indices an address selects, top table first. */
  function Path(mode: Mode, a: Address): (v: Node)
    ensures Depth(v) == mode.Depth()
  {
    var top := if mode.FiveLevel? then Child(Root, Pml5Index(a)) else Root;
    assert Depth(top) == mode.Depth() - 4;
    var pd := Child(Child(top, Pml4Index(a)), PdptIndex(a));
    assert Depth(pd) == mode.Depth() - 2;
    Child(Child(pd, PdIndex(a)), PtIndex(a))
  }

  /** The check of the source: the bits above the translated ones are all zeros or all ones. */
  predicate Accepted(mode: Mode, a: Address) {
    match mode
    case FourLevel => a / 0x1_0000_0000_0000 == 0 || a / 0x1_0000_0000_0000 == 0xFFFF
    case FiveLevel => a / 0x200_0000_0000_0000 == 0 || a / 0x200_0000_0000_0000 == 0x7F
  }

  /** Number of virtual pages a mode can translate: 2^36 or 2^45. */
  function PageCount(mode: Mode): nat {
    match mode
    case FourLevel => 0x10_0000_0000
    case FiveLevel => 0x2000_0000_0000
  }

  /** The translated bits of an address above the page offset: bits 12-47, or 12-56. */
  function Vpn(mode: Mode, a: Address): nat {
    a / 0x1000 % PageCount(mode)
  }

  /** Canonical in the sense of the architecture: the upper bits repeat the top translated bit. */
  predicate Canonical(mode: Mode, a: Address) {
    var half := PageCount(mode) / 2 * 0x1000;
    a < half || a >= U64_LIMIT - half
  }

  /** The page number an index path spells. */
  function PathNumber(v: Node): nat {
    match v
    case Root => 0
    case Child(up, i) => 512 * PathNumber(up) + i
  }

  lemma PathSpellsVpn(mode: Mode, a: Address)
    ensures PathNumber(Path(mode, a)) == Vpn(mode, a)
  {
    var n0 := a / 0x1000;
    var n1, n2, n3, n4 := n0 / 512, n0 / 512 / 512, n0 / 512 / 512 / 512, n0 / 512 / 512 / 512 / 512;
    IndicesAreDigits(a);
    var pd := PathNumber(Path(mode, a).up.up);
    assert PathNumber(Path(mode, a)) == 512 * (512 * pd + n1 % 512) + n0 % 512;
    if mode.FiveLevel? {
      var pml4 := Path(mode, a).up.up.up;
      assert pml4.up == Child(Root, Pml5Index(a)) && PathNumber(Root) == 0;
      assert PathNumber(pml4.up) == n4 % 512;
      assert PathNumber(pml4) == 512 * (n4 % 512) + n3 % 512;
      assert pd == 512 * (512 * (n4 % 512) + n3 % 512) + n2 % 512;
      RemainderTwice(n3, 512, 512);
      RemainderTwice(n2, 512, 512 * 512);
      RemainderTwice(n1, 512, 512 * 512 * 512);
      RemainderTwice(n0, 512, 512 * 512 * 512 * 512);
    } else {
      assert PathNumber(Path(mode, a).up.up.up) == n3 % 512;
      assert pd == 512 * (n3 % 512) + n2 % 512;
      RemainderTwice(n2, 512, 512);
      RemainderTwice(n1, 512, 512 * 512);
      RemainderTwice(n0, 512, 512 * 512 * 512);
    }
  }

  /** The index fields are the digits of the page number in base 512. */
  lemma IndicesAreDigits(a: Address)
    ensures var n := a / 0x1000;
            && PtIndex(a) == n % 512 && PdIndex(a) == n / 512 % 512 && PdptIndex(a) == n / 512 / 512 % 512
            && Pml4Index(a) == n / 512 / 512 / 512 % 512 && Pml5Index(a) == n / 512 / 512 / 512 / 512 % 512
  {
    DivideTwice(a, 0x1000, 512);
    DivideTwice(a, 0x20_0000, 512);
    DivideTwice(a, 0x4000_0000, 512);
    DivideTwice(a, 0x80_0000_0000, 512);
  }

  lemma {:induction false} PathNumberInjective(u: Node, v: Node)
    requires Depth(u) == Depth(v) && PathNumber(u) == PathNumber(v)
    ensures u == v
  {
    if u.Child? {
      PathNumberInjective(u.up, v.up);
    }
  }

  /** Two addresses share a slot in the tables exactly if they agree on the translated bits. */
  lemma SameSlot(mode: Mode, a: Address, b: Address)
    ensures Path(mode, a) == Path(mode, b) <==> Vpn(mode, a) == Vpn(mode, b)
  {
    PathSpellsVpn(mode, a);
    PathSpellsVpn(mode, b);
    if Vpn(mode, a) == Vpn(mode, b) {
      PathNumberInjective(Path(mode, a), Path(mode, b));
    }
  }

  /** For canonical addresses a slot is a page. */
  lemma CanonicalSlotIsPage(mode: Mode, a: Address, b: Address)
    requires Canonical(mode, a) && Canonical(mode, b)
    ensures Path(mode, a) == Path(mode, b) <==> a / 0x1000 == b / 0x1000
  {
    SameSlot(mode, a, b);
    CanonicalPage(mode, a);
    CanonicalPage(mode, b);
  }

  /** How many pages one entry covers that many levels above the last one. */
  function PagesAt(above: nat): nat
    requires above <= 2
  {
    if above == 0 then 1 else if above == 1 then 512 else 0x4_0000
  }

  /** Two canonical addresses are under the same entry one or two levels above the last exactly if they lie in the
      same 2 MiB or 1 GiB of the address space. */
  lemma SameEntryAbove(mode: Mode, a: Address, b: Address, above: nat)
    requires Canonical(mode, a) && Canonical(mode, b) && above <= 2
    ensures Prefix(Path(mode, a), mode.Depth() - above) == Prefix(Path(mode, b), mode.Depth() - above) <==>
            a / 0x1000 / PagesAt(above) == b / 0x1000 / PagesAt(above)
  {
    hide Canonical;
    var u, v, d := Path(mode, a), Path(mode, b), mode.Depth() - above;
    PathSpellsVpn(mode, a);
    PathSpellsVpn(mode, b);
    NumberAbove(u, above);
    NumberAbove(v, above);
    if PathNumber(Prefix(u, d)) == PathNumber(Prefix(v, d)) {
      PathNumberInjective(Prefix(u, d), Prefix(v, d));
    }
    CanonicalPage(mode, a);
    CanonicalPage(mode, b);
    PagesByHalf(mode, Vpn(mode, a), Vpn(mode, b), a / 0x1000, b / 0x1000, above);
  }

  /** Dropping the last steps of a path divides its number. */
  lemma NumberAbove(v: Node, above: nat)
    requires above <= 2 <= Depth(v)
    ensures PathNumber(Prefix(v, Depth(v) - above)) == PathNumber(v) / PagesAt(above)
  {
    assert v.Child? && v.up.Child?;
    assert Prefix(v, Depth(v) - 1) == Prefix(v.up, Depth(v) - 1) == v.up;
    assert Prefix(v, Depth(v) - 2) == Prefix(v.up, Depth(v) - 2) == Prefix(v.up.up, Depth(v) - 2) == v.up.up;
    var i: nat, j: nat := v.index, v.up.index;
    assert PathNumber(v) == 512 * PathNumber(v.up) + i && PathNumber(v.up) == 512 * PathNumber(v.up.up) + j;
  }

  lemma PagesByHalf(mode: Mode, m: nat, n: nat, p: nat, q: nat, above: nat)
    requires above <= 2
    requires p == if m < PageCount(mode) / 2 then m else m + 0x10_0000_0000_0000 - PageCount(mode)
    requires q == if n < PageCount(mode) / 2 then n else n + 0x10_0000_0000_0000 - PageCount(mode)
    requires m < PageCount(mode) && n < PageCount(mode)
    ensures m / PagesAt(above) == n / PagesAt(above) <==> p / PagesAt(above) == q / PagesAt(above)
  {
    var half, shift := PageCount(mode) / 2 / PagesAt(above), (0x10_0000_0000_0000 - PageCount(mode)) / PagesAt(above);
    HalfInUnits(mode, above, half, shift);
    var unit := PagesAt(above);
    hide PageCount, PagesAt;
    assert p == if m < unit * half then m else m + unit * shift;
    assert q == if n < unit * half then n else n + unit * shift;
    UnitByHalf(m, p, unit, half, shift);
    UnitByHalf(n, q, unit, half, shift);
  }

  lemma HalfInUnits(mode: Mode, above: nat, half: nat, shift: nat)
    requires above <= 2
    requires half == PageCount(mode) / 2 / PagesAt(above)
    requires shift == (0x10_0000_0000_0000 - PageCount(mode)) / PagesAt(above)
    ensures PageCount(mode) / 2 == PagesAt(above) * half
    ensures 0x10_0000_0000_0000 - PageCount(mode) == PagesAt(above) * shift && shift > 0
  {
  }

  /** Numbers in the upper half, shifted by a multiple of the unit. */
  lemma UnitByHalf(m: nat, p: nat, unit: nat, half: nat, shift: nat)
    requires unit > 0 && p == if m < unit * half then m else m + unit * shift
    ensures p / unit == if m / unit < half then m / unit else m / unit + shift
  {
    var q, r := m / unit, m % unit;
    assert m == unit * q + r;
    if q < half {
      ProductGrows(unit, q, half);
    } else {
      assert unit * (q - half) >= 0;
      assert m + unit * shift == unit * (q + shift) + r;
      QuotientIs(m + unit * shift, unit, q + shift, r);
    }
  }

  /** The page number of a canonical address, by halves of the address space. */
  lemma CanonicalPage(mode: Mode, a: Address)
    requires Canonical(mode, a)
    ensures a / 0x1000 == if Vpn(mode, a) < PageCount(mode) / 2 then Vpn(mode, a)
                          else Vpn(mode, a) + 0x10_0000_0000_0000 - PageCount(mode)
  {
  }

  /** The check of the source does not compare the top translated bit with the bits above it:
      an accepted address is canonical exactly if that bit is one just when they are. */
  lemma AcceptedIsCanonicalIff(mode: Mode, a: Address)
    ensures Canonical(mode, a) ==> Accepted(mode, a)
    ensures Accepted(mode, a) ==>
              (Canonical(mode, a) <==>
               (Vpn(mode, a) >= PageCount(mode) / 2 <==> a >= U64_LIMIT / 2))
  {
  }

  /** So two accepted addresses of different pages can share one slot. */
  lemma AcceptedAddressesCollide()
    ensures var a: Address, b: Address := 0x0000_8000_0000_0000, 0xFFFF_8000_0000_0000;
            Accepted(FourLevel, a) && Accepted(FourLevel, b) && Path(FourLevel, a) == Path(FourLevel, b)
            && !Canonical(FourLevel, a)
  {
    SameSlot(FourLevel, 0x0000_8000_0000_0000, 0xFFFF_8000_0000_0000);
  }

  /** Accepted addresses of different pages share no slot if they are at most half the address space apart. */
  lemma NearbyPagesDiffer(mode: Mode, a: Address, b: Address)
    requires Accepted(mode, a) && Accepted(mode, b) && a % 0x1000 == 0 && b % 0x1000 == 0
    requires a - b <= 0x8000_0000_0000_0000 && b - a <= 0x8000_0000_0000_0000
    requires Path(mode, a) == Path(mode, b)
    ensures a == b
  {
    SameSlot(mode, a, b);
    hide Path;
    AcceptedPage(mode, a);
    AcceptedPage(mode, b);
  }

  /** An accepted address is at its translated bits, or as high above them as can be. */
  lemma AcceptedPage(mode: Mode, a: Address)
    requires Accepted(mode, a)
    ensures a / 0x1000 == Vpn(mode, a) || a / 0x1000 == Vpn(mode, a) + 0x10_0000_0000_0000 - PageCount(mode)
    ensures PageCount(mode) <= 0x2000_0000_0000
  {
  }
}
