/** Words of x86 page directories and page tables, and where an address is looked up. */
module PageTables {
  import opened Bitmap

  const PAGE: nat := 4096
  /** LOADER_PHYS_BASE: user addresses lie below, physical memory is mapped from here on. */
  const PHYS_BASE: nat := 0xC000_0000
  const W32: nat := 0x1_0000_0000
  const ENTRIES: nat := 1024
  /** pd_no (PHYS_BASE) */
  const USER_ENTRIES: nat := 768

  function PdNo(va: nat): nat {
    va / 0x40_0000
  }

  function PtNo(va: nat): nat {
    va / PAGE % ENTRIES
  }

  function PgOfs(va: nat): nat {
    va % PAGE
  }

  /** The page an address lies in. */
  function PageOf(va: nat): nat {
    va - va % PAGE
  }

  function Vtop(va: nat): int {
    va - PHYS_BASE
  }

  // ---------------------------------------------------------------- entries

  predicate Present(e: nat) {
    e % 2 == 1
  }

  predicate Writable(e: nat) {
    e / 2 % 2 == 1
  }

  predicate ForUser(e: nat) {
    e / 4 % 2 == 1
  }

  /** The kernel address of the page that an entry points to. */
  function Target(e: nat): nat {
    e - e % PAGE + PHYS_BASE
  }

  /** A kernel address of a page of physical memory below 1 GB. */
  predicate KernelPage(p: nat) {
    PHYS_BASE <= p < W32 && p % PAGE == 0
  }

  /** pte_create_user, and pde_create with `writable` set: the flags are added to the
      physical address, whose low bits are zero. */
  function Make(p: nat, writable: bool): (e: nat)
    requires KernelPage(p)
  {
    Vtop(p) + 1 + (if writable then 2 else 0) + 4
  }

  /** Encoding and decoding: address and permission come back, and flags do not reach the
      address bits. */
  lemma MakeDecodes(p: nat, writable: bool)
    requires KernelPage(p)
    ensures var e := Make(p, writable);
            e < W32 && e != 0 && Present(e) && (Writable(e) <==> writable) && ForUser(e) && Target(e) == p
  {
    var v := Vtop(p);
    assert v % PAGE == 0;
    FlagBits(v, 5 + if writable then 2 else 0);
  }

  lemma FlagBits(v: int, f: nat)
    requires v >= 0 && v % PAGE == 0 && f < 8
    ensures (v + f) % PAGE == f && (v + f) % 2 == f % 2 && (v + f) / 2 % 2 == f / 2 % 2 && (v + f) / 4 % 2 == f / 4 % 2
  {
    var k := v / PAGE;
    assert v + f == 2 * (2048 * k) + f;
    assert (v + f) / 2 == 2 * (1024 * k) + f / 2;
    assert (v + f) / 4 == 2 * (512 * k) + f / 4;
    EvenPlus(2048 * k, f);
    EvenPlus(1024 * k, f / 2);
    EvenPlus(512 * k, f / 4);
  }

  lemma EvenPlus(h: int, f: int)
    ensures (2 * h + f) % 2 == f % 2
  {
  }

  /** On 32-bit words the or-ing of flags is this addition, and its masks are
      remainders. */
  lemma BitsAreArithmetic(a: bv32, e: bv32)
    requires a & 0xFFF == 0
    ensures a | 0x4 | 0x1 | 0x2 == a + 7 && a | 0x1 | 0x4 == a + 5
    ensures (e & 0x1 == 1 <==> e % 2 == 1) && e & 0xFFFFF000 == e - e % 4096
    ensures e & 0x1 == 1 ==> e & !0x1 == e - 1
    ensures e >> 22 == e / 0x400000 && (e & 0x3FF000) >> 12 == e / 4096 % 1024 && e & 0xFFF == e % 4096
  {
  }

  /** *pte &= ~PTE_P */
  function Absent(e: nat): nat
    requires Present(e)
  {
    e - 1
  }

  // ---------------------------------------------------------------- the two levels as one map

  /** Pages used as tables, by kernel address; each holds 1024 words. */
  type Memory = map<nat, seq<nat>>

  datatype Frame = Frame(page: nat, writable: bool)

  /** The directory's user half points to different tables, and never to itself. */
  ghost predicate Ok(m: Memory, pd: nat) {
    && pd in m && KernelPage(pd)
    && (forall p :: p in m ==> KernelPage(p) && |m[p]| == ENTRIES && forall j :: 0 <= j < ENTRIES ==> m[p][j] < W32)
    && (forall i :: 0 <= i < USER_ENTRIES && m[pd][i] != 0 ==>
          Present(m[pd][i]) && Target(m[pd][i]) in m && Target(m[pd][i]) != pd)
    && (forall i, j :: 0 <= i < j < USER_ENTRIES && m[pd][i] != 0 && m[pd][j] != 0 ==>
          Target(m[pd][i]) != Target(m[pd][j]))
  }

  /** The page table word for an address, if there is a table. */
  ghost function Word(m: Memory, pd: nat, va: nat): Option<nat>
    requires Ok(m, pd) && va < PHYS_BASE
  {
    var e := m[pd][PdNo(va)];
    if e == 0 then None else Some(m[Target(e)][PtNo(va)])
  }

  /** The flat map: where a user address is mapped, and how. */
  ghost function Lookup(m: Memory, pd: nat, va: nat): Option<Frame>
    requires Ok(m, pd) && va < PHYS_BASE
  {
    var w := Word(m, pd, va);
    if w.Some? && Present(w.value) then Some(Frame(Target(w.value), Writable(w.value))) else None
  }

  lemma IndexBounds(va: nat)
    requires va < PHYS_BASE
    ensures PdNo(va) < USER_ENTRIES && PtNo(va) < ENTRIES
  {
  }

  lemma Parts(u: nat)
    ensures u == PdNo(u) * 0x40_0000 + PtNo(u) * PAGE + PgOfs(u) && PtNo(u) < ENTRIES && PgOfs(u) < PAGE
    ensures PageOf(u) == PdNo(u) * 0x40_0000 + PtNo(u) * PAGE
  {
    assert u / PAGE / ENTRIES == PdNo(u);
  }

  /** Directory index, table index and offset determine an address. */
  lemma SplitUnique(u: nat, v: nat)
    ensures PdNo(u) == PdNo(v) && PtNo(u) == PtNo(v) <==> PageOf(u) == PageOf(v)
    ensures u == PageOf(u) + PgOfs(u)
  {
    Parts(u);
    Parts(v);
    hide PdNo, PtNo, PgOfs, PageOf;
  }

  /** Changing one word of a table changes the map at one page only. */
  ghost predicate OnlyAt(m: Memory, m': Memory, pd: nat, u: nat)
    requires Ok(m, pd) && Ok(m', pd)
  {
    forall v: nat :: v < PHYS_BASE && PageOf(v) != PageOf(u) ==> Lookup(m', pd, v) == Lookup(m, pd, v)
  }

  function Poke(m: Memory, p: nat, j: nat, w: nat): Memory
    requires p in m && j < |m[p]|
  {
    var table: seq<nat> := m[p][j := w];
    m[p := table]
  }

  lemma PokeOk(m: Memory, pd: nat, u: nat, w: nat)
    requires Ok(m, pd) && u < PHYS_BASE && m[pd][PdNo(u)] != 0 && w < W32
    ensures var m' := Poke(m, Target(m[pd][PdNo(u)]), PtNo(u), w);
            Ok(m', pd) && Word(m', pd, u) == Some(w) && OnlyAt(m, m', pd, u)
  {
    IndexBounds(u);
    var t := Target(m[pd][PdNo(u)]);
    var m' := Poke(m, t, PtNo(u), w);
    assert m'[pd] == m[pd];
    forall v: nat | v < PHYS_BASE && PageOf(v) != PageOf(u) ensures Lookup(m', pd, v) == Lookup(m, pd, v) {
      IndexBounds(v);
      SplitUnique(u, v);
      hide PdNo, PtNo, PageOf, Target;
    }
  }

  function Zeros(): (z: seq<nat>)
    ensures |z| == ENTRIES && forall j :: 0 <= j < ENTRIES ==> z[j] == 0
  {
    seq(ENTRIES, i => 0)
  }

  /** A new table without present entries leaves the map as it is. */
  lemma NewTableOk(m: Memory, pd: nat, u: nat, p: nat)
    requires Ok(m, pd) && u < PHYS_BASE && m[pd][PdNo(u)] == 0 && KernelPage(p) && p !in m
    ensures var m' := Poke(m[p := Zeros()], pd, PdNo(u), Make(p, true));
            && Ok(m', pd) && m'[pd][PdNo(u)] == Make(p, true) && Target(Make(p, true)) == p
            && Word(m', pd, u) == Some(0)
            && forall v: nat :: v < PHYS_BASE ==> Lookup(m', pd, v) == Lookup(m, pd, v)
  {
    IndexBounds(u);
    MakeDecodes(p, true);
    var m' := Poke(m[p := Zeros()], pd, PdNo(u), Make(p, true));
    hide Make, Target, Present;
    forall v: nat | v < PHYS_BASE ensures Lookup(m', pd, v) == Lookup(m, pd, v) {
      IndexBounds(v);
      ZeroAbsent();
    }
  }

  lemma ZeroAbsent()
    ensures !Present(0)
  {
  }
}
