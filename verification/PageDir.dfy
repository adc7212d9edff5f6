/** A user process's page directory, changed in place. */
module PageDir {
  import opened Sequences
  import opened Bitmap
  import opened PageTables

  /** The frames of a table's present entries from index `j` on, in order. */
  function FramesFrom(table: seq<nat>, j: nat): seq<nat>
    decreases |table| - j
  {
    if j >= |table| then []
    else (if Present(table[j]) then [Target(table[j])] else []) + FramesFrom(table, j + 1)
  }

  /** What destroying frees from directory entry `i` on: the frames of each table and then
      the table. */
  function FreesFrom(m: Memory, pd: nat, i: nat): seq<nat>
    requires pd in m && |m[pd]| == ENTRIES
    decreases USER_ENTRIES - i
  {
    if i >= USER_ENTRIES then []
    else
      (if Present(m[pd][i]) && Target(m[pd][i]) in m then FramesFrom(m[Target(m[pd][i])], 0) + [Target(m[pd][i])] else [])
      + FreesFrom(m, pd, i + 1)
  }

  lemma FreesStart(m: Memory, pd: nat)
    requires Ok(m, pd)
    ensures pd in m && |m[pd]| == ENTRIES && [] + FreesFrom(m, pd, 0) == FreesFrom(m, pd, 0)
  {
  }

  lemma FreesEnd(m: Memory, pd: nat)
    requires Ok(m, pd)
    ensures pd in m && |m[pd]| == ENTRIES && FreesFrom(m, pd, USER_ENTRIES) == []
  {
  }

  /** One directory entry: a present one leads to a table. */
  lemma FreesStep(m: Memory, pd: nat, i: nat, freed: seq<nat>)
    requires Ok(m, pd) && i < USER_ENTRIES
    ensures pd in m && |m[pd]| == ENTRIES
    ensures Present(m[pd][i]) ==> Target(m[pd][i]) in m && |m[Target(m[pd][i])]| == ENTRIES
    ensures freed + FreesFrom(m, pd, i)
         == if Present(m[pd][i]) then (freed + FramesFrom(m[Target(m[pd][i])], 0) + [Target(m[pd][i])]) + FreesFrom(m, pd, i + 1)
            else freed + FreesFrom(m, pd, i + 1)
  {
    hide FramesFrom, Target;
    ZeroAbsent();
    if Present(m[pd][i]) {
      var t, rest := Target(m[pd][i]), FreesFrom(m, pd, i + 1);
      var frames := FramesFrom(m[t], 0);
      assert freed + ((frames + [t]) + rest) == (freed + frames + [t]) + rest;
    } else {
      assert [] + FreesFrom(m, pd, i + 1) == FreesFrom(m, pd, i + 1);
    }
  }

  class PageDirectory {
    const pd: nat
    var memory: Memory

    ghost predicate Valid()
      reads this
    {
      Ok(memory, pd)
    }

    /** pagedir_create on page `pd`; `kernel` is the kernel's page directory. */
    constructor (pd: nat, kernel: seq<nat>)
      requires KernelPage(pd) && |kernel| == ENTRIES
      requires forall i :: 0 <= i < ENTRIES ==> kernel[i] < W32 && (i < USER_ENTRIES ==> kernel[i] == 0)
      ensures Valid() && this.pd == pd
      ensures forall v: nat :: v < PHYS_BASE ==> Lookup(memory, pd, v) == None
    {
      this.pd := pd;
      memory := map[pd := kernel];
      new;
      forall v: nat | v < PHYS_BASE ensures Lookup(memory, pd, v) == None {
        IndexBounds(v);
      }
    }

    /** lookup_page: the table page and the index of the entry.  `page` is the zeroed page
        that palloc returns, if any, should one be needed. */
    method LookupPage(va: nat, create: bool, page: Option<nat>) returns (r: Option<(nat, nat)>)
      requires Valid() && va < PHYS_BASE
      requires page.Some? ==> KernelPage(page.value) && page.value !in memory
      modifies this
      ensures Valid()
      ensures r == if memory[pd][PdNo(va)] == 0 then None else Some((Target(memory[pd][PdNo(va)]), PtNo(va)))
      ensures old(memory)[pd][PdNo(va)] != 0 || !create || page.None? ==> memory == old(memory)
      ensures r.None? <==> old(memory)[pd][PdNo(va)] == 0 && (!create || page.None?)
      ensures old(memory)[pd][PdNo(va)] == 0 && r.Some? ==> Word(memory, pd, va) == Some(0)
      ensures forall v: nat :: v < PHYS_BASE ==> Lookup(memory, pd, v) == Lookup(old(memory), pd, v)
    {
      IndexBounds(va);
      var i := PdNo(va);
      if memory[pd][i] == 0 {
        if !create || page.None? {
          return None;
        }
        NewTableOk(memory, pd, va, page.value);
        MakeDecodes(page.value, true);
        hide Make, Target, Lookup, Word, Ok;
        memory := memory[page.value := Zeros()];
        memory := Poke(memory, pd, i, Make(page.value, true));
      }
      assert Present(memory[pd][i]);
      return Some((Target(memory[pd][i]), PtNo(va)));
    }

    /** pagedir_set_page; the preconditions are its assertions. */
    method SetPage(upage: nat, kpage: nat, writable: bool, page: Option<nat>) returns (ok: bool)
      requires Valid() && upage < PHYS_BASE && upage % PAGE == 0 && KernelPage(kpage)
      requires page.Some? ==> KernelPage(page.value) && page.value !in memory
      requires Lookup(memory, pd, upage).None?
      modifies this
      ensures Valid()
      ensures ok <==> Word(old(memory), pd, upage).Some? || page.Some?
      ensures Lookup(memory, pd, upage) == if ok then Some(Frame(kpage, writable)) else None
      ensures OnlyAt(old(memory), memory, pd, upage)
    {
      var pte := LookupPage(upage, true, page);
      IndexBounds(upage);
      if pte.None? {
        return false;
      }
      ghost var was := memory;
      assert !Present(memory[pte.value.0][pte.value.1]);
      MakeDecodes(kpage, writable);
      PokeOk(memory, pd, upage, Make(kpage, writable));
      memory := Poke(memory, pte.value.0, pte.value.1, Make(kpage, writable));
      return true;
    }

    /** pagedir_get_page */
    method GetPage(uaddr: nat) returns (r: Option<nat>)
      requires Valid() && uaddr < PHYS_BASE
      modifies this
      ensures memory == old(memory)
      ensures r == match Lookup(memory, pd, uaddr)
                   case None => None
                   case Some(f) => Some(f.page + PgOfs(uaddr))
    {
      var pte := LookupPage(uaddr, false, None);
      IndexBounds(uaddr);
      if pte.Some? && Present(memory[pte.value.0][pte.value.1]) {
        return Some(Target(memory[pte.value.0][pte.value.1]) + PgOfs(uaddr));
      } else {
        return None;
      }
    }

    /** pagedir_clear_page */
    method ClearPage(upage: nat)
      requires Valid() && upage < PHYS_BASE && upage % PAGE == 0
      modifies this
      ensures Valid() && Lookup(memory, pd, upage) == None
      ensures OnlyAt(old(memory), memory, pd, upage)
    {
      var pte := LookupPage(upage, false, None);
      IndexBounds(upage);
      if pte.Some? && Present(memory[pte.value.0][pte.value.1]) {
        var w := Absent(memory[pte.value.0][pte.value.1]);
        PokeOk(memory, pd, upage, w);
        memory := Poke(memory, pte.value.0, pte.value.1, w);
      }
    }

    /** pagedir_destroy: the pages given to palloc_free_page, in order. */
    method Destroy() returns (freed: seq<nat>)
      requires Valid()
      ensures freed == FreesFrom(memory, pd, 0) + [pd]
    {
      freed := [];
      hide FreesFrom, FramesFrom, Ok, Target;
      FreesStart(memory, pd);
      var i := 0;
      while i < USER_ENTRIES
        invariant i <= USER_ENTRIES && freed + FreesFrom(memory, pd, i) == FreesFrom(memory, pd, 0)
      {
        FreesStep(memory, pd, i, freed);
        var pde := memory[pd][i];
        if Present(pde) {
          var frames := DestroyTable(Target(pde));
          freed := freed + frames + [Target(pde)];
        }
        i := i + 1;
      }
      FreesEnd(memory, pd);
      assert freed + [] == freed;
      freed := freed + [pd];
    }

    method DestroyTable(pt: nat) returns (freed: seq<nat>)
      requires pt in memory && |memory[pt]| == ENTRIES
      ensures freed == FramesFrom(memory[pt], 0)
    {
      freed := [];
      var j := 0;
      while j < ENTRIES
        invariant j <= ENTRIES && freed + FramesFrom(memory[pt], j) == FramesFrom(memory[pt], 0)
      {
        ghost var before, rest := freed, FramesFrom(memory[pt], j + 1);
        var pte := memory[pt][j];
        if Present(pte) {
          freed := freed + [Target(pte)];
          assert before + ([Target(pte)] + rest) == freed + rest;
        } else {
          assert before + ([] + rest) == freed + rest;
        }
        j := j + 1;
      }
      assert freed + [] == freed;
    }
  }

  // ---------------------------------------------------------------- destroying

  predicate SameFrame(a: Option<Frame>, b: Option<Frame>) {
    a.Some? && b.Some? && a.value.page == b.value.page
  }

  /** No frame is mapped twice, and none is a table or the directory. */
  ghost predicate DistinctFrames(m: Memory, pd: nat)
    requires Ok(m, pd)
  {
    && (forall u: nat, v: nat :: u < PHYS_BASE && v < PHYS_BASE && SameFrame(Lookup(m, pd, u), Lookup(m, pd, v)) ==>
          PageOf(u) == PageOf(v))
    && (forall v: nat :: v < PHYS_BASE && Lookup(m, pd, v).Some? ==> Lookup(m, pd, v).value.page !in m)
  }

  lemma NoRepeatJoin(s: seq<nat>, t: seq<nat>)
    requires Distinct(s) && Distinct(t) && forall x :: x in s ==> x !in t
    ensures Distinct(s + t)
  {
    forall i, j | 0 <= i < j < |s + t| ensures (s + t)[i] != (s + t)[j] {
      if i < |s| <= j {
        assert s[i] in s && t[j - |s|] in t;
      }
    }
  }

  /** The page at directory index `i` and table index `j`. */
  function PageAt(i: nat, j: nat): nat {
    i * 0x40_0000 + j * PAGE
  }

  lemma PageAtSplits(i: nat, j: nat)
    requires i < USER_ENTRIES && j < ENTRIES
    ensures PageAt(i, j) < PHYS_BASE && PdNo(PageAt(i, j)) == i && PtNo(PageAt(i, j)) == j
    ensures PageOf(PageAt(i, j)) == PageAt(i, j)
  {
    assert PageAt(i, j) / PAGE == i * ENTRIES + j;
  }

  /** Frames of a table are the frames that its part of the address space is mapped to. */
  lemma FrameIs(m: Memory, pd: nat, i: nat, j: nat)
    requires Ok(m, pd) && i < USER_ENTRIES && j < ENTRIES && m[pd][i] != 0
    ensures Target(m[pd][i]) in m && |m[Target(m[pd][i])]| == ENTRIES
    ensures PageAt(i, j) < PHYS_BASE
    ensures var e := m[Target(m[pd][i])][j];
            Lookup(m, pd, PageAt(i, j)) == if Present(e) then Some(Frame(Target(e), Writable(e))) else None
  {
    PageAtSplits(i, j);
    hide PageAt, PdNo, PtNo, Target, Present, Writable;
  }

  lemma {:induction false} FramesAre(table: seq<nat>, from: nat)
    ensures forall x ::
      x in FramesFrom(table, from) <==> (exists j :: from <= j < |table| && Present(table[j]) && Target(table[j]) == x)
    decreases |table| - from
  {
    hide Present, Target;
    if from < |table| {
      FramesAre(table, from + 1);
    }
  }

  lemma {:induction false} FramesDistinct(table: seq<nat>, from: nat)
    requires forall j, k :: 0 <= j < k < |table| && Present(table[j]) && Present(table[k]) ==> Target(table[j]) != Target(table[k])
    ensures Distinct(FramesFrom(table, from))
    decreases |table| - from
  {
    hide Present, Target;
    if from < |table| {
      FramesDistinct(table, from + 1);
      FramesAre(table, from + 1);
      NoRepeatJoin(if Present(table[from]) then [Target(table[from])] else [], FramesFrom(table, from + 1));
    }
  }

  /** Directory entry `i` accounts for page `x`: its table or a frame mapped through it. */
  ghost predicate FreedBy(m: Memory, pd: nat, i: nat, x: nat)
    requires pd in m && |m[pd]| == ENTRIES && i < USER_ENTRIES
  {
    && Present(m[pd][i]) && Target(m[pd][i]) in m
    && (Target(m[pd][i]) == x
        || exists j :: 0 <= j < |m[Target(m[pd][i])]| && Present(m[Target(m[pd][i])][j]) && Target(m[Target(m[pd][i])][j]) == x)
  }

  /** What one directory entry frees. */
  function OwnFrees(m: Memory, pd: nat, i: nat): seq<nat>
    requires pd in m && |m[pd]| == ENTRIES && i < USER_ENTRIES
  {
    if Present(m[pd][i]) && Target(m[pd][i]) in m then FramesFrom(m[Target(m[pd][i])], 0) + [Target(m[pd][i])] else []
  }

  lemma OwnAre(m: Memory, pd: nat, i: nat, x: nat)
    requires pd in m && |m[pd]| == ENTRIES && i < USER_ENTRIES
    ensures x in OwnFrees(m, pd, i) <==> FreedBy(m, pd, i, x)
  {
    hide Present, Target;
    if Present(m[pd][i]) && Target(m[pd][i]) in m {
      FramesAre(m[Target(m[pd][i])], 0);
    }
  }

  lemma OwnDistinct(m: Memory, pd: nat, i: nat)
    requires Ok(m, pd) && DistinctFrames(m, pd) && i < USER_ENTRIES
    ensures pd in m && |m[pd]| == ENTRIES && Distinct(OwnFrees(m, pd, i))
  {
    if Present(m[pd][i]) && Target(m[pd][i]) in m {
      var t := Target(m[pd][i]);
      forall j, k | 0 <= j < k < |m[t]| && Present(m[t][j]) && Present(m[t][k]) ensures Target(m[t][j]) != Target(m[t][k]) {
        SameOnlyAt(m, pd, i, j, i, k);
      }
      FramesDistinct(m[t], 0);
      FramesAre(m[t], 0);
      forall j | 0 <= j < |m[t]| && Present(m[t][j]) ensures Target(m[t][j]) != t {
        FrameOutside(m, pd, i, j);
      }
      hide Present, Target, Ok, DistinctFrames, FramesFrom;
      NoRepeatJoin(FramesFrom(m[t], 0), [t]);
    }
  }

  lemma FrameOutside(m: Memory, pd: nat, i: nat, j: nat)
    requires Ok(m, pd) && DistinctFrames(m, pd) && i < USER_ENTRIES && j < ENTRIES && m[pd][i] != 0
    ensures Target(m[pd][i]) in m && |m[Target(m[pd][i])]| == ENTRIES
    ensures Present(m[Target(m[pd][i])][j]) ==> Target(m[Target(m[pd][i])][j]) !in m
  {
    FrameIs(m, pd, i, j);
  }

  lemma SameOnlyAt(m: Memory, pd: nat, i: nat, j: nat, i': nat, j': nat)
    requires Ok(m, pd) && DistinctFrames(m, pd) && i < USER_ENTRIES && i' < USER_ENTRIES && j < ENTRIES && j' < ENTRIES
    requires m[pd][i] != 0 && m[pd][i'] != 0
    ensures Target(m[pd][i]) in m && Target(m[pd][i']) in m
    ensures |m[Target(m[pd][i])]| == |m[Target(m[pd][i'])]| == ENTRIES
    ensures var e, e' := m[Target(m[pd][i])][j], m[Target(m[pd][i'])][j'];
            Present(e) && Present(e') && Target(e) == Target(e') ==> i == i' && j == j'
  {
    FrameIs(m, pd, i, j);
    FrameIs(m, pd, i', j');
    PageAtSplits(i, j);
    PageAtSplits(i', j');
    hide Target, Present, PageAt, PdNo, PtNo, Ok, Lookup;
    assert SameFrame(Lookup(m, pd, PageAt(i, j)), Lookup(m, pd, PageAt(i', j')))
      ==> PageOf(PageAt(i, j)) == PageOf(PageAt(i', j'));
  }

  /** The way in which an entry accounts for a page. */
  lemma FreedWhy(m: Memory, pd: nat, i: nat, x: nat) returns (table: bool, j: nat)
    requires Ok(m, pd) && i < USER_ENTRIES && pd in m && |m[pd]| == ENTRIES && FreedBy(m, pd, i, x)
    ensures m[pd][i] != 0 && Target(m[pd][i]) in m && |m[Target(m[pd][i])]| == ENTRIES
    ensures table ==> Target(m[pd][i]) == x
    ensures !table ==> j < ENTRIES && Present(m[Target(m[pd][i])][j]) && Target(m[Target(m[pd][i])][j]) == x
  {
    ZeroAbsent();
    hide Target, Present;
    var t := Target(m[pd][i]);
    table, j := t == x, 0;
    if !table {
      j :| 0 <= j < |m[t]| && Present(m[t][j]) && Target(m[t][j]) == x;
    }
  }

  /** No page is freed through two directory entries. */
  lemma FreedByOne(m: Memory, pd: nat, i: nat, k: nat, x: nat)
    requires Ok(m, pd) && DistinctFrames(m, pd) && i < USER_ENTRIES && k < USER_ENTRIES && pd in m && |m[pd]| == ENTRIES
    requires FreedBy(m, pd, i, x) && FreedBy(m, pd, k, x)
    ensures i == k
  {
    var inTable, j := FreedWhy(m, pd, i, x);
    var inTable', j' := FreedWhy(m, pd, k, x);
    hide FreedBy, Target, Present, DistinctFrames;
    if !inTable {
      FrameOutside(m, pd, i, j);
    }
    if !inTable' {
      FrameOutside(m, pd, k, j');
      if !inTable {
        SameOnlyAt(m, pd, i, j, k, j');
      }
    }
  }

  lemma {:induction false} FreesAre(m: Memory, pd: nat, from: nat, x: nat)
    requires pd in m && |m[pd]| == ENTRIES && from <= USER_ENTRIES
    ensures x in FreesFrom(m, pd, from) <==> exists i: nat :: from <= i < USER_ENTRIES && FreedBy(m, pd, i, x)
    decreases USER_ENTRIES - from
  {
    hide FreedBy, OwnFrees, Present, Target, FramesFrom;
    if from < USER_ENTRIES {
      FreesAre(m, pd, from + 1, x);
      OwnAre(m, pd, from, x);
      FreesSplit(m, pd, from);
    } else {
      FreesNone(m, pd);
    }
  }

  lemma FreesNone(m: Memory, pd: nat)
    requires pd in m && |m[pd]| == ENTRIES
    ensures FreesFrom(m, pd, USER_ENTRIES) == []
  {
  }

  lemma FreesSplit(m: Memory, pd: nat, i: nat)
    requires pd in m && |m[pd]| == ENTRIES && i < USER_ENTRIES
    ensures FreesFrom(m, pd, i) == OwnFrees(m, pd, i) + FreesFrom(m, pd, i + 1)
  {
  }

  lemma {:induction false} FreesDistinct(m: Memory, pd: nat, from: nat)
    requires Ok(m, pd) && DistinctFrames(m, pd) && from <= USER_ENTRIES
    ensures pd in m && |m[pd]| == ENTRIES && Distinct(FreesFrom(m, pd, from))
    decreases USER_ENTRIES - from
  {
    FreesStart(m, pd);
    hide FreedBy, OwnFrees, Present, Target, FramesFrom, FreesFrom, Ok, DistinctFrames, Distinct;
    if from < USER_ENTRIES {
      FreesDistinct(m, pd, from + 1);
      OwnDistinct(m, pd, from);
      FreesSplit(m, pd, from);
      forall x | x in OwnFrees(m, pd, from) ensures x !in FreesFrom(m, pd, from + 1) {
        OwnAre(m, pd, from, x);
        FreesAre(m, pd, from + 1, x);
        forall i: nat | from + 1 <= i < USER_ENTRIES ensures !FreedBy(m, pd, i, x) {
          if FreedBy(m, pd, i, x) {
            FreedByOne(m, pd, from, i, x);
          }
        }
      }
      NoRepeatJoin(OwnFrees(m, pd, from), FreesFrom(m, pd, from + 1));
    } else {
      FreesNone(m, pd);
      NoneRepeats();
    }
  }

  lemma NoneRepeats()
    ensures Distinct([])
  {
  }

  /** pagedir_destroy frees each page once: the directory, every user page table, and every
      frame that a user page is mapped to. */
  lemma FreedExactlyOnce(m: Memory, pd: nat, x: nat)
    requires Ok(m, pd) && DistinctFrames(m, pd)
    ensures pd in m && |m[pd]| == ENTRIES && Distinct(FreesFrom(m, pd, 0) + [pd])
    ensures x in FreesFrom(m, pd, 0) + [pd]
      <==> x == pd || IsTable(m, pd, x) || IsMapped(m, pd, x)
  {
    FreesStart(m, pd);
    FreesDistinct(m, pd, 0);
    FreesAre(m, pd, 0, x);
    FreesAre(m, pd, 0, pd);
    ByEntries(m, pd, x);
    ByEntries(m, pd, pd);
    NotDirectory(m, pd);
    hide *;
    OneElement(pd);
    NoRepeatJoin(FreesFrom(m, pd, 0), [pd]);
  }

  lemma OneElement(x: nat)
    ensures Distinct([x])
  {
  }

  ghost predicate IsTable(m: Memory, pd: nat, x: nat)
    requires Ok(m, pd)
  {
    exists i: nat :: i < USER_ENTRIES && m[pd][i] != 0 && Target(m[pd][i]) == x
  }

  ghost predicate IsMapped(m: Memory, pd: nat, x: nat)
    requires Ok(m, pd)
  {
    exists v: nat :: v < PHYS_BASE && Lookup(m, pd, v).Some? && Lookup(m, pd, v).value.page == x
  }

  lemma NotDirectory(m: Memory, pd: nat)
    requires Ok(m, pd) && DistinctFrames(m, pd)
    ensures !IsTable(m, pd, pd) && !IsMapped(m, pd, pd)
  {
  }

  lemma ByEntries(m: Memory, pd: nat, x: nat)
    requires Ok(m, pd)
    ensures pd in m && |m[pd]| == ENTRIES
    ensures (exists i: nat :: i < USER_ENTRIES && FreedBy(m, pd, i, x)) <==> IsTable(m, pd, x) || IsMapped(m, pd, x)
  {
    ZeroAbsent();
    forall i: nat | i < USER_ENTRIES && FreedBy(m, pd, i, x) ensures IsTable(m, pd, x) || IsMapped(m, pd, x) {
      var t := Target(m[pd][i]);
      if t != x {
        var j :| 0 <= j < |m[t]| && Present(m[t][j]) && Target(m[t][j]) == x;
        FrameIs(m, pd, i, j);
        assert Lookup(m, pd, PageAt(i, j)).Some?;
      }
    }
    forall v: nat | v < PHYS_BASE && Lookup(m, pd, v).Some? && Lookup(m, pd, v).value.page == x
      ensures exists i: nat :: i < USER_ENTRIES && FreedBy(m, pd, i, x)
    {
      IndexBounds(v);
      assert FreedBy(m, pd, PdNo(v), x);
    }
    forall i: nat | i < USER_ENTRIES && m[pd][i] != 0 && Target(m[pd][i]) == x ensures FreedBy(m, pd, i, x) {
    }
  }
}
