/**
The page-fault handler of the hypervisor: a guest write to a read-only section gives the guest a
private copy of the section.
*/
module PageFault {
  import opened Options
  import opened Words
  import opened Radix
  import opened Translation
  import opened VmInvariant
  import opened Access
  import opened NestedPaging

  predicate InRun(x: nat, first: nat, count: nat) {
    first <= x < first + count
  }

  function Run(first: nat, count: nat): (r: set<nat>) {
    if count == 0 then {} else Run(first, count - 1) + {first + count - 1}
  }

  // ---- The bytes of a section ----

  /** Byte j of a run of frames. */
  function RunByte(mem: Memory, first: nat, j: nat): (b: nat)
    requires first + j / 0x1000 in mem
  {
    FrameByte(mem[first + j / 0x1000], j % 0x1000)
  }

  /** How many of the first size bytes lie in frame k of a run. */
  function Part(size: nat, k: nat): (n: nat)
    ensures n <= 0x1000
  {
    if size <= k * 0x1000 then 0 else if size - k * 0x1000 < 0x1000 then size - k * 0x1000 else 0x1000
  }

  /** Two runs of frames in use, without a common frame. */
  ghost predicate Apart(mem: Memory, src: nat, dst: nat, n: nat) {
    && (forall f: nat | InRun(f, src, n) :: f in mem && !InRun(f, dst, n))
    && (forall f: nat | InRun(f, dst, n) :: f in mem)
  }

  lemma ApartLess(mem: Memory, src: nat, dst: nat, n: nat)
    requires Apart(mem, src, dst, n) && n > 0
    ensures Apart(mem, src, dst, n - 1) && src + n - 1 in mem && dst + n - 1 in mem
    ensures !InRun(dst + n - 1, dst, n - 1) && !InRun(src + n - 1, dst, n)
  {
  }

  /** memory_memcopy between frame-aligned runs, up to n frames of it. */
  function Copied(mem: Memory, src: nat, dst: nat, size: nat, n: nat): (m: Memory)
    requires Apart(mem, src, dst, n)
    ensures m.Keys == mem.Keys
    ensures forall f | f in mem && !InRun(f, dst, n) :: m[f] == mem[f]
  {
    if n == 0 then mem else
    var f, g := dst + n - 1, src + n - 1;
    ApartLess(mem, src, dst, n);
    var m := Copied(mem, src, dst, size, n - 1);
    m[f := CopyFrame(m[g], m[f], Part(size, n - 1))]
  }

  lemma {:induction false} CopiedFrame(mem: Memory, src: nat, dst: nat, size: nat, n: nat, k: nat)
    requires Apart(mem, src, dst, n) && k < n
    ensures src + k in mem && dst + k in mem
    ensures Copied(mem, src, dst, size, n)[dst + k] == CopyFrame(mem[src + k], mem[dst + k], Part(size, k))
  {
    hide CopyFrame;
    hide Part;
    hide Apart;
    ApartLess(mem, src, dst, n);
    if k < n - 1 {
      CopiedFrame(mem, src, dst, size, n - 1, k);
    }
  }

  /** The copy of a section's frames holds the section's bytes. */
  lemma CopiedBytes(mem: Memory, src: nat, dst: nat, size: nat, n: nat, j: nat)
    requires Apart(mem, src, dst, n) && n == (size + 0xFFF) / 0x1000 && j < size
    ensures src + j / 0x1000 in mem && dst + j / 0x1000 in Copied(mem, src, dst, size, n)
    ensures RunByte(Copied(mem, src, dst, size, n), dst, j) == RunByte(mem, src, j)
  {
    hide CopyFrame;
    hide FrameByte;
    hide Copied;
    var k := j / 0x1000;
    CopiedFrame(mem, src, dst, size, n, k);
    CopyFrameBytes(mem[src + k], mem[dst + k], Part(size, k), j % 0x1000);
  }

  // ---- The section's mappings ----

  /**
  A section that the handler can replace: page-aligned, mapped by the guest, and identity-mapped by the
  extended page tables to frames that hold data.
  */
  ghost predicate SectionMapped(mem: Memory, v: View, vp: nat, pp: nat, n: nat) {
    && vp + n <= PAGES && pp + n <= PAGES
    && (forall p: nat | InRun(p, vp, n) :: p in v.guest && v.guest[p].addr == p - vp + pp)
    && (forall g: nat | InRun(g, pp, n) :: g in v.ept && v.ept[g].addr == g && g in mem && g !in v.role)
  }

  function Cut(m: Leaves, first: nat, i: nat, p: nat): (w: Option<Word>) {
    if InRun(p, first, i) then None else Get(m, p)
  }

  /** The flat map with the first i pages of a run taken out. */
  ghost predicate Without(m: Leaves, m0: Leaves, first: nat, i: nat) {
    forall p: nat :: Get(m, p) == Cut(m0, first, i, p)
  }

  /** Of the guest's tables some went, and as many page numbers were released. */
  ghost predicate Freed(v: View, released: nat, v': View, released': nat) {
    v'.guestNodes.Keys <= v.guestNodes.Keys
        && TableCount(v'.guestNodes) + released' == TableCount(v.guestNodes) + released
  }

  lemma FreedNone(v: View, r: nat)
    ensures Freed(v, r, v, r)
  {
  }

  lemma FreedTwice(v: View, r: nat, v1: View, r1: nat, v2: View, r2: nat)
    requires Freed(v, r, v1, r1) && Freed(v1, r1, v2, r2)
    ensures Freed(v, r, v2, r2)
  {
    hide TableCount;
  }

  lemma FreedOne(v: View, r: nat, v': View, r': nat, p: nat)
    requires OffPathKept(v.guestNodes, v'.guestNodes, p)
             && TableCount(v'.guestNodes) + r' == TableCount(v.guestNodes) + r
    ensures Freed(v, r, v', r')
  {
    hide TableCount;
  }

  /** Unmaps one page of the section from both translations. */
  method UnmapPage(vm: Vm, g: nat, p: nat)
    requires vm.Valid() && p < PAGES && g < PAGES && CR3_PAGE in vm.v.ept
    requires g in vm.v.ept && vm.v.ept[g].addr == g && g !in vm.v.role && g in vm.mem
    requires p in vm.v.guest && vm.v.guest[p].addr == g
    modifies vm`mem, vm`starved, vm`eptFrames, vm`v, vm`released
    ensures vm.starved == old(vm.starved)
    ensures vm.Valid() && CR3_PAGE in vm.v.ept && DataKept(old(vm.mem), old(vm.v), vm.mem, vm.v)
    ensures vm.v.guest == old(vm.v).guest - {p} && vm.v.ept == old(vm.v).ept - {g}
    ensures Freed(old(vm.v), old(|vm.released|), vm.v, |vm.released|)
  {
    hide GuestInv;
    hide Layout;
    hide TableCount;
    hide Freed;
    hide OffPathKept;
    var ok := vm.PagingDelPage(g, p);
    ghost var mem1, v1 := vm.mem, vm.v;
    vm.DelEptPage(g, g);
    FreedOne(old(vm.v), old(|vm.released|), vm.v, |vm.released|, p);
    InvUnmapped(mem1, vm.base, vm.eptFrames, v1, vm.nextPage, vm.released, vm.window, vm.mem, vm.v, g);
    DataKeptTwice(old(vm.mem), old(vm.v), mem1, v1, vm.mem, vm.v);
  }

  /** A run of frames that hold data. */
  ghost predicate DataRun(mem: Memory, v: View, first: nat, n: nat) {
    first + n <= PAGES && forall f: nat | InRun(f, first, n) :: f in mem && f !in v.role
  }

  lemma DataRunKept(mem: Memory, v: View, mem': Memory, v': View, first: nat, n: nat)
    requires DataRun(mem, v, first, n) && DataKept(mem, v, mem', v')
    ensures DataRun(mem', v', first, n)
    ensures forall f: nat | InRun(f, first, n) :: f in mem && f in mem' && mem'[f] == mem[f]
  {
  }

  /** The first loop of the handler: unmaps the section. */
  method UnmapSection(vm: Vm, vp: nat, pp: nat, n: nat)
    requires vm.Valid() && SectionMapped(vm.mem, vm.v, vp, pp, n) && CR3_PAGE in vm.v.ept
    modifies vm`mem, vm`starved, vm`eptFrames, vm`v, vm`released
    ensures vm.starved == old(vm.starved)
    ensures vm.Valid() && CR3_PAGE in vm.v.ept && DataKept(old(vm.mem), old(vm.v), vm.mem, vm.v)
    ensures Without(vm.v.guest, old(vm.v).guest, vp, n) && Without(vm.v.ept, old(vm.v).ept, pp, n)
    ensures Freed(old(vm.v), old(|vm.released|), vm.v, |vm.released|)
  {
    hide Inv;
    hide DataKept;
    hide Freed;
    hide Without;
    DataKeptRefl(vm.mem, vm.v);
    ghost var mem0, v0 := vm.mem, vm.v;
    WithoutNone(v0.guest, vp);
    WithoutNone(v0.ept, pp);
    FreedNone(v0, |vm.released|);
    for i := 0 to n
      invariant vm.starved == old(vm.starved)
      invariant vm.Valid() && CR3_PAGE in vm.v.ept && DataKept(mem0, v0, vm.mem, vm.v)
      invariant Without(vm.v.guest, v0.guest, vp, i) && Without(vm.v.ept, v0.ept, pp, i)
      invariant Freed(v0, old(|vm.released|), vm.v, |vm.released|)
    {
      ghost var mem1, v1, free1 := vm.mem, vm.v, |vm.released|;
      assert InRun(vp + i, vp, n) && InRun(pp + i, pp, n);
      StillThere(v1.guest, v0.guest, vp, i);
      StillThere(v1.ept, v0.ept, pp, i);
      DataRunKept(mem0, v0, mem1, v1, pp, n);
      UnmapPage(vm, pp + i, vp + i);
      DataKeptTwice(mem0, v0, mem1, v1, vm.mem, vm.v);
      FreedTwice(v0, old(|vm.released|), v1, free1, vm.v, |vm.released|);
      WithoutOne(v1.guest, v0.guest, vp, i);
      WithoutOne(v1.ept, v0.ept, pp, i);
    }
  }

  lemma WithoutNone(m: Leaves, first: nat)
    ensures Without(m, m, first, 0)
  {
  }

  lemma StillThere(m: Leaves, m0: Leaves, first: nat, i: nat)
    requires Without(m, m0, first, i)
    ensures Get(m, first + i) == Get(m0, first + i)
  {
    assert Get(m, first + i) == Cut(m0, first, i, first + i);
  }

  lemma WithoutOne(m: Leaves, m0: Leaves, first: nat, i: nat)
    requires Without(m, m0, first, i)
    ensures Without(m - {first + i}, m0, first, i + 1)
  {
    var m', i' := m - {first + i}, i + 1;
    forall p: nat ensures Get(m', p) == Cut(m0, first, i', p) {
      assert Get(m, p) == Cut(m0, first, i, p);
    }
  }

  /** A private copy of the section in new frames. */
  method CopySection(vm: Vm, pp: nat, n: nat, size: nat) returns (ok: bool, first: nat)
    requires vm.Valid() && DataRun(vm.mem, vm.v, pp, n) && n == (size + 0xFFF) / 0x1000
    modifies vm`mem, vm`starved, vm`eptFrames
    ensures vm.starved == (old(vm.starved) || !ok)
    ensures vm.Valid() && DataKept(old(vm.mem), vm.v, vm.mem, vm.v)
    ensures ok ==> DataRun(vm.mem, vm.v, first, n) && vm.window <= first
    ensures ok ==> forall f: nat | InRun(f, first, n) :: f !in old(vm.mem)
    ensures ok ==> forall j: nat | j < size :: SameByte(old(vm.mem), vm.mem, pp, first, j)
  {
    hide GuestInv;
    hide Layout;
    hide RunByte;
    hide SameByte;
    ok, first := vm.AllocateRegion(n);
    ghost var v := vm.v;
    InvData(old(vm.mem), vm.base, vm.eptFrames, v, vm.nextPage, vm.released, vm.window, vm.mem, vm.eptFrames);
    if !ok { return; }
    ghost var mem1, frames1 := vm.mem, vm.eptFrames;
    vm.eptFrames := vm.eptFrames + Run(first, n);
    vm.mem := Copied(vm.mem, pp, first, size, n);
    InvData(mem1, vm.base, frames1, v, vm.nextPage, vm.released, vm.window, vm.mem, vm.eptFrames);
    SectionCopied(old(vm.mem), mem1, pp, first, size, n);
  }

  /** The copied section has the bytes the section had before the frames for it were taken. */
  lemma SectionCopied(mem: Memory, mem1: Memory, pp: nat, first: nat, size: nat, n: nat)
    requires n == (size + 0xFFF) / 0x1000 && Apart(mem1, pp, first, n)
    requires forall f: nat | InRun(f, pp, n) :: f in mem && f in mem1 && mem1[f] == mem[f]
    ensures forall j: nat | j < size :: SameByte(mem, Copied(mem1, pp, first, size, n), pp, first, j)
  {
    hide RunByte;
    hide Copied;
    forall j: nat | j < size
      ensures SameByte(mem, Copied(mem1, pp, first, size, n), pp, first, j)
    {
      assert InRun(pp + j / 0x1000, pp, n);
      CopiedBytes(mem1, pp, first, size, n, j);
      RunByteSame(mem1, mem, pp, j);
    }
  }

  lemma RunByteSame(mem: Memory, mem': Memory, first: nat, j: nat)
    requires first + j / 0x1000 in mem && first + j / 0x1000 in mem'
    requires mem[first + j / 0x1000] == mem'[first + j / 0x1000]
    ensures RunByte(mem, first, j) == RunByte(mem', first, j)
  {
  }

  /** From one state to a later one only page-table pages, and the pages of a run, became mapped. */
  ghost predicate OnlyTablePages(mem: Memory, v: View, next: nat, v': View, next': nat, first: nat, n: nat) {
    forall g: nat | g in v'.ept && g !in v.ept && !InRun(g, first, n) ::
      TablePage(mem, v, next, next', g) && v'.ept[g].addr !in mem
  }

  lemma OnlyTablePagesTwice(mem: Memory, v: View, next: nat, mem1: Memory, v1: View, next1: nat, v2: View, next2: nat,
                            first: nat, i: nat)
    requires OnlyTablePages(mem, v, next, v1, next1, first, i)
             && OnlyTablePages(mem1, v1, next1, v2, next2, first + i, 1)
    requires DataKept(mem, v, mem1, v1) && Kept(v1.ept, v2.ept) && next <= next1 <= next2
    ensures OnlyTablePages(mem, v, next, v2, next2, first, i + 1)
  {
  }

  lemma Remapped(mem: Memory, v: View, next: nat, mem1: Memory, v1: View, mem2: Memory, v2: View, next2: nat, g: nat)
    requires OnlyEpt(mem, v, mem1, v1) && Grew(mem1, v1, next, mem2, v2, next2)
    requires g !in v.ept && (v1.ept == v.ept || (g in v1.ept && v1.ept == v.ept[g := v1.ept[g]]))
    ensures DataKept(mem, v, mem2, v2) && Kept(v.ept, v2.ept) && Kept(v1.ept, v2.ept)
    ensures OnlyTablePages(mem, v, next, v2, next2, g, 1) && v1.guest == v.guest && v1.guestNodes == v.guestNodes
  {
  }

  /** Tables put back on released page numbers. */
  lemma TablesBack(nodes: Nodes, nodes': Nodes, p: nat, r: nat, n: nat, r': nat, n': nat)
    requires Joined(nodes, nodes', Path(p)) && Spent(r, n, r', n', Missing(nodes, p)) && Missing(nodes, p) <= r
    ensures n' == n && TableCount(nodes') + r' == TableCount(nodes) + r
  {
    MissingCount(nodes, p);
  }

  /** While all tables belong to a set, and it is no larger than tables and released numbers together, there is room. */
  lemma RoomBack(all: set<Pos>, nodes: Nodes, p: nat, r: nat)
    requires nodes.Keys <= all && Path(p) <= all && |all| <= TableCount(nodes) + r
    ensures Missing(nodes, p) <= r
    ensures forall nodes': Nodes | Joined(nodes, nodes', Path(p)) :: nodes'.Keys <= all
  {
    MissingCount(nodes, p);
    assert nodes.Keys + Path(p) <= all;
    Smaller(nodes.Keys + Path(p), all);
  }

  /** Maps one page of the section again, to a new frame. */
  method RemapPage(vm: Vm, h: nat, g: nat, p: nat) returns (ok: bool)
    requires vm.Valid() && CR3_PAGE in vm.v.ept && Missing(vm.v.guestNodes, p) <= |vm.released| && p < PAGES
    requires h in vm.mem && h !in vm.v.role && Free(vm.v, vm.nextPage, vm.released, vm.window, g) && p !in vm.v.guest
    modifies vm`mem, vm`starved, vm`eptFrames, vm`v, vm`nextPage, vm`released
    ensures vm.starved == (old(vm.starved) || !ok)
    ensures vm.Valid() && CR3_PAGE in vm.v.ept && DataKept(old(vm.mem), old(vm.v), vm.mem, vm.v)
    ensures old(vm.nextPage) <= vm.nextPage && Kept(old(vm.v).ept, vm.v.ept)
    ensures OnlyTablePages(old(vm.mem), old(vm.v), old(vm.nextPage), vm.v, vm.nextPage, g, 1)
    ensures ok ==> vm.nextPage == old(vm.nextPage) && Joined(old(vm.v).guestNodes, vm.v.guestNodes, Path(p))
    ensures ok ==> TableCount(vm.v.guestNodes) + |vm.released| == old(TableCount(vm.v.guestNodes) + |vm.released|)
    ensures ok ==> g in vm.v.ept && vm.v.ept[g].addr == h && vm.v.ept[g].kind == WRITE_BACK
    ensures vm.v.guest == if ok then old(vm.v).guest[p := GuestLeaf(g, false, true)] else old(vm.v).guest
  {
    hide EptInv;
    hide GuestInv;
    hide Layout;
    hide OnlyEpt;
    hide Grew;
    hide DataKept;
    hide OnlyTablePages;
    hide TableCount;
    hide Joined;
    hide Path;
    hide Missing;
    hide Spent;
    ok := vm.AddEptPage(h, g, true);
    ghost var mem1, v1 := vm.mem, vm.v;
    InvMapped(old(vm.mem), vm.base, old(vm.eptFrames), old(vm.v), vm.nextPage, vm.released, vm.window,
              mem1, vm.eptFrames, v1, g);
    GrewNot(mem1, v1, vm.nextPage);
    Remapped(old(vm.mem), old(vm.v), vm.nextPage, mem1, v1, mem1, v1, vm.nextPage, g);
    if !ok { return; }
    ok := vm.PagingAddPage(g, p, false, true);
    Remapped(old(vm.mem), old(vm.v), old(vm.nextPage), mem1, v1, vm.mem, vm.v, vm.nextPage, g);
    if ok {
      TablesBack(v1.guestNodes, vm.v.guestNodes, p, old(|vm.released|), old(vm.nextPage), |vm.released|, vm.nextPage);
    }
  }

  /** The pages of a section that were unmapped are still free when their turn comes. */
  lemma StillFree(mem: Memory, v: View, next: nat, mem1: Memory, base: nat, recorded1: set<nat>, v1: View, next1: nat,
                  released1: seq<nat>, window: nat, pp: nat, n: nat, i: nat)
    requires Inv(mem1, base, recorded1, v1, next1, released1, window) && CR3_PAGE in v.ept && next <= next1
    requires DataRun(mem, v, pp, n) && i < n && pp + i !in v.ept && !(next < pp + i < window)
    requires DataKept(mem, v, mem1, v1) && OnlyTablePages(mem, v, next, v1, next1, pp, i)
    ensures Free(v1, next1, released1, window, pp + i)
  {
  }

  /** A flat map with the first i pages of a section mapped, writable, to their guest-physical pages. */
  function Pasted(m: Leaves, vp: nat, pp: nat, i: nat, p: nat): (w: Option<Word>)
    requires pp + i <= PAGES
  {
    if InRun(p, vp, i) then Some(GuestLeaf(p - vp + pp, false, true)) else Get(m, p)
  }

  ghost predicate IsPasted(m: Leaves, m0: Leaves, vp: nat, pp: nat, i: nat)
    requires pp + i <= PAGES
  {
    forall p: nat :: Get(m, p) == Pasted(m0, vp, pp, i, p)
  }

  lemma PastedOne(m: Leaves, m0: Leaves, vp: nat, pp: nat, i: nat)
    requires pp + i + 1 <= PAGES && IsPasted(m, m0, vp, pp, i)
    ensures IsPasted(m[vp + i := GuestLeaf(pp + i, false, true)], m0, vp, pp, i + 1)
  {
    var m', i' := m[vp + i := GuestLeaf(pp + i, false, true)], i + 1;
    forall p: nat ensures Get(m', p) == Pasted(m0, vp, pp, i', p) {
      assert Get(m, p) == Pasted(m0, vp, pp, i, p);
    }
  }

  /** The pages of a run lead to the frames of another, in order, as write-back memory. */
  ghost predicate Leads(e: Leaves, pp: nat, first: nat, i: nat) {
    forall g: nat | InRun(g, pp, i) :: g in e && e[g].addr == g - pp + first && e[g].kind == WRITE_BACK
  }

  lemma LeadsOne(e: Leaves, e': Leaves, pp: nat, first: nat, i: nat)
    requires Leads(e, pp, first, i) && Kept(e, e')
    requires pp + i in e' && e'[pp + i].addr == first + i && e'[pp + i].kind == WRITE_BACK
    ensures Leads(e', pp, first, i + 1)
  {
  }

  lemma LeadsKept(e: Leaves, e': Leaves, pp: nat, first: nat, i: nat)
    requires Leads(e, pp, first, i) && Kept(e, e')
    ensures Leads(e', pp, first, i)
  {
  }

  /** The second loop of the handler: maps the section again, to the copy. */
  method RemapSection(vm: Vm, vp: nat, pp: nat, first: nat, n: nat, ghost all: set<Pos>) returns (ok: bool)
    requires vm.Valid() && CR3_PAGE in vm.v.ept && vp + n <= PAGES
    requires vm.v.guestNodes.Keys <= all && |all| <= TableCount(vm.v.guestNodes) + |vm.released|
    requires forall p: nat | InRun(p, vp, n) :: Path(p) <= all
    requires DataRun(vm.mem, vm.v, pp, n) && DataRun(vm.mem, vm.v, first, n)
    requires forall g: nat | InRun(g, pp, n) :: g !in vm.v.ept && !(vm.nextPage < g < vm.window)
    requires forall p: nat | InRun(p, vp, n) :: p !in vm.v.guest
    modifies vm`mem, vm`starved, vm`eptFrames, vm`v, vm`nextPage, vm`released
    ensures vm.starved == (old(vm.starved) || !ok)
    ensures vm.Valid() && CR3_PAGE in vm.v.ept && DataKept(old(vm.mem), old(vm.v), vm.mem, vm.v)
    ensures Kept(old(vm.v).ept, vm.v.ept) && old(vm.nextPage) <= vm.nextPage && (ok ==> vm.nextPage == old(vm.nextPage))
    ensures OnlyTablePages(old(vm.mem), old(vm.v), old(vm.nextPage), vm.v, vm.nextPage, pp, n)
    ensures ok ==> Leads(vm.v.ept, pp, first, n) && IsPasted(vm.v.guest, old(vm.v).guest, vp, pp, n)
    ensures !ok ==>
              exists i: nat | i < n :: IsPasted(vm.v.guest, old(vm.v).guest, vp, pp, i) && Leads(vm.v.ept, pp, first, i)
  {
    hide Inv;
    hide DataKept;
    hide OnlyTablePages;
    hide Free;
    hide TableCount;
    hide Path;
    hide Joined;
    hide Missing;
    ghost var mem0, v0, next0 := vm.mem, vm.v, vm.nextPage;
    DataKeptRefl(mem0, v0);
    assert OnlyTablePages(mem0, v0, next0, v0, next0, pp, 0) by { NoNewPages(mem0, v0, next0, pp); }
    ok := true;
    for i := 0 to n
      invariant vm.starved == old(vm.starved)
      invariant ok && vm.Valid() && CR3_PAGE in vm.v.ept && DataKept(mem0, v0, vm.mem, vm.v)
      invariant Kept(v0.ept, vm.v.ept) && vm.nextPage == next0
      invariant vm.v.guestNodes.Keys <= all && |all| <= TableCount(vm.v.guestNodes) + |vm.released|
      invariant OnlyTablePages(mem0, v0, next0, vm.v, vm.nextPage, pp, i)
      invariant Leads(vm.v.ept, pp, first, i) && IsPasted(vm.v.guest, v0.guest, vp, pp, i)
    {
      ghost var mem1, v1, next1 := vm.mem, vm.v, vm.nextPage;
      assert InRun(pp + i, pp, n) && InRun(vp + i, vp, n) && InRun(first + i, first, n);
      StillFree(mem0, v0, next0, mem1, vm.base, vm.eptFrames, v1, next1, vm.released, vm.window, pp, n, i);
      DataRunKept(mem0, v0, mem1, v1, first, n);
      RoomBack(all, v1.guestNodes, vp + i, |vm.released|);
      assert Get(v1.guest, vp + i) == Pasted(v0.guest, vp, pp, i, vp + i);
      ok := RemapPage(vm, first + i, pp + i, vp + i);
      DataKeptTwice(mem0, v0, mem1, v1, vm.mem, vm.v);
      OnlyTablePagesTwice(mem0, v0, next0, mem1, v1, next1, vm.v, vm.nextPage, pp, i);
      if ok {
        PastedOne(v1.guest, v0.guest, vp, pp, i);
        LeadsOne(v1.ept, vm.v.ept, pp, first, i);
      } else {
        MoreTablePages(mem0, v0, next0, vm.v, vm.nextPage, pp, i + 1, n);
        LeadsKept(v1.ept, vm.v.ept, pp, first, i);
        return;
      }
    }
  }

  lemma NoNewPages(mem: Memory, v: View, next: nat, first: nat)
    ensures OnlyTablePages(mem, v, next, v, next, first, 0)
  {
  }

  lemma MoreTablePages(mem: Memory, v: View, next: nat, v': View, next': nat, first: nat, i: nat, n: nat)
    requires OnlyTablePages(mem, v, next, v', next', first, i) && i <= n
    ensures OnlyTablePages(mem, v, next, v', next', first, n)
  {
  }

  // ---- The handler ----

  function FirstPage(s: Section): (vp: nat)
    ensures s.virtualStart % 0x1000 == 0 ==> 0x1000 * vp == s.virtualStart
  {
    s.virtualStart / 0x1000
  }

  function FirstFrame(s: Section): (pp: nat)
    ensures s.physicalStart % 0x1000 == 0 ==> 0x1000 * pp == s.physicalStart
  {
    s.physicalStart / 0x1000
  }

  /** The fewest pages that hold the section. */
  function PageCount(s: Section): (n: nat)
    ensures s.size <= 0x1000 * n < s.size + 0x1000
  {
    (s.size + 0xFFF) / 0x1000
  }

  /** A section the handler's contract is about. */
  ghost predicate Replaceable(mem: Memory, v: View, s: Section) {
    && s.virtualStart % 0x1000 == 0 && s.physicalStart % 0x1000 == 0
    && SectionMapped(mem, v, FirstPage(s), FirstFrame(s), PageCount(s))
  }

  /**
  What a handled fault leaves: the section's pages are mapped writable to the same guest-physical pages,
  these lead to new frames that nothing else leads to and that hold the section's bytes, and every other
  mapping, and every data frame that was in use, is as before.
  */
  ghost predicate Replaced(mem: Memory, v: View, mem': Memory, v': View, s: Section, first: nat) {
    var vp, pp, n := FirstPage(s), FirstFrame(s), PageCount(s);
    && pp + n <= PAGES && IsPasted(v'.guest, v.guest, vp, pp, n)
    && Leads(v'.ept, pp, first, n)
    && (forall g: nat | g in v.ept && !InRun(g, pp, n) :: g in v'.ept && v'.ept[g] == v.ept[g])
    && DataRun(mem', v', first, n) && (forall f: nat | InRun(f, first, n) :: f !in mem)
    && (forall g: nat | g in v'.ept && !InRun(g, pp, n) :: !InRun(v'.ept[g].addr, first, n))
    && DataKept(mem, v, mem', v')
    && (forall j: nat | j < s.size :: SameByte(mem, mem', pp, first, j))
  }

  /** Byte j of one run is byte j of another. */
  ghost predicate SameByte(mem: Memory, mem': Memory, src: nat, dst: nat, j: nat) {
    && src + j / 0x1000 in mem && dst + j / 0x1000 in mem'
    && RunByte(mem', dst, j) == RunByte(mem, src, j)
  }

  /** Unmapping a run, and mapping it again, one after the other. */
  lemma PastedCut(m: Leaves, m1: Leaves, m0: Leaves, vp: nat, pp: nat, n: nat, i: nat)
    requires pp + n <= PAGES && i <= n && Without(m1, m0, vp, n) && IsPasted(m, m1, vp, pp, i)
    ensures i == n ==> IsPasted(m, m0, vp, pp, n)
    ensures forall p: nat | !InRun(p, vp, n) :: Get(m, p) == Get(m0, p)
    ensures PartlyBack(m, m0, vp, pp, n, i)
  {
  }

  /** A flat map whose section of n pages has only its first i pages, mapped writable, and all others as before. */
  ghost predicate PartlyBack(m: Leaves, m0: Leaves, vp: nat, pp: nat, n: nat, i: nat) {
    && i <= n && pp + n <= PAGES
    && forall p: nat ::
         Get(m, p) == if InRun(p, vp, i) then Some(GuestLeaf(p - vp + pp, false, true)) else Cut(m0, vp, n, p)
  }

  /** What a replacement that ran out of memory leaves: a prefix of the section, on the copy, and the rest unmapped. */
  ghost predicate Interrupted(v: View, v': View, s: Section, first: nat, i: nat) {
    && PartlyBack(v'.guest, v.guest, FirstPage(s), FirstFrame(s), PageCount(s), i)
    && Leads(v'.ept, FirstFrame(s), first, i)
  }

  lemma InterruptedAt(v: View, v': View, s: Section, first: nat, i: nat)
    requires PartlyBack(v'.guest, v.guest, FirstPage(s), FirstFrame(s), PageCount(s), i)
    requires Leads(v'.ept, FirstFrame(s), first, i)
    ensures Interrupted(v, v', s, first, i)
  {
  }

  /** The processor lets the guest read and write the section's pages, and takes it to the copy. */
  ghost predicate CopyOpen(mem: Memory, base: nat, s: Section, first: nat) {
    forall p: nat, k: Kind | InRun(p, FirstPage(s), PageCount(s)) && k != Fetch ::
      GuestAccess(mem, base, p, k) == Some(p - FirstPage(s) + first)
  }

  /** The three steps of the handler put together. */
  lemma ReplacedNow(mem: Memory, base: nat, recorded: set<nat>, v: View, mem1: Memory, v1: View, mem2: Memory,
                    next: nat, mem3: Memory, v3: View, next3: nat, s: Section, first: nat)
    requires EptInv(mem, base, recorded, v)
    requires Replaceable(mem, v, s) && DataKept(mem, v, mem1, v1) && DataKept(mem1, v1, mem2, v1)
             && DataKept(mem2, v1, mem3, v3)
    requires Without(v1.guest, v.guest, FirstPage(s), PageCount(s))
             && Without(v1.ept, v.ept, FirstFrame(s), PageCount(s))
    requires DataRun(mem2, v1, first, PageCount(s)) && forall f: nat | InRun(f, first, PageCount(s)) :: f !in mem1
    requires forall j: nat | j < s.size :: SameByte(mem1, mem2, FirstFrame(s), first, j)
    requires Kept(v1.ept, v3.ept) && OnlyTablePages(mem2, v1, next, v3, next3, FirstFrame(s), PageCount(s))
    requires Leads(v3.ept, FirstFrame(s), first, PageCount(s))
    requires IsPasted(v3.guest, v1.guest, FirstPage(s), FirstFrame(s), PageCount(s))
    ensures Replaced(mem, v, mem3, v3, s, first)
  {
    hide RunByte;
    var vp, pp, n := FirstPage(s), FirstFrame(s), PageCount(s);
    PastedCut(v3.guest, v1.guest, v.guest, vp, pp, n, n);
    forall g: nat | g in v.ept && !InRun(g, pp, n) ensures g in v3.ept && v3.ept[g] == v.ept[g] {
      assert Get(v1.ept, g) == Cut(v.ept, pp, n, g);
    }
    forall g: nat | g in v3.ept && !InRun(g, pp, n) ensures !InRun(v3.ept[g].addr, first, n) {
      assert Get(v1.ept, g) == Cut(v.ept, pp, n, g);
      if g in v.ept {
        assert LeafOk(mem, v.role, v.ept[g].addr);
      }
    }
    DataKeptTwice(mem, v, mem1, v1, mem2, v1);
    DataKeptTwice(mem, v, mem2, v1, mem3, v3);
    DataRunKept(mem2, v1, mem3, v3, first, n);
    DataRunKept(mem, v, mem1, v1, pp, n);
    forall j: nat | j < s.size ensures SameByte(mem, mem3, pp, first, j) {
      assert SameByte(mem1, mem2, pp, first, j);
      assert InRun(pp + j / 0x1000, pp, n) && InRun(first + j / 0x1000, first, n);
      RunByteSame(mem, mem1, pp, j);
      RunByteSame(mem2, mem3, first, j);
    }
  }

  /** The part of hypervisor_ept_page_fault_handler that replaces a section. */
  method CopyOnWrite(vm: Vm, s: Section) returns (ok: bool, ghost first: nat)
    requires vm.Valid() && Replaceable(vm.mem, vm.v, s) && CR3_PAGE in vm.v.ept
    modifies vm`mem, vm`starved, vm`eptFrames, vm`v, vm`nextPage, vm`released
    ensures vm.starved == (old(vm.starved) || !ok)
    ensures vm.Valid() && DataKept(old(vm.mem), old(vm.v), vm.mem, vm.v)
    ensures ok ==> Replaced(old(vm.mem), old(vm.v), vm.mem, vm.v, s, first) && vm.nextPage == old(vm.nextPage)
    ensures ok ==> CopyOpen(vm.mem, vm.base, s, first)
    ensures !ok ==> exists i: nat :: Interrupted(old(vm.v), vm.v, s, first, i)
    ensures forall p: nat | !InRun(p, FirstPage(s), PageCount(s)) :: Get(vm.v.guest, p) == Get(old(vm.v).guest, p)
    ensures forall g: nat | g in old(vm.v).ept && !InRun(g, FirstFrame(s), PageCount(s)) ::
              g in vm.v.ept && vm.v.ept[g] == old(vm.v).ept[g]
    ensures CR3_PAGE in vm.v.ept
  {
    hide Inv;
    hide DataKept;
    hide OnlyTablePages;
    hide Replaced;
    hide SameByte;
    hide IsPasted;
    hide Freed;
    hide TableCount;
    hide Path;
    hide CopyOpen;
    hide Interrupted;
    var vp, pp, n := FirstPage(s), FirstFrame(s), PageCount(s);
    ghost var mem0, v0, frames0, next0, free0 := vm.mem, vm.v, vm.eptFrames, vm.nextPage, vm.released;
    ghost var released0 := |vm.released|;
    forall p: nat | InRun(p, vp, n) ensures Path(p) <= v0.guestNodes.Keys {
      PathThere(mem0, vm.base, frames0, v0, vm.nextPage, vm.released, vm.window, p);
    }
    assert EptInv(mem0, vm.base, frames0, v0) by {
      RootIs(mem0, vm.base, frames0, v0, vm.nextPage, vm.released, vm.window);
    }
    SectionPages(mem0, vm.base, frames0, v0, vm.nextPage, vm.released, vm.window, vp, pp, n);
    UnmapSection(vm, vp, pp, n);
    ghost var mem1, v1 := vm.mem, vm.v;
    DataRunKept(mem0, v0, mem1, v1, pp, n);
    PastedCutNone(v1.guest, v0.guest, vp, pp, n);
    OthersKept(v1.ept, v0.ept, pp, n);
    var f;
    ok, f := CopySection(vm, pp, n, s.size);
    first := f;
    ghost var mem2, next := vm.mem, vm.nextPage;
    DataKeptTwice(mem0, v0, mem1, v1, mem2, v1);
    if !ok {
      InterruptedAt(v0, vm.v, s, first, 0);
      return;
    }
    DataRunKept(mem1, v1, mem2, v1, pp, n);
    SectionUnmapped(v1, v0, vp, pp, n);
    FreedRoom(v0, released0, v1, |vm.released|);
    ok := RemapSection(vm, vp, pp, f, n, v0.guestNodes.Keys);
    DataKeptTwice(mem0, v0, mem2, v1, vm.mem, vm.v);
    if ok {
      ReplacedNow(mem0, vm.base, frames0, v0, mem1, v1, mem2, next, vm.mem, vm.v, vm.nextPage, s, f);
      PastedCut(vm.v.guest, v1.guest, v0.guest, vp, pp, n, n);
      SectionAccess(mem0, vm.base, frames0, v0, next0, free0, vm.window, vm.mem, vm.eptFrames, vm.v, vm.nextPage,
                    vm.released, s, f);
    } else {
      ghost var i: nat :| i < n && IsPasted(vm.v.guest, v1.guest, vp, pp, i) && Leads(vm.v.ept, pp, f, i);
      PastedCut(vm.v.guest, v1.guest, v0.guest, vp, pp, n, i);
      InterruptedAt(v0, vm.v, s, first, i);
    }
  }

  /** The guest-physical pages of a section are data pages, outside the window's free part. */
  lemma SectionPages(mem: Memory, base: nat, recorded: set<nat>, v: View, next: nat, released: seq<nat>, window: nat,
                     vp: nat, pp: nat, n: nat)
    requires Inv(mem, base, recorded, v, next, released, window) && SectionMapped(mem, v, vp, pp, n)
    ensures DataRun(mem, v, pp, n) && forall g: nat | InRun(g, pp, n) :: !(next < g < window)
  {
  }

  lemma FreedRoom(v: View, r: nat, v': View, r': nat)
    requires Freed(v, r, v', r')
    ensures v'.guestNodes.Keys <= v.guestNodes.Keys && |v.guestNodes.Keys| <= TableCount(v'.guestNodes) + r'
  {
  }

  /** A mapped page has all tables of its path. */
  lemma PathThere(mem: Memory, base: nat, recorded: set<nat>, v: View, next: nat, released: seq<nat>, window: nat,
                  p: nat)
    requires Inv(mem, base, recorded, v, next, released, window) && p in v.guest
    ensures Path(p) <= v.guestNodes.Keys
  {
    NotThere(mem, base, recorded, v, next, released, window, p);
  }

  lemma SectionUnmapped(v: View, v0: View, vp: nat, pp: nat, n: nat)
    requires Without(v.guest, v0.guest, vp, n) && Without(v.ept, v0.ept, pp, n)
    ensures forall g: nat | InRun(g, pp, n) :: g !in v.ept
    ensures forall p: nat | InRun(p, vp, n) :: p !in v.guest
  {
    forall g: nat | InRun(g, pp, n) ensures g !in v.ept {
      assert Get(v.ept, g) == Cut(v0.ept, pp, n, g);
    }
    forall p: nat | InRun(p, vp, n) ensures p !in v.guest {
      assert Get(v.guest, p) == Cut(v0.guest, vp, n, p);
    }
  }

  lemma PastedCutNone(m1: Leaves, m0: Leaves, vp: nat, pp: nat, n: nat)
    requires pp + n <= PAGES && Without(m1, m0, vp, n)
    ensures forall p: nat | !InRun(p, vp, n) :: Get(m1, p) == Get(m0, p)
    ensures PartlyBack(m1, m0, vp, pp, n, 0)
  {
  }

  lemma OthersKept(m1: Leaves, m0: Leaves, first: nat, n: nat)
    requires Without(m1, m0, first, n)
    ensures forall g: nat | g in m0 && !InRun(g, first, n) :: g in m1 && m1[g] == m0[g]
  {
    forall g: nat | g in m0 && !InRun(g, first, n) ensures g in m1 && m1[g] == m0[g] {
      assert Get(m1, g) == Cut(m0, first, n, g);
    }
  }

  /** hypervisor_vm_readonly_section_cmp against a one-byte section: both ends count as inside. */
  predicate Matches(s: Section, address: nat) {
    !(address + 1 < s.virtualStart) && !(s.virtualStart + s.size < address)
  }

  predicate Contains(s: Section, address: nat) {
    s.virtualStart <= address < s.virtualStart + s.size
  }

  /** list_get_position: the first section that matches. */
  method FindSection(sections: seq<Section>, address: nat) returns (k: Option<nat>)
    ensures k.Some? ==> k.value < |sections| && Matches(sections[k.value], address)
    ensures forall i: nat | i < (if k.Some? then k.value else |sections|) :: !Matches(sections[i], address)
  {
    for i := 0 to |sections|
      invariant forall j: nat | j < i :: !Matches(sections[j], address)
    {
      if Matches(sections[i], address) {
        return Some(i);
      }
    }
    return None;
  }

  /**
  The first match is the section that contains the address for every address, exactly when no earlier
  section touches it: none ends where it starts, or starts where it ends.
  */
  lemma MatchIsContainer(sections: seq<Section>, c: nat)
    requires c < |sections| && sections[c].size > 0
    requires forall i: nat | i < c :: sections[i].size > 0 && Disjoint(sections[i], sections[c])
    ensures (forall a: nat, i: nat | i < c && Contains(sections[c], a) :: !Matches(sections[i], a))
            <==> forall i: nat | i < c :: !Touches(sections[i], sections[c])
  {
    var s := sections[c];
    if i: nat :| i < c && Touches(sections[i], s) {
      var a := if s.virtualStart == sections[i].virtualStart + sections[i].size then s.virtualStart
               else s.virtualStart + s.size - 1;
      assert Contains(s, a) && Matches(sections[i], a);
    }
  }

  predicate Disjoint(s: Section, t: Section) {
    s.virtualStart + s.size <= t.virtualStart || t.virtualStart + t.size <= s.virtualStart
  }

  predicate Touches(s: Section, t: Section) {
    s.virtualStart + s.size == t.virtualStart || t.virtualStart + t.size == s.virtualStart
  }

  /**
  hypervisor_ept_page_fault_handler: a write to a present page that matches a read-only section replaces
  the section and takes it off the list; every other fault fails and changes nothing.
  */
  method HandlePageFault(vm: Vm, present: bool, write: bool, address: nat)
    returns (ok: bool, ghost s: Option<Section>, ghost first: nat)
    requires vm.Valid() && CR3_PAGE in vm.v.ept
    requires forall t | t in vm.readOnly && Matches(t, address) :: Replaceable(vm.mem, vm.v, t)
    modifies vm
    ensures vm.Valid() && DataKept(old(vm.mem), old(vm.v), vm.mem, vm.v)
    ensures s.None? ==> !ok && vm.mem == old(vm.mem) && vm.v == old(vm.v) && vm.readOnly == old(vm.readOnly)
    ensures vm.starved == (old(vm.starved) || (s.Some? && !ok))
    ensures s.None? <==> !(present && write && exists t | t in old(vm.readOnly) :: Matches(t, address))
    ensures s.Some? ==> exists k: nat | k < |old(vm.readOnly)| ::
              && old(vm.readOnly)[k] == s.value && Matches(s.value, address)
              && vm.readOnly == old(vm.readOnly)[..k] + old(vm.readOnly)[k + 1..]
              && forall i: nat | i < k :: !Matches(old(vm.readOnly)[i], address)
    ensures ok ==> s.Some? && Replaced(old(vm.mem), old(vm.v), vm.mem, vm.v, s.value, first)
    ensures ok ==> CopyOpen(vm.mem, vm.base, s.value, first)
    ensures s.Some? && !ok ==> exists i: nat :: Interrupted(old(vm.v), vm.v, s.value, first, i)
    ensures CR3_PAGE in vm.v.ept
  {
    hide Inv;
    hide DataKept;
    hide Replaceable;
    hide Replaced;
    hide Interrupted;
    hide CopyOpen;
    DataKeptRefl(vm.mem, vm.v);
    s, first := None, 0;
    if !(present && write) {
      return false, None, 0;
    }
    var k := FindSection(vm.readOnly, address);
    if k.None? {
      return false, None, 0;
    }
    var section := vm.readOnly[k.value];
    s := Some(section);
    vm.readOnly := vm.readOnly[..k.value] + vm.readOnly[k.value + 1..];
    ok, first := CopyOnWrite(vm, section);
  }

  // ---- What the guest sees ----

  /**
  After a handled fault, a guest-virtual page that reached a frame reaches the same one, unless its
  guest-physical page is one of the section's; then it reaches the private copy at the same place.
  */
  lemma CopyOnWriteReach(mem: Memory, v: View, mem': Memory, v': View, s: Section, first: nat, p: nat)
    requires Replaceable(mem, v, s) && Replaced(mem, v, mem', v', s, first) && Reaches(v, p).Some?
    ensures p in v'.guest && v'.guest[p].addr == v.guest[p].addr
    ensures var g, pp := v.guest[p].addr, FirstFrame(s);
            Reaches(v', p) == Some(if InRun(g, pp, PageCount(s)) then g - pp + first else v.ept[g].addr)
    ensures Reaches(v', p) == Reaches(v, p) <==> !InRun(v.guest[p].addr, FirstFrame(s), PageCount(s))
    ensures InRun(p, FirstPage(s), PageCount(s)) ==> v'.guest[p].w && Reaches(v', p) == Some(p - FirstPage(s) + first)
    ensures !InRun(p, FirstPage(s), PageCount(s)) ==> v'.guest[p] == v.guest[p]
  {
    hide DataKept;
    hide SameByte;
    assert Get(v'.guest, p) == Pasted(v.guest, FirstPage(s), FirstFrame(s), PageCount(s), p);
  }

  /** The frames that accesses reach after a handled fault, by the flat maps. */
  lemma AllowedAfter(mem: Memory, v: View, mem': Memory, v': View, s: Section, first: nat, p: nat, k: Kind)
    requires Replaceable(mem, v, s) && Replaced(mem, v, mem', v', s, first) && (p in v.guest ==> v.guest[p].r)
    ensures InRun(p, FirstPage(s), PageCount(s)) ==>
              && Allowed(v', p, k) == (if k == Fetch then None else Some(p - FirstPage(s) + first))
              && p in v.guest && (Allowed(v, p, Write).None? <==> !v.guest[p].w)
    ensures !InRun(p, FirstPage(s), PageCount(s)) && Allowed(v, p, k).Some? ==>
              var g, pp := v.guest[p].addr, FirstFrame(s);
              Allowed(v', p, k) == if InRun(g, pp, PageCount(s)) then Some(g - pp + first) else Allowed(v, p, k)
  {
    if InRun(p, FirstPage(s), PageCount(s)) {
      SectionReached(mem, v, s, p);
    }
    assert Get(v'.guest, p) == Pasted(v.guest, FirstPage(s), FirstFrame(s), PageCount(s), p);
    hide Replaceable;
    hide Replaced;
    if Reaches(v, p).Some? {
      CopyOnWriteReach(mem, v, mem', v', s, first, p);
    }
  }

  lemma SectionReached(mem: Memory, v: View, s: Section, p: nat)
    requires Replaceable(mem, v, s) && InRun(p, FirstPage(s), PageCount(s))
    ensures p in v.guest && Reaches(v, p).Some?
  {
  }

  /**
  What the processor does after a handled fault, through both layers of tables and all their levels. A read or a write
  of a section's page reaches the private copy, a fetch faults; a write faulted before if and only if the page was
  read-only. An access to another page that reached a frame reaches the same one, unless its guest-physical page is one
  of the section's.
  */
  lemma CopyOnWriteAccess(mem: Memory, base: nat, recorded: set<nat>, v: View, next: nat, released: seq<nat>,
                          window: nat, mem': Memory, recorded': set<nat>, v': View, next': nat, released': seq<nat>,
                          s: Section, first: nat, p: nat, k: Kind)
    requires Inv(mem, base, recorded, v, next, released, window) && p < PAGES
    requires Inv(mem', base, recorded', v', next', released', window)
    requires Replaceable(mem, v, s) && Replaced(mem, v, mem', v', s, first)
    ensures InRun(p, FirstPage(s), PageCount(s)) ==>
              && GuestAccess(mem', base, p, k) == (if k == Fetch then None else Some(p - FirstPage(s) + first))
              && p in v.guest && (GuestAccess(mem, base, p, Write).None? <==> !v.guest[p].w)
    ensures !InRun(p, FirstPage(s), PageCount(s)) && p in v.guest && GuestAccess(mem, base, p, k).Some? ==>
              var g, pp := v.guest[p].addr, FirstFrame(s);
              GuestAccess(mem', base, p, k) ==
              if InRun(g, pp, PageCount(s)) then Some(g - pp + first) else GuestAccess(mem, base, p, k)
  {
    hide Inv;
    hide GuestAccess;
    hide Replaceable;
    hide Replaced;
    hide Allowed;
    GuestAccessIs(mem, base, recorded, v, next, released, window, p, k);
    GuestAccessIs(mem, base, recorded, v, next, released, window, p, Write);
    GuestAccessIs(mem', base, recorded', v', next', released', window, p, k);
    if p in v.guest {
      LeafPresent(mem, base, recorded, v, next, released, window, p);
    }
    AllowedAfter(mem, v, mem', v', s, first, p, k);
  }

  lemma SectionAccess(mem: Memory, base: nat, recorded: set<nat>, v: View, next: nat, released: seq<nat>, window: nat,
                      mem': Memory, recorded': set<nat>, v': View, next': nat, released': seq<nat>, s: Section,
                      first: nat)
    requires Inv(mem, base, recorded, v, next, released, window)
    requires Inv(mem', base, recorded', v', next', released', window)
    requires Replaceable(mem, v, s) && Replaced(mem, v, mem', v', s, first)
    ensures CopyOpen(mem', base, s, first)
  {
    hide Inv;
    hide GuestAccess;
    hide Replaced;
    forall p: nat, k: Kind | InRun(p, FirstPage(s), PageCount(s)) && k != Fetch
      ensures GuestAccess(mem', base, p, k) == Some(p - FirstPage(s) + first)
    {
      CopyOnWriteAccess(mem, base, recorded, v, next, released, window, mem', recorded', v', next', released', s, first,
                        p, k);
    }
  }

  /** A virtual machine with a data frame at its own guest-physical page, and nothing mapped by the guest yet. */
  method OneFrame(mem0: Memory, root: nat, window: nat, x: nat) returns (vm: Vm, ok: bool)
    requires (forall f | f in mem0 :: f < PAGES) && root !in mem0 && root < PAGES && CR3_PAGE < window <= PAGES
    requires x in mem0 && window <= x
    ensures fresh(vm) && vm.starved == !ok && vm.Valid() && vm.nextPage == CR3_PAGE && vm.window == window
            && vm.v.guest == map[]
    ensures ok ==> CR3_PAGE in vm.v.ept && x in vm.v.ept && vm.v.ept[x].addr == x && x in vm.mem && x !in vm.v.role
  {
    vm := new Vm(mem0, root, window);
    ghost var mem1, v1 := vm.mem, vm.v;
    hide Inv;
    var f;
    ok, f := vm.RootTable();
    if !ok { return; }
    FrameStays(mem1, v1, CR3_PAGE, vm.mem, vm.v, x);
    ghost var mem2, v2, frames2 := vm.mem, vm.v, vm.eptFrames;
    MayMap(vm.mem, vm.base, vm.eptFrames, vm.v, vm.nextPage, vm.released, vm.window, x);
    ok := vm.AddEptPage(x, x, true);
    InvMapped(mem2, vm.base, frames2, v2, vm.nextPage, vm.released, vm.window, vm.mem, vm.eptFrames, vm.v, x);
    FrameStaysEpt(mem2, v2, vm.mem, vm.v, x);
  }

  /** Growth leaves a data frame, and does not map it. */
  lemma FrameStays(mem: Memory, v: View, next: nat, mem': Memory, v': View, x: nat)
    requires Grew(mem, v, next, mem', v', next) && x in mem && x !in v.role && x != CR3_PAGE && x !in v.ept
    ensures x in mem' && x !in v'.role && x !in v'.ept
  {
  }

  lemma FrameStaysEpt(mem: Memory, v: View, mem': Memory, v': View, x: nat)
    requires OnlyEpt(mem, v, mem', v') && x in mem && x !in v.role
    ensures x in mem' && x !in v'.role && v'.guest == v.guest
  {
  }

  /** A data frame past the window can be mapped at its own number. */
  lemma MayMap(mem: Memory, base: nat, recorded: set<nat>, v: View, next: nat, released: seq<nat>, window: nat, x: nat)
    requires Inv(mem, base, recorded, v, next, released, window) && x in mem && x !in v.role && x !in v.ept
             && window <= x
    ensures EptInv(mem, base, recorded, v)
    ensures Free(v, next, released, window, x) && LeafOk(mem, v.role, x)
  {
  }

  /** The same with two guest-virtual pages mapped to that guest-physical page, read-only. */
  method TwoPages(mem0: Memory, root: nat, window: nat, x: nat, p: nat, q: nat) returns (vm: Vm, ok: bool)
    requires (forall f | f in mem0 :: f < PAGES) && root !in mem0 && root < PAGES && CR3_PAGE + 6 < window <= PAGES
    requires x in mem0 && window <= x && p < PAGES && q < PAGES && p != q
    ensures fresh(vm) && vm.starved == !ok && vm.Valid()
    ensures ok ==> CR3_PAGE in vm.v.ept && x in vm.v.ept && vm.v.ept[x].addr == x && x in vm.mem && x !in vm.v.role
    ensures ok ==> p in vm.v.guest && vm.v.guest[p].addr == x && q in vm.v.guest && vm.v.guest[q].addr == x
  {
    hide Inv;
    hide Grew;
    hide Missing;
    hide Joined;
    hide Spent;
    vm, ok := OneFrame(mem0, root, window, x);
    if !ok { return; }
    ghost var mem1, v1 := vm.mem, vm.v;
    FewMissing(v1.guestNodes, p);
    ok := vm.PagingAddPage(x, p, true, true);
    if !ok { return; }
    MappedStays(mem1, v1, CR3_PAGE, vm.mem, vm.v, vm.nextPage, x);
    ghost var mem2, v2, next2 := vm.mem, vm.v, vm.nextPage;
    FewMissing(v2.guestNodes, q);
    ok := vm.PagingAddPage(x, q, true, true);
    if !ok { return; }
    MappedStays(mem2, v2, next2, vm.mem, vm.v, vm.nextPage, x);
  }

  /**
  The exception is real. In a virtual machine with two guest-virtual pages p and q mapped to one guest-physical page,
  of which p alone is a read-only section, a write to p that is handled moves q to the private copy too.
  */
  method AliasMoves(mem0: Memory, root: nat, window: nat, x: nat, p: nat, q: nat)
    returns (vm: Vm, ok: bool, ghost before: View)
    requires (forall f | f in mem0 :: f < PAGES) && root !in mem0 && root < PAGES && CR3_PAGE + 6 < window <= PAGES
    requires x in mem0 && window <= x && p < PAGES && q < PAGES && p != q
    ensures fresh(vm) && vm.starved == !ok && vm.Valid()
    ensures ok ==> Reaches(before, q) == Some(x) && Reaches(vm.v, q).Some? && Reaches(vm.v, q) != Some(x)
  {
    hide Inv;
    hide Replaceable;
    hide Replaced;
    hide DataKept;
    hide Interrupted;
    vm, ok := TwoPages(mem0, root, window, x, p, q);
    before := vm.v;
    if !ok { return; }
    var section := Section(p * 0x1000, x * 0x1000, 0x1000);
    vm.readOnly := [section];
    OnePage(vm.mem, vm.v, section, p, x);
    ghost var mem3 := vm.mem;
    ghost var s, first;
    ok, s, first := HandlePageFault(vm, true, true, p * 0x1000);
    if ok {
      CopyOnWriteReach(mem3, before, vm.mem, vm.v, section, first, q);
    }
  }

  /** Growth leaves a data frame that is mapped. */
  lemma MappedStays(mem: Memory, v: View, next: nat, mem': Memory, v': View, next': nat, x: nat)
    requires Grew(mem, v, next, mem', v', next') && x in mem && x !in v.role && x in v.ept && CR3_PAGE in v.ept
    ensures x in mem' && x !in v'.role && x in v'.ept && v'.ept[x] == v.ept[x] && CR3_PAGE in v'.ept
  {
  }

  /** A section of one page. */
  lemma OnePage(mem: Memory, v: View, s: Section, p: nat, x: nat)
    requires s == Section(p * 0x1000, x * 0x1000, 0x1000) && p < PAGES && x < PAGES
    requires p in v.guest && v.guest[p].addr == x && x in v.ept && v.ept[x].addr == x && x in mem && x !in v.role
    ensures Replaceable(mem, v, s) && FirstPage(s) == p && FirstFrame(s) == x && PageCount(s) == 1
  {
  }
}
