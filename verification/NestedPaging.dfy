/**
The page-table code of the hypervisor: the extended page tables, and the guest page tables stored in
guest pages. Addresses are page numbers unless a name says otherwise.
*/
module NestedPaging {
  import opened Options
  import opened Words
  import opened Radix
  import opened Translation
  import opened VmInvariant

  /** A run of frames that nobody uses and whose numbers are not guest pages in use. */
  predicate Unused(mem: Memory, base: nat, window: nat, first: nat, count: nat) {
    && window <= first && first + count <= PAGES
    && forall f: nat | first <= f < first + count :: f !in mem && GuestToHost(mem, base, f * 0x1000).None?
  }

  /** The memory type of an EPT leaf for write-back memory, with ignore-PAT set. */
  const WRITE_BACK: nat := 14

  /** A read-only section of a module: byte addresses and a size in bytes. */
  datatype Section = Section(virtualStart: nat, physicalStart: nat, size: nat)

  /** Page numbers for new tables come from the released ones first: n were used up. */
  predicate Spent(released: nat, next: nat, released': nat, next': nat, n: nat) {
    if n <= released then released' == released - n && next' == next
      else released' == 0 && next' == next + (n - released)
  }

  /** The tables on the path of a page, below the root. */
  function Path(p: nat): (qs: set<Pos>) {
    {(3, p / 0x800_0000), (2, p / 0x4_0000), (1, p / 512)}
  }

  function TableCount(nodes: Nodes): (n: nat) {
    |nodes.Keys|
  }

  /** The tables at these positions are there too. */
  predicate Joined(nodes: Nodes, nodes': Nodes, qs: set<Pos>) {
    nodes'.Keys == nodes.Keys + qs
  }

  function Lacks(nodes: Nodes, q: Pos): (n: nat) {
    if q in nodes then 0 else 1
  }

  /** How many tables the path of a page lacks. */
  function Missing(nodes: Nodes, p: nat): (n: nat) {
    Lacks(nodes, (3, p / 0x800_0000)) + Lacks(nodes, (2, p / 0x4_0000)) + Lacks(nodes, (1, p / 512))
  }

  /** So many page numbers are at hand: released ones, and new ones below the window. */
  predicate AtHand(n: nat, released: nat, next: nat, window: nat) {
    n <= released || next + (n - released) < window
  }

  /** There are page numbers for the tables a page's path lacks. */
  predicate Room(nodes: Nodes, p: nat, released: nat, next: nat, window: nat) {
    AtHand(Missing(nodes, p), released, next, window)
  }

  lemma FirstRoom(nodes: Nodes, p: nat, r: nat, n: nat, window: nat)
    requires Room(nodes, p, r, n, window)
    ensures r > 0 || n + 1 < window || (3, p / 0x800_0000) in nodes
  {
  }

  /** A descent along the path of a page, after its first, its first two and all its steps. */
  lemma Stage3(nodes: Nodes, nodes3: Nodes, p: nat, r: nat, n: nat, r3: nat, n3: nat, window: nat)
    requires Room(nodes, p, r, n, window) && Spent(r, n, r3, n3, Lacks(nodes, (3, p / 0x800_0000)))
    ensures n <= n3 <= n + Missing(nodes, p)
    ensures Joined(nodes, nodes3, {(3, p / 0x800_0000)}) ==> r3 > 0 || n3 + 1 < window || (2, p / 0x4_0000) in nodes3
  {
  }

  lemma Stage2(nodes: Nodes, nodes3: Nodes, nodes2: Nodes, p: nat, r: nat, n: nat, r3: nat, n3: nat, r2: nat, n2: nat,
               window: nat)
    requires Room(nodes, p, r, n, window) && Joined(nodes, nodes3, {(3, p / 0x800_0000)})
    requires Spent(r, n, r3, n3, Lacks(nodes, (3, p / 0x800_0000)))
             && Spent(r3, n3, r2, n2, Lacks(nodes3, (2, p / 0x4_0000)))
    ensures n <= n2 <= n + Missing(nodes, p)
    ensures Joined(nodes3, nodes2, {(2, p / 0x4_0000)}) ==> r2 > 0 || n2 + 1 < window || (1, p / 512) in nodes2
    ensures Spent(r, n, r2, n2, Lacks(nodes, (3, p / 0x800_0000)) + Lacks(nodes, (2, p / 0x4_0000)))
  {
  }

  lemma Stage1(nodes: Nodes, nodes3: Nodes, nodes2: Nodes, nodes1: Nodes, p: nat, r: nat, n: nat, r2: nat, n2: nat,
               r1: nat, n1: nat)
    requires Joined(nodes, nodes3, {(3, p / 0x800_0000)}) && Joined(nodes3, nodes2, {(2, p / 0x4_0000)})
    requires Spent(r, n, r2, n2, Lacks(nodes, (3, p / 0x800_0000)) + Lacks(nodes, (2, p / 0x4_0000)))
    requires Spent(r2, n2, r1, n1, Lacks(nodes2, (1, p / 512)))
    ensures n <= n1 <= n + Missing(nodes, p) && Spent(r, n, r1, n1, Missing(nodes, p))
    ensures Joined(nodes2, nodes1, {(1, p / 512)}) ==> Joined(nodes, nodes1, Path(p))
  {
  }

  lemma OneMore(qs: set<Pos>, q: Pos)
    ensures |qs + {q}| == |qs| + if q in qs then 0 else 1
  {
    assert q in qs ==> qs + {q} == qs;
  }

  lemma OneLess(nodes: Nodes, q: Pos)
    requires q in nodes
    ensures TableCount(nodes - {q}) == TableCount(nodes) - 1
  {
    assert (nodes - {q}).Keys == nodes.Keys - {q};
  }

  lemma MissingCount(nodes: Nodes, p: nat)
    ensures |nodes.Keys + Path(p)| == TableCount(nodes) + Missing(nodes, p)
  {
    var k, q3, q2, q1 := nodes.Keys, (3, p / 0x800_0000), (2, p / 0x4_0000), (1, p / 512);
    OneMore(k, q3);
    OneMore(k + {q3}, q2);
    OneMore(k + {q3} + {q2}, q1);
    assert k + Path(p) == k + {q3} + {q2} + {q1};
  }

  lemma {:induction false} Smaller(a: set<Pos>, b: set<Pos>)
    requires a <= b
    ensures |a| <= |b|
  {
    assert b == a + (b - a);
  }

  /** The frames of the four guest tables on the path of a page. */
  ghost predicate OnPath(v: View, p: nat, f4: nat, f3: nat, f2: nat, f1: nat) {
    && Hosted(v, f4, 4, 0) && Hosted(v, f3, 3, p / 0x800_0000)
    && Hosted(v, f2, 2, p / 0x4_0000) && Hosted(v, f1, 1, p / 512)
  }

  predicate PathPos(q: Pos, p: nat) {
    q == (3, p / 0x800_0000) || q == (2, p / 0x4_0000) || q == (1, p / 512)
  }

  /** Of the tables, only some on the path of a page went. */
  ghost predicate OffPathKept(nodes: Nodes, nodes': Nodes, p: nat) {
    Kept(nodes', nodes) && forall q | q in nodes && q !in nodes' :: PathPos(q, p)
  }

  /** No table below the root on the path of a page is empty. */
  ghost predicate Tidy(mem: Memory, v: View, p: nat) {
    forall q: Pos, c: nat | PathPos(q, p) && Hosted(v, c, q.0, q.1) :: Occupied(mem, c)
  }

  /** A table that links another is not empty. */
  lemma PathOccupied(mem: Memory, base: nat, recorded: set<nat>, v: View, next: nat, released: seq<nat>, window: nat,
                     p: nat)
    requires Inv(mem, base, recorded, v, next, released, window)
    ensures forall f: nat | (1, p / 512) in v.guestNodes && Hosted(v, f, 2, p / 0x4_0000) :: Occupied(mem, f)
    ensures forall f: nat | (2, p / 0x4_0000) in v.guestNodes && Hosted(v, f, 3, p / 0x800_0000) :: Occupied(mem, f)
  {
    PageSplit(p);
    forall f: nat | (1, p / 512) in v.guestNodes && Hosted(v, f, 2, p / 0x4_0000) ensures Occupied(mem, f) {
      GuestEntry(mem, v, f, 1, p / 512);
    }
    forall f: nat | (2, p / 0x4_0000) in v.guestNodes && Hosted(v, f, 3, p / 0x800_0000) ensures Occupied(mem, f) {
      GuestEntry(mem, v, f, 2, p / 0x4_0000);
    }
  }

  /** The tables of a path hold each other's entries. */
  lemma PathDown(v: View, p: nat, f4: nat, f3: nat, f2: nat, f1: nat)
    requires p < PAGES && OnPath(v, p, f4, f3, f2, f1)
    ensures Holder(v, f2, 1, p / 512) && Hosted(v, f1, 1, p / 512) && Path(p) <= v.guestNodes.Keys
  {
    PageSplit(p);
  }

  /** Unlinking a table leaves those above it on the path. */
  lemma PathUp(v: View, p: nat, l: nat, f4: nat, f3: nat, f2: nat, f1: nat)
    requires p < PAGES && 1 <= l <= 2
    requires Hosted(v, f4, 4, 0) && Hosted(v, f3, 3, p / 0x800_0000) && Hosted(v, f2, 2, p / 0x4_0000)
    ensures l == 1 ==> var v' := Unlinked(v, (1, p / 512), f1);
                       && Holder(v', f3, 2, p / 0x4_0000) && Hosted(v', f2, 2, p / 0x4_0000)
                       && Hosted(v', f4, 4, 0) && Hosted(v', f3, 3, p / 0x800_0000)
    ensures l == 2 ==> var v' := Unlinked(v, (2, p / 0x4_0000), f2);
                       Holder(v', f4, 3, p / 0x800_0000) && Hosted(v', f3, 3, p / 0x800_0000)
  {
    PageSplit(p);
  }

  /** From the leaf table up, the tables of a path are unlinked as far as they are empty. */
  ghost predicate Pruned(v0: View, v: View, p: nat, f3: nat, f2: nat, f1: nat) {
    var v1 := Unlinked(v0, (1, p / 512), f1);
    var v2 := Unlinked(v1, (2, p / 0x4_0000), f2);
    v == v0 || v == v1 || v == v2 || v == Unlinked(v2, (3, p / 0x800_0000), f3)
  }

  lemma PathKept(v0: View, v: View, p: nat, f3: nat, f2: nat, f1: nat)
    requires Pruned(v0, v, p, f3, f2, f1)
    ensures OffPathKept(v0.guestNodes, v.guestNodes, p)
  {
  }

  /** What is left of a path whose empty tables are gone is not empty. */
  lemma PathTidy(mem: Memory, base: nat, recorded: set<nat>, v: View, next: nat, released: seq<nat>, window: nat,
                 p: nat, f3: nat, f2: nat, f1: nat)
    requires Inv(mem, base, recorded, v, next, released, window)
    requires (1, p / 512) in v.guestNodes ==> Hosted(v, f1, 1, p / 512) && Occupied(mem, f1)
    requires (1, p / 512) !in v.guestNodes && (2, p / 0x4_0000) in v.guestNodes
             ==> Hosted(v, f2, 2, p / 0x4_0000) && Occupied(mem, f2)
    requires (2, p / 0x4_0000) !in v.guestNodes && (3, p / 0x800_0000) in v.guestNodes
             ==> Hosted(v, f3, 3, p / 0x800_0000) && Occupied(mem, f3)
    ensures Tidy(mem, v, p)
  {
    PathOccupied(mem, base, recorded, v, next, released, window, p);
    hide Inv;
    hide Occupied;
  }

  /** The flat map once a page is deleted: only a page that maps to g goes. */
  function Deleted(guest: Leaves, g: nat, p: nat): (m: Leaves)
    ensures forall q: nat :: Get(m, q) == if q == p && q in guest && guest[q].addr == g then None else Get(guest, q)
  {
    if p in guest && guest[p].addr == g then guest - {p} else guest
  }

  /** The entry hypervisor_ept_paging_add_page writes. */
  function GuestLeaf(g: nat, readonly: bool, noexec: bool): (w: Word)
    requires g < PAGES
    ensures w.r && (w.w <==> !readonly) && (w.nx <==> noexec) && w.addr == g
  {
    ZERO.(r := true, w := !readonly, nx := noexec, addr := g)
  }

  /** How many new tables a run of pages from 0 to j passes into. */
  function Crossings(j: nat): (n: nat) {
    j / 512 + j / 0x4_0000 + j / 0x800_0000
  }

  lemma CrossingsGrow(i: nat, j: nat)
    requires i <= j
    ensures Crossings(i) <= Crossings(j)
  {
    Grows1(i, j);
    Grows2(i, j);
    Grows3(i, j);
  }

  lemma Grows1(i: nat, j: nat)
    requires i <= j
    ensures i / 512 <= j / 512
  {
  }

  lemma Grows2(i: nat, j: nat)
    requires i <= j
    ensures i / 0x4_0000 <= j / 0x4_0000
  {
  }

  lemma Grows3(i: nat, j: nat)
    requires i <= j
    ensures i / 0x800_0000 <= j / 0x800_0000
  {
  }

  /** The page after one whose path is complete lacks only the tables it is the first page of. */
  lemma MissingNext(nodes: Nodes, i: nat)
    requires i > 0 && Missing(nodes, i - 1) == 0
    ensures Missing(nodes, i) + Crossings(i - 1) <= Crossings(i)
  {
    assert (i - 1) / 512 <= i / 512 && (i - 1) / 0x4_0000 <= i / 0x4_0000 && (i - 1) / 0x800_0000 <= i / 0x800_0000;
    LacksNext(nodes, 1, (i - 1) / 512, i / 512);
    LacksNext(nodes, 2, (i - 1) / 0x4_0000, i / 0x4_0000);
    LacksNext(nodes, 3, (i - 1) / 0x800_0000, i / 0x800_0000);
  }

  lemma LacksNext(nodes: Nodes, l: nat, a: nat, b: nat)
    requires a <= b && (l, a) in nodes
    ensures Lacks(nodes, (l, b)) + a <= b
  {
  }

  lemma FewMissing(nodes: Nodes, p: nat)
    ensures Missing(nodes, p) <= 3
  {
  }

  lemma PathFull(nodes: Nodes, nodes': Nodes, p: nat)
    requires Joined(nodes, nodes', Path(p))
    ensures Missing(nodes', p) == 0
  {
  }

  /** A flat map once the pages of the tables, up to end, are mapped to themselves. */
  function SelfMapped(guest: Leaves, end: nat, p: nat): (w: Option<Word>) {
    if CR3_PAGE <= p < end && p < PAGES && p !in guest then Some(GuestLeaf(p, false, true)) else Get(guest, p)
  }

  class Vm {
    const base: nat                 // ept_pml4_base
    const window: nat               // guest pages below it are descriptor and page-table pages; new frames lie above
    var mem: Memory                 // host frames
    var eptFrames: set<nat>         // ept_frames
    var nextPage: nat               // next_page_address
    var released: seq<nat>          // released_pages
    var readOnly: seq<Section>      // read_only_frames
    ghost var v: View
    ghost var starved: bool         // hypervisor_allocate_region has failed

    ghost predicate EptValid()
      reads this
    {
      EptInv(mem, base, eptFrames, v)
    }

    ghost predicate Valid()
      reads this
    {
      Inv(mem, base, eptFrames, v, nextPage, released, window)
    }

    /** hypervisor_ept_setup, up to the allocation of the root table. */
    constructor (mem0: Memory, root: nat, window: nat)
      requires forall f | f in mem0 :: f < PAGES
      requires root !in mem0 && root < PAGES && CR3_PAGE < window <= PAGES
      ensures Valid() && v.ept == map[] && v.guest == map[] && mem == mem0[root := ZeroFrame()] && v.role.Keys == {root}
      ensures eptFrames == {root} && !starved && nextPage == CR3_PAGE && released == []
      ensures this.window == window && this.base == root
    {
      this.base := root;
      this.window := window;
      mem := mem0[root := ZeroFrame()];
      eptFrames := {root};
      nextPage := CR3_PAGE;
      released := [];
      readOnly := [];
      starved := false;
      v := View(map[root := EptTable((4, 0))], map[(4, 0) := root], map[], map[(4, 0) := CR3_PAGE], map[]);
      new;
      EmptyIs(EptReader(mem), base);
      GuestEmpty(mem, v);
    }

    /** hypervisor_allocate_region: a fresh zeroed run of frames, or failure. */
    method AllocateRegion(count: nat) returns (ok: bool, first: nat)
      requires EptValid()
      modifies this`mem, this`starved
      ensures EptValid() && starved == (old(starved) || !ok)
      ensures !ok ==> mem == old(mem)
      ensures ok ==> window <= first && first + count <= PAGES && mem == Grown(old(mem), first, count)
      ensures ok ==> forall f: nat | first <= f < first + count :: f !in old(mem) && f !in v.ept && f !in v.role
    {
      if * {
        starved := true;
        return false, 0;
      }
      if n: nat :| n <= PAGES && Unused(mem, base, window, n, count) {
        forall f: nat | n <= f < n + count ensures f !in v.ept {
          GuestToHostIsFlat(mem, base, eptFrames, v, f * 0x1000);
        }
        mem := Grown(mem, n, count);
        EptUntouched(old(mem), mem, base, eptFrames, eptFrames, v, v);
        return true, n;
      }
      starved := true;
      return false, 0;
    }

    /** One level of hypervisor_ept_add_ept_page: the table behind an entry, allocated when absent. */
    method EptChild(t: nat, i: nat, ghost l: nat, ghost id: nat) returns (ok: bool, c: nat)
      requires EptValid()
      requires 1 <= l <= 3 && i == id % 512 && Get(v.eptNodes, (l + 1, id / 512)) == Some(t)
      modifies this`mem, this`starved, this`eptFrames, this`v
      ensures starved == (old(starved) || !ok)
      ensures EptValid() && OnlyEpt(old(mem), old(v), mem, v) && v.ept == old(v).ept && old(eptFrames) <= eptFrames
      ensures ok ==> Get(v.eptNodes, (l, id)) == Some(c)
    {
      hide EptInv;
      hide OnlyEpt;
      EptEntry(mem, base, eptFrames, v, t, l, id);
      OnlyEptRefl(mem, v);
      if !EptPresent(mem[t][i]) {
        ok, c := AllocateRegion(1);
        if !ok {
          return;
        }
        eptFrames := eptFrames + {c};
        assert mem == old(mem)[c := ZeroFrame()];
        var w: Word := mem[t][i].(r := true, w := true, x := true, ux := true, addr := c);
        EptLink(old(mem), base, old(eptFrames), v, t, c, l, id, w);
        OnlyEptLinked(old(mem), v, t, c, i, w, (l, id));
        mem := Written(mem, t, i, w);
        v := v.(role := v.role[c := EptTable((l, id))], eptNodes := v.eptNodes[(l, id) := c]);
      } else {
        ok, c := true, mem[t][i].addr;
      }
    }

    /** The three table levels of hypervisor_ept_add_ept_page. */
    method EptLeafTable(g: nat) returns (ok: bool, t1: nat)
      requires EptValid() && g < PAGES
      modifies this`mem, this`starved, this`eptFrames, this`v
      ensures starved == (old(starved) || !ok)
      ensures EptValid() && OnlyEpt(old(mem), old(v), mem, v) && v.ept == old(v).ept && old(eptFrames) <= eptFrames
      ensures ok ==> Get(v.eptNodes, (1, g / 512)) == Some(t1)
    {
      hide EptInv;
      hide OnlyEpt;
      PageSplit(g);
      EptRoot(mem, base, eptFrames, v);
      var t3, t2;
      t1 := 0;
      ok, t3 := EptChild(base, g / 0x800_0000 % 512, 3, g / 0x800_0000);
      if !ok { return; }
      ghost var mem1, v1 := mem, v;
      ok, t2 := EptChild(t3, g / 0x4_0000 % 512, 2, g / 0x4_0000);
      OnlyEptTwice(old(mem), old(v), mem1, v1, mem, v);
      if !ok { return; }
      ghost var mem2, v2 := mem, v;
      ok, t1 := EptChild(t2, g / 512 % 512, 1, g / 512);
      OnlyEptTwice(old(mem), old(v), mem2, v2, mem, v);
    }

    /**
    hypervisor_ept_add_ept_page: maps one guest page to a host frame. When an allocation fails at any
    level, no translation has changed.
    */
    method AddEptPage(h: nat, g: nat, wb: bool) returns (ok: bool)
      requires EptValid() && g < PAGES && LeafOk(mem, v.role, h)
      modifies this`mem, this`starved, this`eptFrames, this`v
      ensures starved == (old(starved) || !ok)
      ensures EptValid() && OnlyEpt(old(mem), old(v), mem, v) && old(eptFrames) <= eptFrames
      ensures ok ==> g in v.ept && v.ept == old(v).ept[g := v.ept[g]]
      ensures ok ==> v.ept[g].addr == h && Grants(v.ept[g]) && v.ept[g].kind == 8 + if wb then 6 else 0
      ensures !ok ==> v.ept == old(v).ept
    {
      assert h < PAGES;
      hide EptInv;
      hide OnlyEpt;
      hide LeafOk;
      hide Written;
      var t1;
      ok, t1 := EptLeafTable(g);
      if !ok { return; }
      ghost var mem1, v1 := mem, v;
      LeafStays(old(mem), old(v), mem1, v1, h);
      assert t1 in mem && !mem[t1][g % 512].big by { EptEntry(mem, base, eptFrames, v, t1, 0, g); }
      var i := g % 512;
      var kind := 8 + if wb then 6 else 0;
      var w: Word := mem[t1][i].(r := true, w := true, x := true, ux := true, addr := h, kind := kind);
      LeafWritten(mem, base, eptFrames, v, t1, g, w);
      mem := Written(mem, t1, i, w);
      v := v.(ept := v.ept[g := w]);
      OnlyEptTwice(old(mem), old(v), mem1, v1, mem, v);
    }

    /** hypervisor_ept_del_ept_page: unmaps one guest page, and only when it maps to the named frame. */
    method DelEptPage(h: nat, g: nat)
      requires EptValid() && g < PAGES
      modifies this`mem, this`v
      ensures EptValid() && OnlyEpt(old(mem), old(v), mem, v)
      ensures v == old(v).(ept := if g in old(v).ept && old(v).ept[g].addr == h then old(v).ept - {g} else old(v).ept)
    {
      EptWalk(mem, base, eptFrames, v, g);
      var e4 := At(mem, base, g / 0x800_0000 % 512);
      if !EptPresent(e4) { return; }
      var e3 := At(mem, e4.addr, g / 0x4_0000 % 512);
      if !EptPresent(e3) { return; }
      var e2 := At(mem, e3.addr, g / 512 % 512);
      if !EptPresent(e2) { return; }
      var t1, i := e2.addr, g % 512;
      if EptPresent(mem[t1][i]) && mem[t1][i].addr == h {
        EptStore(mem, base, eptFrames, v, t1, g, ZERO);
        mem := Written(mem, t1, i, ZERO);
        v := v.(ept := v.ept - {g});
      }
    }

    /** hypervisor_ept_guest_to_host_ensured: the frame of a guest page, a new zeroed one when it had none. */
    method Ensured(g: nat) returns (ok: bool, f: nat)
      requires EptValid() && g < PAGES
      modifies this`mem, this`starved, this`eptFrames, this`v
      ensures starved == (old(starved) || !ok)
      ensures EptValid() && OnlyEpt(old(mem), old(v), mem, v) && old(eptFrames) <= eptFrames
      ensures g in old(v).ept ==>
                ok && f == old(v).ept[g].addr && mem == old(mem) && v == old(v) && eptFrames == old(eptFrames)
      ensures !ok ==> v.ept == old(v).ept
      ensures g !in old(v).ept && ok ==>
                && g in v.ept && v.ept == old(v).ept[g := v.ept[g]] && v.ept[g].addr == f && v.ept[g].kind == WRITE_BACK
                && f !in old(mem) && f in mem && mem[f] == ZeroFrame() && f !in v.role
                && window <= f < PAGES && f !in old(v).ept
    {
      GuestToHostIsFlat(mem, base, eptFrames, v, g * 0x1000);
      var h := GuestToHost(mem, base, g * 0x1000);
      if h.Some? {
        return true, h.value / 0x1000;
      }
      ok, f := AllocateRegion(1);
      if !ok { return; }
      EptUntouched(mem, mem, base, eptFrames, eptFrames + {f}, v, v);
      eptFrames := eptFrames + {f};
      ok := AddEptPage(f, g, true);
    }

    /** hypervisor_ept_paging_get_next_page_address. */
    method NextTablePage() returns (g: nat)
      requires Layout(v, nextPage, released, window) && (|released| > 0 || nextPage + 1 < window)
      modifies this`nextPage, this`released
      ensures Layout(v, nextPage, released, window)
      ensures Spare(v, nextPage, released, window, g)
      ensures if old(released) == [] then g == nextPage == old(nextPage) + 1 && released == []
              else [g] + released == old(released) && nextPage == old(nextPage)
      ensures g in v.role || old(nextPage) < g <= nextPage
      ensures Spent(old(|released|), old(nextPage), |released|, nextPage, 1)
    {
      if |released| > 0 {
        assert Get(v.role, released[0]) == Some(Retired);
        g := released[0];
        released := released[1..];
      } else {
        nextPage := nextPage + 1;
        g := nextPage;
      }
    }

    /** The guest's root table, in a new zeroed frame the first time. */
    method RootTable() returns (ok: bool, f: nat)
      requires Valid()
      modifies this`mem, this`starved, this`eptFrames, this`v
      ensures starved == (old(starved) || !ok)
      ensures Valid() && Grew(old(mem), old(v), nextPage, mem, v, nextPage) && v.guest == old(v).guest
      ensures v.guestNodes == old(v).guestNodes
      ensures ok ==> CR3_PAGE in v.ept && Hosted(v, f, 4, 0)
      ensures CR3_PAGE in old(v).ept ==> ok && v == old(v) && mem == old(mem)
    {
      hide Inv;
      hide Grew;
      RootIs(mem, base, eptFrames, v, nextPage, released, window);
      ok, f := Ensured(CR3_PAGE);
      GrewEpt(old(mem), old(v), mem, v, nextPage);
      if CR3_PAGE !in old(v).ept {
        if ok {
          InvRoot(old(mem), base, old(eptFrames), old(v), nextPage, released, window, mem, eptFrames, v, f);
          v := v.(role := v.role[f := GuestTable((4, 0))]);
        } else {
          InvSame(old(mem), base, old(eptFrames), old(v), nextPage, released, window, mem, eptFrames, v);
        }
      }
    }

    /** A spare guest-physical page, backed by a new zeroed frame. */
    method NewGuestPage() returns (ok: bool, g: nat, c: nat)
      requires Valid() && (|released| > 0 || nextPage + 1 < window) && CR3_PAGE in v.ept
      modifies this`mem, this`starved, this`eptFrames, this`v, this`nextPage, this`released
      ensures starved == (old(starved) || !ok)
      ensures Valid() && Spent(old(|released|), old(nextPage), |released|, nextPage, 1)
      ensures v.guest == old(v).guest && v.guestNodes == old(v).guestNodes
      ensures forall f | IsGuestTable(old(v).role, f) && f in old(mem) :: f in mem && mem[f] == old(mem)[f]
      ensures Kept(old(v).ept, v.ept)
      ensures Grew(old(mem), old(v), old(nextPage), mem, v, nextPage)
      ensures ok ==> g < PAGES && g in v.ept && v.ept[g].addr == c && c in mem && mem[c] == ZeroFrame() && c !in v.role
      ensures ok ==> window <= c < PAGES && c !in v.ept && c !in old(mem)
    {
      g := NextTablePage();
      ok, c := Ensured(g);
      InvMapped(old(mem), base, old(eptFrames), old(v), nextPage, released, window, mem, eptFrames, v, g);
    }

    /** Writes the entry that links a new guest table. */
    method LinkTable(f: nat, i: nat, g: nat, c: nat, ghost l: nat, ghost id: nat, ghost mem0: Memory, ghost v0: View,
                     ghost next0: nat)
      requires Valid() && Grew(mem0, v0, next0, mem, v, nextPage)
      requires 1 <= l <= 3 && i == id % 512 && Holder(v, f, l, id) && f in mem && f in v0.role && !mem[f][i].r
      requires g < PAGES && g in v.ept && v.ept[g].addr == c && c in mem && mem[c] == ZeroFrame() && c !in v.role
      requires window <= c < PAGES && c !in v.ept && c !in mem0
      modifies this`mem, this`v
      ensures Valid() && Grew(mem0, v0, next0, mem, v, nextPage) && v.guest == old(v).guest && Hosted(v, c, l, id)
      ensures Joined(old(v).guestNodes, v.guestNodes, {(l, id)})
    {
      hide Inv;
      hide Grew;
      AbsentIsZero(mem, base, eptFrames, v, nextPage, released, window, f, l, id);
      var w: Word := mem[f][i].(r := true, w := true, addr := g);
      InvLink(mem, base, eptFrames, v, nextPage, released, window, f, c, l, id, w);
      GrewLinked(mem0, v0, next0, mem, v, nextPage, f, i, w, (l, id), c);
      mem := Written(mem, f, i, w);
      v := Linked(v, (l, id), g, c);
    }

    /** A new zeroed guest table, linked at an absent entry. */
    method NewGuestTable(f: nat, i: nat, ghost l: nat, ghost id: nat) returns (ok: bool, c: nat)
      requires Valid() && (|released| > 0 || nextPage + 1 < window) && CR3_PAGE in v.ept
      requires 1 <= l <= 3 && i == id % 512 && Holder(v, f, l, id)
      requires f in mem && IsGuestTable(v.role, f) && !mem[f][i].r
      modifies this`mem, this`starved, this`eptFrames, this`v, this`nextPage, this`released
      ensures starved == (old(starved) || !ok)
      ensures Valid() && v.guest == old(v).guest
      ensures Grew(old(mem), old(v), old(nextPage), mem, v, nextPage)
      ensures Spent(old(|released|), old(nextPage), |released|, nextPage, 1)
      ensures ok ==> Hosted(v, c, l, id) && Joined(old(v).guestNodes, v.guestNodes, {(l, id)})
      ensures !ok ==> v.guestNodes == old(v).guestNodes
    {
      hide Inv;
      hide Grew;
      hide OnlyEpt;
      hide Spent;
      var g;
      ok, g, c := NewGuestPage();
      if ok {
        LinkTable(f, i, g, c, l, id, old(mem), old(v), old(nextPage));
      }
    }

    /** One level of hypervisor_ept_paging_add_page: the table behind an entry, on a new page when absent. */
    method GuestChild(f: nat, i: nat, ghost l: nat, ghost id: nat) returns (ok: bool, c: nat)
      requires Valid() && (|released| > 0 || nextPage + 1 < window || (l, id) in v.guestNodes) && CR3_PAGE in v.ept
      requires 1 <= l <= 3 && i == id % 512 && Holder(v, f, l, id)
      modifies this`mem, this`starved, this`eptFrames, this`v, this`nextPage, this`released
      ensures starved == (old(starved) || !ok)
      ensures Valid() && v.guest == old(v).guest
      ensures Grew(old(mem), old(v), old(nextPage), mem, v, nextPage)
      ensures Spent(old(|released|), old(nextPage), |released|, nextPage, Lacks(old(v).guestNodes, (l, id)))
      ensures Kept(old(v).guestNodes, v.guestNodes) && CR3_PAGE in v.ept
      ensures Joined(old(v).guestNodes, v.guestNodes, if ok then {(l, id)} else {})
      ensures ok ==> Hosted(v, c, l, id)
    {
      GuestEntry(mem, v, f, l, id);
      if !mem[f][i].r {
        ok, c := NewGuestTable(f, i, l, id);
      } else {
        ok, c := Ensured(mem[f][i].addr);
        assert mem == old(mem) && v == old(v) && Hosted(v, c, l, id);
        InvSame(old(mem), base, old(eptFrames), old(v), nextPage, released, window, mem, eptFrames, v);
      }
    }

    /** The table levels of hypervisor_ept_paging_add_page: the leaf table of a guest-virtual page. */
    method GuestLeafTable(p: nat) returns (ok: bool, f: nat)
      requires Valid() && p < PAGES && Room(v.guestNodes, p, |released|, nextPage, window)
      modifies this`mem, this`starved, this`eptFrames, this`v, this`nextPage, this`released
      ensures starved == (old(starved) || !ok)
      ensures Valid() && v.guest == old(v).guest
      ensures Grew(old(mem), old(v), old(nextPage), mem, v, nextPage)
      ensures old(nextPage) <= nextPage <= old(nextPage) + Missing(old(v).guestNodes, p)
      ensures ok ==> CR3_PAGE in v.ept && Holder(v, f, 0, p) && Joined(old(v).guestNodes, v.guestNodes, Path(p))
      ensures ok ==> Spent(old(|released|), old(nextPage), |released|, nextPage, Missing(old(v).guestNodes, p))
    {
      hide Grew;
      hide Inv;
      hide Path;
      hide Joined;
      hide Spent;
      hide Missing;
      PageSplit(p);
      ghost var next, free, nodes := nextPage, |released|, v.guestNodes;
      assert free > 0 || next + 1 < window || (3, p / 0x800_0000) in nodes by {
        FirstRoom(nodes, p, free, next, window);
      }
      ok, f := RootTable();
      if !ok { return; }
      ghost var mem4, v4 := mem, v;
      ok, f := GuestChild(f, p / 0x800_0000 % 512, 3, p / 0x800_0000);
      GrewTwice(old(mem), old(v), next, mem4, v4, next, mem, v, nextPage);
      Stage3(nodes, v.guestNodes, p, free, next, |released|, nextPage, window);
      if !ok { return; }
      ghost var mem3, v3, next3, free3 := mem, v, nextPage, |released|;
      ok, f := GuestChild(f, p / 0x4_0000 % 512, 2, p / 0x4_0000);
      GrewTwice(old(mem), old(v), next, mem3, v3, next3, mem, v, nextPage);
      Stage2(nodes, v3.guestNodes, v.guestNodes, p, free, next, free3, next3, |released|, nextPage, window);
      if !ok { return; }
      ghost var mem2, v2, next2, free2 := mem, v, nextPage, |released|;
      ok, f := GuestChild(f, p / 512 % 512, 1, p / 512);
      GrewTwice(old(mem), old(v), next, mem2, v2, next2, mem, v, nextPage);
      Stage1(nodes, v3.guestNodes, v2.guestNodes, v.guestNodes, p, free, next, free2, next2, |released|, nextPage);
    }

    /**
    hypervisor_ept_paging_add_page: maps a guest-virtual page that was not mapped, and leaves a mapped one
    alone. It fails only when an allocation does, and then no translation has changed.
    */
    method PagingAddPage(g: nat, p: nat, readonly: bool, noexec: bool) returns (ok: bool)
      requires Valid() && p < PAGES && g < PAGES && Room(v.guestNodes, p, |released|, nextPage, window)
      modifies this`mem, this`starved, this`eptFrames, this`v, this`nextPage, this`released
      ensures starved == (old(starved) || !ok)
      ensures Valid() && Grew(old(mem), old(v), old(nextPage), mem, v, nextPage)
      ensures old(nextPage) <= nextPage <= old(nextPage) + Missing(old(v).guestNodes, p)
      ensures ok ==> CR3_PAGE in v.ept && Joined(old(v).guestNodes, v.guestNodes, Path(p))
      ensures ok ==> Spent(old(|released|), old(nextPage), |released|, nextPage, Missing(old(v).guestNodes, p))
      ensures v.guest == if ok && p !in old(v).guest then old(v).guest[p := GuestLeaf(g, readonly, noexec)]
              else old(v).guest
      ensures ok && p !in old(v).guest ==>
                && v.guest[p].r && v.guest[p].addr == g
                && (v.guest[p].w <==> !readonly) && (v.guest[p].nx <==> noexec)
    {
      hide Grew;
      hide EptInv;
      hide Layout;
      var f;
      ok, f := GuestLeafTable(p);
      if !ok { return; }
      GuestEntry(mem, v, f, 0, p);
      var i := p % 512;
      if !mem[f][i].r {
        var w: Word := mem[f][i].(r := true, w := !readonly, nx := noexec || mem[f][i].nx, addr := g);
        InvStore(mem, base, eptFrames, v, nextPage, released, window, f, p, w);
        GrewStored(old(mem), old(v), old(nextPage), mem, v, nextPage, f, p, w);
        mem := Written(mem, f, i, w);
        v := v.(guest := v.guest[p := w]);
      }
    }

    /** The guest table behind an entry, if there is one; nothing changes. */
    method GuestStep(f: nat, i: nat, ghost l: nat, ghost id: nat) returns (present: bool, c: nat)
      requires Valid() && 1 <= l <= 3 && i == id % 512 && Holder(v, f, l, id)
      modifies this`mem, this`starved, this`eptFrames, this`v
      ensures starved == old(starved)
      ensures mem == old(mem) && v == old(v) && eptFrames == old(eptFrames)
      ensures if present then Hosted(v, c, l, id) else (l, id) !in v.guestNodes
    {
      GuestEntry(mem, v, f, l, id);
      present, c := mem[f][i].r, 0;
      if present {
        var ok;
        ok, c := Ensured(mem[f][i].addr);
      }
    }

    /** The four tables on the path of a guest-virtual page. */
    method GuestPath(p: nat) returns (ok: bool, found: bool, f4: nat, f3: nat, f2: nat, f1: nat)
      requires Valid() && p < PAGES
      modifies this`mem, this`starved, this`eptFrames, this`v
      ensures starved == (old(starved) || !ok)
      ensures Valid() && Grew(old(mem), old(v), nextPage, mem, v, nextPage)
      ensures v.guest == old(v).guest && v.guestNodes == old(v).guestNodes
      ensures CR3_PAGE in old(v).ept ==> ok && v == old(v) && mem == old(mem)
      ensures ok && found ==> OnPath(v, p, f4, f3, f2, f1)
      ensures ok && !found ==> p !in v.guest && (1, p / 512) !in v.guestNodes
    {
      hide Grew;
      hide Inv;
      f3, f2, f1, found := 0, 0, 0, false;
      PageSplit(p);
      ok, f4 := RootTable();
      if !ok { return; }
      NotThere(this.mem, base, eptFrames, v, nextPage, released, window, p);
      found, f3 := GuestStep(f4, p / 0x800_0000 % 512, 3, p / 0x800_0000);
      if !found { return; }
      found, f2 := GuestStep(f3, p / 0x4_0000 % 512, 2, p / 0x4_0000);
      if !found { return; }
      found, f1 := GuestStep(f2, p / 512 % 512, 1, p / 512);
    }

    /** hypervisor_ept_paging_get_guest_physical, on byte addresses: 0 stands for "not mapped". */
    method GetGuestPhysical(va: nat) returns (ok: bool, gpa: nat)
      requires Valid() && va / 0x1000 < PAGES
      modifies this`mem, this`starved, this`eptFrames, this`v
      ensures starved == (old(starved) || !ok)
      ensures Valid() && Grew(old(mem), old(v), nextPage, mem, v, nextPage) && v.guest == old(v).guest
      ensures ok ==> gpa == if va / 0x1000 in v.guest then v.guest[va / 0x1000].addr * 0x1000 + va % 0x1000 else 0
    {
      hide Grew;
      hide EptInv;
      hide Layout;
      var p := va / 0x1000;
      var found, f4, f3, f2, f1;
      gpa := 0;
      ok, found, f4, f3, f2, f1 := GuestPath(p);
      if ok && found {
        GuestEntry(mem, v, f1, 0, p);
        if mem[f1][p % 512].r {
          gpa := mem[f1][p % 512].addr * 0x1000 + va % 0x1000;
        }
      }
    }

    method IsEmpty(f: nat) returns (empty: bool)
      requires f in mem
      ensures empty <==> forall j: nat | j < 512 :: !mem[f][j].r
    {
      for i := 0 to 512
        invariant forall j: nat | j < i :: !mem[f][j].r
      {
        if mem[f][i].r {
          return false;
        }
      }
      return true;
    }

    /** Clears an empty guest table and the entry that links it, and releases its frame number. */
    method Release(f: nat, i: nat, c: nat, ghost l: nat, ghost id: nat)
      requires Valid() && 1 <= l <= 3 && i == id % 512 && Holder(v, f, l, id) && Hosted(v, c, l, id)
      requires c in mem && forall j: nat | j < 512 :: !mem[c][j].r
      modifies this`mem, this`v, this`released
      ensures Valid() && DataKept(old(mem), old(v), mem, v) && released == old(released) + [c]
      ensures v == Unlinked(old(v), (l, id), c)
    {
      hide EptInv;
      hide Layout;
      InvUnlink(mem, base, eptFrames, v, nextPage, released, window, f, c, l, id);
      GuestEntry(mem, v, c, l - 1, 512 * id);
      assert mem[c] == ZeroFrame();
      mem := mem[c := ZeroFrame()];
      assert mem == old(mem);
      released := released + [c];
      mem := Written(mem, f, i, ZERO);
      v := Unlinked(v, (l, id), c);
    }

    /** Clears the leaf entry of a page when it maps to the named guest-physical page. */
    method ClearLeaf(g: nat, p: nat, f1: nat)
      requires Valid() && Holder(v, f1, 0, p)
      modifies this`mem, this`v
      ensures Valid() && DataKept(old(mem), old(v), mem, v)
      ensures v == old(v).(guest := Deleted(old(v).guest, g, p))
    {
      hide EptInv;
      hide Layout;
      GuestEntry(mem, v, f1, 0, p);
      var i := p % 512;
      if mem[f1][i].r && mem[f1][i].addr == g {
        InvStore(mem, base, eptFrames, v, nextPage, released, window, f1, p, ZERO);
        mem := Written(mem, f1, i, ZERO);
        v := v.(guest := v.guest - {p});
      }
    }

    /** One level of the pruning of hypervisor_ept_paging_del_page. */
    method PruneLevel(f: nat, i: nat, c: nat, ghost l: nat, ghost id: nat) returns (pruned: bool)
      requires Valid() && 1 <= l <= 3 && i == id % 512 && Holder(v, f, l, id) && Hosted(v, c, l, id)
      modifies this`mem, this`v, this`released
      ensures Valid() && DataKept(old(mem), old(v), mem, v)
      ensures v == if pruned then Unlinked(old(v), (l, id), c) else old(v)
      ensures pruned <==> !Occupied(old(mem), c)
      ensures released == if pruned then old(released) + [c] else old(released)
      ensures TableCount(v.guestNodes) + |released| == old(TableCount(v.guestNodes) + |released|)
      ensures pruned || mem == old(mem)
    {
      hide EptInv;
      hide Layout;
      GuestEntry(mem, v, c, l - 1, 512 * id);
      pruned := IsEmpty(c);
      if pruned {
        OneLess(v.guestNodes, (l, id));
        Release(f, i, c, l, id);
      }
    }

    /** Unlinks and releases the tables of a page's path that are empty, from the leaf table up. */
    method Prune(p: nat, f4: nat, f3: nat, f2: nat, f1: nat)
      requires Valid() && p < PAGES && OnPath(v, p, f4, f3, f2, f1)
      modifies this`mem, this`v, this`released
      ensures Valid() && DataKept(old(mem), old(v), mem, v)
      ensures v.ept == old(v).ept && v.guest == old(v).guest
      ensures OffPathKept(old(v).guestNodes, v.guestNodes, p) && Tidy(mem, v, p)
      ensures TableCount(v.guestNodes) + |released| == old(TableCount(v.guestNodes) + |released|)
    {
      hide Inv;
      hide DataKept;
      hide OffPathKept;
      hide Tidy;
      hide TableCount;
      hide Hosted;
      hide Occupied;
      PathDown(v, p, f4, f3, f2, f1);
      ghost var v0 := v;
      var pruned := PruneLevel(f2, p / 512 % 512, f1, 1, p / 512);
      if pruned {
        PathUp(v0, p, 1, f4, f3, f2, f1);
        ghost var mem1, v1 := mem, v;
        pruned := PruneLevel(f3, p / 0x4_0000 % 512, f2, 2, p / 0x4_0000);
        DataKeptTwice(old(mem), v0, mem1, v1, mem, v);
        if pruned {
          PathUp(v1, p, 2, f4, f3, f2, f1);
          ghost var mem2, v2 := mem, v;
          pruned := PruneLevel(f4, p / 0x800_0000 % 512, f3, 3, p / 0x800_0000);
          DataKeptTwice(old(mem), v0, mem2, v2, mem, v);
        }
      }
      PathKept(v0, v, p, f3, f2, f1);
      PathTidy(mem, base, eptFrames, v, nextPage, released, window, p, f3, f2, f1);
    }

    /**
    hypervisor_ept_paging_del_page: unmaps a guest-virtual page when it maps to the named guest-physical
    page, then unlinks the tables of its path that are left empty. No other page's translation changes.
    */
    method PagingDelPage(g: nat, p: nat) returns (ok: bool)
      requires Valid() && p < PAGES
      modifies this`mem, this`starved, this`eptFrames, this`v, this`released
      ensures starved == (old(starved) || !ok)
      ensures Valid() && DataKept(old(mem), old(v), mem, v)
      ensures v.guest == if ok then Deleted(old(v).guest, g, p) else old(v).guest
      ensures CR3_PAGE in old(v).ept ==> ok && v.ept == old(v).ept
      ensures Kept(old(v).ept, v.ept) && OffPathKept(old(v).guestNodes, v.guestNodes, p)
      ensures ok && (1, p / 512) in old(v).guestNodes ==> Tidy(mem, v, p)
      ensures TableCount(v.guestNodes) + |released| == old(TableCount(v.guestNodes) + |released|)
    {
      hide Inv;
      hide DataKept;
      var found, f4, f3, f2, f1;
      ok, found, f4, f3, f2, f1 := GuestPath(p);
      assert DataKept(old(mem), old(v), mem, v) && Kept(old(v).ept, v.ept);
      if ok && found {
        ghost var mem1, v1 := mem, v;
        ClearLeaf(g, p, f1);
        DataKeptTwice(old(mem), old(v), mem1, v1, mem, v);
        ghost var mem2, v2 := mem, v;
        Prune(p, f4, f3, f2, f1);
        DataKeptTwice(old(mem), old(v), mem2, v2, mem, v);
      }
    }

    /**
    The loop of hypervisor_ept_build_tables that maps the page-table pages into the guest. Its bound grows
    while it runs; the loop still ends, having used page numbers only for the tables that the pages mapped so far pass
    into, and three more, and then every page from the root table to the last table page is
    mapped, to itself where the slot was free, and no other page's mapping has changed.
    */
    method MapTables() returns (ok: bool)
      requires Valid() && nextPage + 3 + Crossings(window - 1) < window
      modifies this`mem, this`starved, this`eptFrames, this`v, this`nextPage, this`released
      ensures starved == (old(starved) || !ok)
      ensures Valid() && Grew(old(mem), old(v), old(nextPage), mem, v, nextPage)
      ensures old(nextPage) <= nextPage <= old(nextPage) + 3 + Crossings(nextPage - 1)
      ensures ok ==> forall p: nat :: Get(v.guest, p) == SelfMapped(old(v).guest, nextPage, p)
      ensures ok ==> forall p: nat | CR3_PAGE <= p < nextPage && p !in old(v).guest ::
                p in v.guest && v.guest[p].addr == p && v.guest[p].w && v.guest[p].nx
    {
      hide Inv;
      hide Grew;
      hide Joined;
      hide Path;
      hide Missing;
      hide Spent;
      hide Crossings;
      LayoutOf(mem, base, eptFrames, v, nextPage, released, window);
      GrewNot(mem, v, nextPage);
      var i := CR3_PAGE;
      while i < nextPage
        invariant Valid() && Grew(old(mem), old(v), old(nextPage), mem, v, nextPage)
        invariant CR3_PAGE <= i <= nextPage && old(nextPage) <= nextPage < window && starved == old(starved)
        invariant if i == CR3_PAGE then nextPage == old(nextPage)
                  else Missing(v.guestNodes, i - 1) == 0 && nextPage <= old(nextPage) + 3 + Crossings(i - 1)
        invariant forall p: nat :: Get(v.guest, p) == SelfMapped(old(v).guest, i, p)
        decreases window - i
      {
        CrossingsGrow(i, window - 1);
        LayoutOf(mem, base, eptFrames, v, nextPage, released, window);
        if i > CR3_PAGE {
          MissingNext(v.guestNodes, i);
        }
        ghost var mem1, v1, next1 := mem, v, nextPage;
        FewMissing(v.guestNodes, i);
        ok := PagingAddPage(i, i, false, true);
        if ok {
          PathFull(v1.guestNodes, v.guestNodes, i);
        }
        CrossingsGrow(i, nextPage - 1);
        GrewTwice(old(mem), old(v), old(nextPage), mem1, v1, next1, mem, v, nextPage);
        if !ok { return; }
        forall p: nat ensures Get(v.guest, p) == SelfMapped(old(v).guest, i + 1, p) {
          assert Get(v1.guest, p) == SelfMapped(old(v).guest, i, p);
        }
        i := i + 1;
      }
      ok := true;
      LayoutOf(mem, base, eptFrames, v, nextPage, released, window);
      forall p: nat | CR3_PAGE <= p < nextPage && p !in old(v).guest
        ensures p in v.guest && v.guest[p].addr == p && v.guest[p].w && v.guest[p].nx
      {
        assert Get(v.guest, p) == SelfMapped(old(v).guest, nextPage, p);
      }
    }
  }
}
