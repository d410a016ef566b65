/**
The two translations the hypervisor keeps in host memory: the extended page tables, from
guest-physical page to host frame, and the guest's own page tables, from guest-virtual page to
guest-physical page, whose tables are guest-physical pages and so are read through the first.
Each is tied to a flat map from page to leaf entry, and each lemma says how one write moves it.
*/
module Translation {
  import opened Options
  import opened Words
  import opened Radix

  /** Addresses are below 2^48, so page and frame numbers are below 2^36. */
  const PAGES: nat := 0x10_0000_0000

  /** VMX_GUEST_CR3_BASE_VALUE, as a page number: the guest-physical page of the guest's root table. */
  const CR3_PAGE: nat := 5

  /** Host memory: the frames in use, by frame number. */
  type Memory = map<nat, Frame>

  function At(mem: Memory, f: nat, i: nat): (w: Word)
    requires i < 512
  {
    if f in mem then mem[f][i] else ZERO
  }

  function Written(mem: Memory, f: nat, i: nat, w: Word): (m: Memory)
    requires f in mem && i < 512
  {
    mem[f := mem[f][i := w]]
  }

  predicate EptPresent(w: Word) {
    w.r || w.w || w.x
  }

  function EptReader(mem: Memory): Reader {
    (f: nat, i: nat) => if i < 512 && EptPresent(At(mem, f, i)) then Some(At(mem, f, i)) else None
  }

  /** Guest tables are guest-physical pages, read through the entries e of the extended page tables. */
  function GuestReader(mem: Memory, e: Leaves): Reader {
    (g: nat, i: nat) => if g in e && i < 512 && At(mem, e[g].addr, i).r then Some(At(mem, e[g].addr, i)) else None
  }

  /** What a frame is used for. Frames without a role hold data. */
  datatype Role = EptTable(q: Pos) | GuestTable(q: Pos) | Retired

  type Roles = map<nat, Role>

  /**
  What the tables amount to: the role of each frame, and the two trees flattened, by position for
  tables and by page for leaf entries (ept: guest-physical page, guest: guest-virtual page).
  */
  datatype View = View(role: Roles, eptNodes: Nodes, ept: Leaves, guestNodes: Nodes, guest: Leaves)

  predicate IsEptTable(role: Roles, f: nat) {
    f in role && role[f].EptTable?
  }

  predicate IsGuestTable(role: Roles, f: nat) {
    f in role && role[f].GuestTable?
  }

  /** An entry of the extended page tables that lets every access through. */
  predicate Grants(w: Word) {
    w.r && w.w && w.x && w.ux
  }

  /** Present entries grant every access, and no entry is for a large page. */
  ghost predicate EptTableOk(mem: Memory, role: Roles, recorded: set<nat>, f: nat, q: Pos) {
    && f in mem && f in role && role[f] == EptTable(q) && f in recorded
    && (forall j: nat | j < 512 && EptPresent(mem[f][j]) :: Grants(mem[f][j]))
    && (forall j: nat | j < 512 :: !mem[f][j].big)
  }

  ghost predicate LeafOk(mem: Memory, role: Roles, f: nat) {
    f in mem && !IsEptTable(role, f)
  }

  /**
  The extended page tables are a tree without sharing: the frame of every linked table knows its
  one position. Every linked table is recorded, and no guest-physical page reaches a table of this tree.
  */
  ghost predicate EptInv(mem: Memory, base: nat, recorded: set<nat>, v: View) {
    && (forall f | f in mem :: f < PAGES)
    && v.role.Keys <= mem.Keys
    && Is(EptReader(mem), base, v.eptNodes, v.ept)
    && (forall q: Pos | q in v.eptNodes :: EptTableOk(mem, v.role, recorded, v.eptNodes[q], q))
    && (forall g: nat | g in v.ept :: LeafOk(mem, v.role, v.ept[g].addr))
  }

  /** Absent guest entries are all-zero words. */
  ghost predicate Clean(frame: Frame) {
    forall j: nat | j < 512 && !frame[j].r :: frame[j] == ZERO
  }

  /** A guest entry that links a table and leaves writing and execution to the leaf. */
  predicate Passes(w: Word) {
    w.w && !w.nx && !w.big
  }

  ghost predicate GuestTableOk(mem: Memory, e: Leaves, role: Roles, g: nat, q: Pos) {
    && g < PAGES
    && (q.0 < 4 ==> g in e)
    && (g in e ==>
          var f := e[g].addr;
          && f in mem && f in role && role[f] == GuestTable(q) && Clean(mem[f])
          && (q.0 > 1 ==> forall j: nat | j < 512 && mem[f][j].r :: Passes(mem[f][j])))
  }

  /** The guest's page tables are a tree without sharing, in frames of their own. */
  ghost predicate GuestInv(mem: Memory, v: View) {
    && Is(GuestReader(mem, v.ept), CR3_PAGE, v.guestNodes, v.guest)
    && (forall q: Pos | q in v.guestNodes :: GuestTableOk(mem, v.ept, v.role, v.guestNodes[q], q))
  }

  /** f is the host frame of the guest table that holds the entry of position (l, id). */
  ghost predicate Holder(v: View, f: nat, l: nat, id: nat) {
    Hosted(v, f, l + 1, id / 512)
  }

  /** f is the host frame of the guest table at position (l, id). */
  ghost predicate Hosted(v: View, f: nat, l: nat, id: nat) {
    (l, id) in v.guestNodes && v.guestNodes[(l, id)] in v.ept && v.ept[v.guestNodes[(l, id)]].addr == f
  }

  // ---- The extended page tables ----

  /** A write of one word of a table, with or without a new zeroed frame, is a one-entry change. */
  lemma EptOneEntry(mem: Memory, mem': Memory, base: nat, recorded: set<nat>, v: View, q: Pos, i: nat)
    requires EptInv(mem, base, recorded, v) && q in v.eptNodes && v.eptNodes[q] in mem'
    requires forall f | f in mem && f != v.eptNodes[q] :: f in mem' && mem'[f] == mem[f]
    requires forall j: nat | j < 512 && j != i :: mem'[v.eptNodes[q]][j] == mem[v.eptNodes[q]][j]
    ensures OneEntry(EptReader(mem), EptReader(mem'), v.eptNodes, q, i)
  {
  }

  /** The word of an entry above the leaves tells whether its position is in the tree, and where. */
  lemma EptEntry(mem: Memory, base: nat, recorded: set<nat>, v: View, t: nat, l: nat, id: nat)
    requires l < 4 && EptInv(mem, base, recorded, v) && Get(v.eptNodes, (l + 1, id / 512)) == Some(t)
    ensures t in mem && IsEptTable(v.role, t) && !mem[t][id % 512].big
    ensures EptPresent(mem[t][id % 512]) ==> Grants(mem[t][id % 512])
    ensures l > 0 && EptPresent(mem[t][id % 512]) ==> Get(v.eptNodes, (l, id)) == Some(mem[t][id % 512].addr)
  {
    assert EptTableOk(mem, v.role, recorded, t, (l + 1, id / 512));
    WalkStep(EptReader(mem), base, v.eptNodes, v.ept, l, id);
  }

  lemma EptRoot(mem: Memory, base: nat, recorded: set<nat>, v: View)
    requires EptInv(mem, base, recorded, v)
    ensures Get(v.eptNodes, (4, 0)) == Some(base)
  {
    WalkStep(EptReader(mem), base, v.eptNodes, v.ept, 3, 0);
  }

  /** Linking a new zeroed table into the extended page tables changes no translation. */
  lemma EptLink(mem: Memory, base: nat, recorded: set<nat>, v: View, t: nat, c: nat, l: nat, id: nat, w: Word)
    requires 1 <= l < 4 && EptInv(mem, base, recorded, v)
    requires Get(v.eptNodes, (l + 1, id / 512)) == Some(t) && t in mem && !EptPresent(mem[t][id % 512])
    requires c !in mem && c < PAGES && Grants(w) && w.addr == c && !w.big
    ensures EptInv(Written(mem[c := ZeroFrame()], t, id % 512, w), base, recorded + {c},
                   v.(role := v.role[c := EptTable((l, id))], eptNodes := v.eptNodes[(l, id) := c]))
  {
    var mem' := Written(mem[c := ZeroFrame()], t, id % 512, w);
    var role', nodes' := v.role[c := EptTable((l, id))], v.eptNodes[(l, id) := c];
    assert EptTableOk(mem, v.role, recorded, t, (l + 1, id / 512));
    EptOneEntry(mem, mem', base, recorded, v, (l + 1, id / 512), id % 512);
    LinkIs(EptReader(mem), EptReader(mem'), base, v.eptNodes, v.ept, l, id, w);
    forall q: Pos | q in nodes' ensures EptTableOk(mem', role', recorded + {c}, nodes'[q], q) {
      if q != (l, id) {
        assert EptTableOk(mem, v.role, recorded, v.eptNodes[q], q);
      }
    }
    forall g: nat | g in v.ept ensures LeafOk(mem', role', v.ept[g].addr) {
      assert LeafOk(mem, v.role, v.ept[g].addr);
    }
  }

  /** Rewriting a leaf of the extended page tables changes the translation of that one page. */
  lemma EptStore(mem: Memory, base: nat, recorded: set<nat>, v: View, t: nat, g: nat, w: Word)
    requires EptInv(mem, base, recorded, v)
    requires Get(v.eptNodes, (1, g / 512)) == Some(t) && t in mem
    requires (EptPresent(w) ==> LeafOk(mem, v.role, w.addr) && Grants(w)) && !w.big
    ensures EptInv(Written(mem, t, g % 512, w), base, recorded,
                   v.(ept := if EptPresent(w) then v.ept[g := w] else v.ept - {g}))
  {
    var mem', e' := Written(mem, t, g % 512, w), if EptPresent(w) then v.ept[g := w] else v.ept - {g};
    EptOneEntry(mem, mem', base, recorded, v, (1, g / 512), g % 512);
    StoreIs(EptReader(mem), EptReader(mem'), base, v.eptNodes, v.ept, g);
    assert EptTableOk(mem, v.role, recorded, t, (1, g / 512));
    forall q: Pos | q in v.eptNodes ensures EptTableOk(mem', v.role, recorded, v.eptNodes[q], q) {
      assert EptTableOk(mem, v.role, recorded, v.eptNodes[q], q);
    }
    forall p: nat | p in e' ensures LeafOk(mem', v.role, e'[p].addr) {
      assert p != g ==> LeafOk(mem, v.role, v.ept[p].addr);
    }
  }

  /** Whatever happens outside its tables leaves this translation alone. */
  lemma EptUntouched(mem: Memory, mem': Memory, base: nat, recorded: set<nat>, recorded': set<nat>, v: View, v': View)
    requires EptInv(mem, base, recorded, v) && recorded <= recorded'
    requires v'.eptNodes == v.eptNodes && v'.ept == v.ept
    requires forall f | f in mem :: f in mem' && (mem'[f] == mem[f] || !IsEptTable(v.role, f))
    requires forall f | f in mem' :: f < PAGES
    requires v'.role.Keys <= mem'.Keys
    requires forall f :: IsEptTable(v'.role, f) <==> IsEptTable(v.role, f)
    requires forall f | IsEptTable(v.role, f) :: Get(v'.role, f) == Some(v.role[f])
    ensures EptInv(mem', base, recorded', v')
  {
    var nodes := v.eptNodes;
    forall q: Pos | q in nodes
      ensures EptTableOk(mem', v'.role, recorded', nodes[q], q)
      ensures forall j: nat | j < 512 :: EptReader(mem')(nodes[q], j) == EptReader(mem)(nodes[q], j)
    {
      assert EptTableOk(mem, v.role, recorded, nodes[q], q);
    }
    SameIs(EptReader(mem), EptReader(mem'), base, nodes, v.ept);
    forall g: nat | g in v.ept ensures LeafOk(mem', v'.role, v.ept[g].addr) {
      assert LeafOk(mem, v.role, v.ept[g].addr);
    }
  }

  lemma PageSplit(g: nat)
    ensures g / 512 / 512 == g / 0x4_0000
    ensures g / 0x4_0000 / 512 == g / 0x800_0000
    ensures g / 0x800_0000 / 512 == g / PAGES
    ensures g < PAGES ==> g / PAGES == 0
  {
  }

  /** The walk of a guest page down to its leaf table and entry. */
  lemma EptWalk(mem: Memory, base: nat, recorded: set<nat>, v: View, g: nat)
    requires EptInv(mem, base, recorded, v) && g < PAGES
    ensures var e4 := At(mem, base, g / 0x800_0000 % 512);
            var e3 := At(mem, e4.addr, g / 0x4_0000 % 512);
            var e2 := At(mem, e3.addr, g / 512 % 512);
            if EptPresent(e4) && EptPresent(e3) && EptPresent(e2) then
              && Get(v.eptNodes, (1, g / 512)) == Some(e2.addr) && e2.addr in mem && IsEptTable(v.role, e2.addr)
                  && !e2.big
              && Get(v.ept, g) == if EptPresent(mem[e2.addr][g % 512]) then Some(mem[e2.addr][g % 512]) else None
            else g !in v.ept && (EptPresent(e4) && EptPresent(e3) ==> !e2.big)
  {
    var r, nodes, e := EptReader(mem), v.eptNodes, v.ept;
    PageSplit(g);
    WalkStep(r, base, nodes, e, 3, g / 0x800_0000);
    WalkStep(r, base, nodes, e, 2, g / 0x4_0000);
    WalkStep(r, base, nodes, e, 1, g / 512);
    WalkStep(r, base, nodes, e, 0, g);
    if (2, g / 0x4_0000) in nodes {
      assert EptTableOk(mem, v.role, recorded, nodes[(2, g / 0x4_0000)], (2, g / 0x4_0000));
    }
    if (1, g / 512) in nodes {
      assert EptTableOk(mem, v.role, recorded, nodes[(1, g / 512)], (1, g / 512));
    }
  }

  /** hypervisor_ept_guest_to_host: the walk as coded, on byte addresses, with its test for 2 MiB pages. */
  function GuestToHost(mem: Memory, base: nat, gpa: nat): (hpa: Option<nat>) {
    var e4 := At(mem, base, gpa / 0x80_0000_0000 % 512);
    if !EptPresent(e4) then None else
    var e3 := At(mem, e4.addr, gpa / 0x4000_0000 % 512);
    if !EptPresent(e3) then None else
    var e2 := At(mem, e3.addr, gpa / 0x20_0000 % 512);
    if e2.big then
      if !EptPresent(e2) then None else Some(e2.addr / 512 * 0x20_0000 + gpa % 0x20_0000)
    else
    if !EptPresent(e2) then None else
    var e1 := At(mem, e2.addr, gpa / 0x1000 % 512);
    if !EptPresent(e1) then None else Some(e1.addr * 0x1000 + gpa % 0x1000)
  }

  /** The walk as coded is the flat map from guest page to host frame, with the offset kept. */
  lemma GuestToHostIsFlat(mem: Memory, base: nat, recorded: set<nat>, v: View, gpa: nat)
    requires EptInv(mem, base, recorded, v) && gpa < 0x1_0000_0000_0000
    ensures var g := gpa / 0x1000;
            GuestToHost(mem, base, gpa) == if g in v.ept then Some(v.ept[g].addr * 0x1000 + gpa % 0x1000) else None
  {
    var g := gpa / 0x1000;
    assert gpa / 0x20_0000 == g / 512 && gpa / 0x4000_0000 == g / 0x4_0000 && gpa / 0x80_0000_0000 == g / 0x800_0000;
    EptWalk(mem, base, recorded, v, g);
  }

  // ---- The guest's page tables ----

  /** Whatever happens outside its tables leaves the guest's translation alone. */
  lemma GuestUntouched(mem: Memory, mem': Memory, v: View, v': View)
    requires GuestInv(mem, v) && v'.guestNodes == v.guestNodes && v'.guest == v.guest
    requires forall f | IsGuestTable(v.role, f) && f in mem ::
               Get(v'.role, f) == Some(v.role[f]) && f in mem' && mem'[f] == mem[f]
    requires forall q: Pos | q in v.guestNodes ::
               var g := v.guestNodes[q];
               (g in v'.ept <==> g in v.ept) && (g in v.ept ==> v'.ept[g].addr == v.ept[g].addr)
    ensures GuestInv(mem', v')
  {
    var nodes := v.guestNodes;
    forall q: Pos | q in nodes
      ensures GuestTableOk(mem', v'.ept, v'.role, nodes[q], q)
      ensures forall j: nat | j < 512 :: GuestReader(mem', v'.ept)(nodes[q], j) == GuestReader(mem, v.ept)(nodes[q], j)
    {
      assert GuestTableOk(mem, v.ept, v.role, nodes[q], q);
    }
    SameIs(GuestReader(mem, v.ept), GuestReader(mem', v'.ept), CR3_PAGE, nodes, v.guest);
  }

  /** Once the root page is mapped, no guest table is on an unmapped page. */
  lemma TablesMapped(mem: Memory, v: View)
    requires GuestInv(mem, v) && CR3_PAGE in v.ept
    ensures forall q: Pos | q in v.guestNodes ::
              v.guestNodes[q] in v.ept && IsGuestTable(v.role, v.ept[v.guestNodes[q]].addr)
  {
    forall q: Pos | q in v.guestNodes
      ensures v.guestNodes[q] in v.ept && IsGuestTable(v.role, v.ept[v.guestNodes[q]].addr)
    {
      assert GuestTableOk(mem, v.ept, v.role, v.guestNodes[q], q);
      if q.0 == 4 {
        assert Table(GuestReader(mem, v.ept), CR3_PAGE, q.0, q.1) == Get(v.guestNodes, (q.0, q.1));
      }
    }
  }

  /** The word of an entry tells whether its position is in the tree, and where. */
  lemma GuestEntry(mem: Memory, v: View, f: nat, l: nat, id: nat)
    requires l < 4 && GuestInv(mem, v) && Holder(v, f, l, id)
    ensures f in mem && Get(v.role, f) == Some(GuestTable((l + 1, id / 512))) && Clean(mem[f])
    ensures l > 0 && mem[f][id % 512].r ==>
              Get(v.guestNodes, (l, id)) == Some(mem[f][id % 512].addr) && mem[f][id % 512].addr in v.ept
                  && mem[f][id % 512].addr < PAGES
    ensures l > 0 && !mem[f][id % 512].r ==> (l, id) !in v.guestNodes
    ensures l == 0 ==> Get(v.guest, id) == if mem[f][id % 512].r then Some(mem[f][id % 512]) else None
  {
    assert GuestTableOk(mem, v.ept, v.role, v.guestNodes[(l + 1, id / 512)], (l + 1, id / 512));
    WalkStep(GuestReader(mem, v.ept), CR3_PAGE, v.guestNodes, v.guest, l, id);
    if l > 0 && (l, id) in v.guestNodes {
      assert GuestTableOk(mem, v.ept, v.role, v.guestNodes[(l, id)], (l, id));
    }
  }

  lemma GuestOneEntry(mem: Memory, v: View, f: nat, l: nat, id: nat, w: Word)
    requires GuestInv(mem, v) && Holder(v, f, l, id)
    ensures f in mem && Get(v.role, f) == Some(GuestTable((l + 1, id / 512))) && Clean(mem[f])
    ensures OneEntry(GuestReader(mem, v.ept), GuestReader(Written(mem, f, id % 512, w), v.ept), v.guestNodes,
                     (l + 1, id / 512), id % 512)
  {
  }

  /** Linking a zeroed page as a new guest table changes no page's translation. */
  lemma GuestLink(mem: Memory, v: View, f: nat, c: nat, l: nat, id: nat, w: Word)
    requires 1 <= l < 4 && GuestInv(mem, v) && Holder(v, f, l, id)
    requires f in mem && !mem[f][id % 512].r && w.r && Passes(w) && w.addr < PAGES
    requires w.addr in v.ept && v.ept[w.addr].addr == c && c in mem && mem[c] == ZeroFrame() && c !in v.role
    ensures (l, id) !in v.guestNodes
    ensures GuestInv(Written(mem, f, id % 512, w),
                     v.(role := v.role[c := GuestTable((l, id))], guestNodes := v.guestNodes[(l, id) := w.addr]))
  {
    GuestOneEntry(mem, v, f, l, id, w);
    var mem' := Written(mem, f, id % 512, w);
    var role', nodes' := v.role[c := GuestTable((l, id))], v.guestNodes[(l, id) := w.addr];
    LinkIs(GuestReader(mem, v.ept), GuestReader(mem', v.ept), CR3_PAGE, v.guestNodes, v.guest, l, id, w);
    forall q: Pos | q in nodes' ensures GuestTableOk(mem', v.ept, role', nodes'[q], q) {
      if q != (l, id) {
        assert GuestTableOk(mem, v.ept, v.role, v.guestNodes[q], q);
      }
    }
  }

  /** Rewriting a guest leaf changes the translation of that one page. */
  lemma GuestStore(mem: Memory, v: View, f: nat, p: nat, w: Word)
    requires GuestInv(mem, v) && Holder(v, f, 0, p) && (w.r || w == ZERO)
    ensures f in mem
    ensures GuestInv(Written(mem, f, p % 512, w), v.(guest := if w.r then v.guest[p := w] else v.guest - {p}))
  {
    GuestOneEntry(mem, v, f, 0, p, w);
    var mem' := Written(mem, f, p % 512, w);
    StoreIs(GuestReader(mem, v.ept), GuestReader(mem', v.ept), CR3_PAGE, v.guestNodes, v.guest, p);
    forall q: Pos | q in v.guestNodes ensures GuestTableOk(mem', v.ept, v.role, v.guestNodes[q], q) {
      assert GuestTableOk(mem, v.ept, v.role, v.guestNodes[q], q);
    }
  }

  /** Unlinking an empty guest table changes no page's translation; its frame is retired. */
  lemma GuestUnlink(mem: Memory, v: View, f: nat, c: nat, l: nat, id: nat)
    requires 1 <= l < 4 && GuestInv(mem, v) && Holder(v, f, l, id) && Hosted(v, c, l, id)
    requires c in mem && forall j: nat | j < 512 :: !mem[c][j].r
    ensures f in mem
    ensures GuestInv(Written(mem, f, id % 512, ZERO),
                     v.(role := v.role[c := Retired], guestNodes := v.guestNodes - {(l, id)}))
  {
    GuestOneEntry(mem, v, f, l, id, ZERO);
    var mem', role', nodes' := Written(mem, f, id % 512, ZERO), v.role[c := Retired], v.guestNodes - {(l, id)};
    assert GuestTableOk(mem, v.ept, v.role, v.guestNodes[(l, id)], (l, id));
    UnlinkIs(GuestReader(mem, v.ept), GuestReader(mem', v.ept), CR3_PAGE, v.guestNodes, v.guest, l, id);
    forall q: Pos | q in nodes' ensures GuestTableOk(mem', v.ept, role', nodes'[q], q) {
      assert GuestTableOk(mem, v.ept, v.role, v.guestNodes[q], q);
    }
  }

  /** While the root page is not mapped, or mapped to a zeroed frame, the guest's translation is empty. */
  lemma GuestEmpty(mem: Memory, v: View)
    requires v.guestNodes == map[(4, 0) := CR3_PAGE] && v.guest == map[]
    requires CR3_PAGE in v.ept ==>
               var f := v.ept[CR3_PAGE].addr;
               f in mem && mem[f] == ZeroFrame() && Get(v.role, f) == Some(GuestTable((4, 0)))
    ensures GuestInv(mem, v)
  {
    EmptyIs(GuestReader(mem, v.ept), CR3_PAGE);
  }
}
