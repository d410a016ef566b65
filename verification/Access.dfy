/**
What the processor makes of the tables: a guest access walks the guest's page tables, reads each of them through the
extended page tables, and passes both at every level or faults.
*/
module Access {
  import opened Options
  import opened Words
  import opened Radix
  import opened Translation
  import opened VmInvariant

  datatype Kind = Read | Write | Fetch

  /** Whether an entry of the extended page tables lets an access through, in user and supervisor mode. */
  predicate EptLets(w: Word, k: Kind) {
    match k
    case Read => w.r
    case Write => w.r && w.w
    case Fetch => w.r && w.x && w.ux
  }

  /** Whether an entry of the guest's page tables lets an access through, in supervisor mode. */
  predicate GuestLets(w: Word, k: Kind) {
    match k
    case Read => w.r
    case Write => w.r && w.w
    case Fetch => w.r && !w.nx
  }

  /** The host frame that an access to a guest-physical page reaches. */
  function EptAccess(mem: Memory, base: nat, g: nat, k: Kind): (f: Option<nat>) {
    if g >= PAGES then None else
    var e4 := At(mem, base, g / 0x800_0000 % 512);
    if !EptLets(e4, k) || e4.big then None else
    var e3 := At(mem, e4.addr, g / 0x4_0000 % 512);
    if !EptLets(e3, k) then None else
    if e3.big then Some(e3.addr / 0x4_0000 * 0x4_0000 + g % 0x4_0000) else
    var e2 := At(mem, e3.addr, g / 512 % 512);
    if !EptLets(e2, k) then None else
    if e2.big then Some(e2.addr / 512 * 512 + g % 512) else
    var e1 := At(mem, e2.addr, g % 512);
    if !EptLets(e1, k) then None else Some(e1.addr)
  }

  /** The position, at a level, of the table or page on the path of a page. */
  function IdAt(p: nat, l: nat): (id: nat) {
    if l == 0 then p else IdAt(p, l - 1) / 512
  }

  /** How many pages an entry of a level covers. */
  function Covers(l: nat): (n: nat)
    ensures n > 0
  {
    if l <= 1 then 1 else 512 * Covers(l - 1)
  }

  /** The walk of the guest's tables, from the table of a level at a guest-physical page down. */
  function Walk(mem: Memory, base: nat, l: nat, table: nat, p: nat, k: Kind): (f: Option<nat>)
    requires 1 <= l <= 4
    decreases l
  {
    match EptAccess(mem, base, table, Read)
    case None => None
    case Some(t) =>
      var e := At(mem, t, IdAt(p, l - 1) % 512);
      if !GuestLets(e, k) || (l == 4 && e.big) then None
      else if l == 1 then EptAccess(mem, base, e.addr, k)
      else if e.big then EptAccess(mem, base, e.addr / Covers(l) * Covers(l) + p % Covers(l), k)
      else Walk(mem, base, l - 1, e.addr, p, k)
  }

  /** The host frame that a guest access to a guest-virtual page reaches; none stands for a fault or an exit. */
  function GuestAccess(mem: Memory, base: nat, p: nat, k: Kind): (f: Option<nat>) {
    if p >= PAGES then None else Walk(mem, base, 4, CR3_PAGE, p, k)
  }

  /** The host frame a guest-virtual page leads to, by the flat maps. */
  function Reaches(v: View, p: nat): (f: Option<nat>) {
    if p in v.guest && v.guest[p].addr in v.ept then Some(v.ept[v.guest[p].addr].addr) else None
  }

  /** The frame an access reaches, by the flat maps: the leaf decides alone. */
  function Allowed(v: View, p: nat, k: Kind): (f: Option<nat>) {
    if p in v.guest && GuestLets(v.guest[p], k) then Reaches(v, p) else None
  }

  /** A present entry lets every access through, an absent one none. */
  lemma EptStep(mem: Memory, base: nat, recorded: set<nat>, v: View, t: nat, l: nat, id: nat, k: Kind)
    requires l < 4 && EptInv(mem, base, recorded, v) && Get(v.eptNodes, (l + 1, id / 512)) == Some(t)
    ensures EptLets(At(mem, t, id % 512), k) <==> EptPresent(At(mem, t, id % 512))
    ensures l > 0 ==> !At(mem, t, id % 512).big
    ensures l > 0 && EptPresent(At(mem, t, id % 512)) ==>
              Get(v.eptNodes, (l, id)) == Some(At(mem, t, id % 512).addr)
  {
    EptEntry(mem, base, recorded, v, t, l, id);
  }

  lemma NoPagesBeyond(mem: Memory, base: nat, recorded: set<nat>, v: View, g: nat)
    requires EptInv(mem, base, recorded, v) && g >= PAGES
    ensures g !in v.ept
  {
    var r := EptReader(mem);
    PageSplit(g);
    WalkStep(r, base, v.eptNodes, v.ept, 0, g);
    WalkStep(r, base, v.eptNodes, v.ept, 1, g / 512);
    WalkStep(r, base, v.eptNodes, v.ept, 2, g / 0x4_0000);
    WalkStep(r, base, v.eptNodes, v.ept, 3, g / 0x800_0000);
    assert Table(r, base, 4, g / PAGES) == Get(v.eptNodes, (4, g / PAGES));
  }

  /** Every kind of access to a mapped guest-physical page reaches its frame. */
  lemma EptAccessIs(mem: Memory, base: nat, recorded: set<nat>, v: View, g: nat, k: Kind)
    requires EptInv(mem, base, recorded, v)
    ensures EptAccess(mem, base, g, k) == if g in v.ept then Some(v.ept[g].addr) else None
  {
    if g >= PAGES {
      NoPagesBeyond(mem, base, recorded, v, g);
      return;
    }
    EptWalk(mem, base, recorded, v, g);
    EptRoot(mem, base, recorded, v);
    PageSplit(g);
    hide EptInv;
    hide EptLets;
    hide EptPresent;
    EptStep(mem, base, recorded, v, base, 3, g / 0x800_0000, k);
    var e4 := At(mem, base, g / 0x800_0000 % 512);
    if EptPresent(e4) {
      EptStep(mem, base, recorded, v, e4.addr, 2, g / 0x4_0000, k);
      var e3 := At(mem, e4.addr, g / 0x4_0000 % 512);
      if EptPresent(e3) {
        EptStep(mem, base, recorded, v, e3.addr, 1, g / 512, k);
        var e2 := At(mem, e3.addr, g / 512 % 512);
        if EptPresent(e2) {
          EptStep(mem, base, recorded, v, e2.addr, 0, g, k);
        }
      }
    }
  }

  /** Under a table that is not there no page is mapped. */
  lemma {:induction false} NothingUnder(mem: Memory, v: View, l: nat, p: nat)
    requires GuestInv(mem, v) && 1 <= l <= 4 && (l, IdAt(p, l)) !in v.guestNodes
    ensures p !in v.guest
    decreases l
  {
    WalkStep(GuestReader(mem, v.ept), CR3_PAGE, v.guestNodes, v.guest, l - 1, IdAt(p, l - 1));
    if l > 1 {
      NothingUnder(mem, v, l - 1, p);
    }
  }

  /** A leaf of the guest's tables is a present entry. */
  lemma LeafPresent(mem: Memory, base: nat, recorded: set<nat>, v: View, next: nat, released: seq<nat>, window: nat,
                    p: nat)
    requires Inv(mem, base, recorded, v, next, released, window) && p in v.guest
    ensures v.guest[p].r
  {
    WalkStep(GuestReader(mem, v.ept), CR3_PAGE, v.guestNodes, v.guest, 0, p);
  }

  /** An entry above the leaves passes every access, and one of the leaves is the page's. */
  lemma GuestStep(mem: Memory, v: View, f: nat, l: nat, p: nat)
    requires GuestInv(mem, v) && 1 <= l <= 4 && Hosted(v, f, l, IdAt(p, l))
    ensures var e := At(mem, f, IdAt(p, l - 1) % 512);
            && (l == 1 ==> Get(v.guest, p) == if e.r then Some(e) else None)
            && (l > 1 && !e.r ==> p !in v.guest)
            && (l > 1 && e.r ==> Passes(e) && Get(v.guestNodes, (l - 1, IdAt(p, l - 1))) == Some(e.addr))
  {
    var id := IdAt(p, l - 1);
    GuestEntry(mem, v, f, l - 1, id);
    assert GuestTableOk(mem, v.ept, v.role, v.guestNodes[(l, IdAt(p, l))], (l, IdAt(p, l)));
    if l > 1 && !mem[f][id % 512].r {
      NothingUnder(mem, v, l - 1, p);
    }
  }

  lemma {:induction false} WalkIs(mem: Memory, base: nat, recorded: set<nat>, v: View, l: nat, p: nat, k: Kind)
    requires EptInv(mem, base, recorded, v) && GuestInv(mem, v) && CR3_PAGE in v.ept
    requires 1 <= l <= 4 && (l, IdAt(p, l)) in v.guestNodes
    ensures Walk(mem, base, l, v.guestNodes[(l, IdAt(p, l))], p, k) == Allowed(v, p, k)
    decreases l
  {
    hide EptInv;
    hide EptAccess;
    var table := v.guestNodes[(l, IdAt(p, l))];
    TablesMapped(mem, v);
    EptAccessIs(mem, base, recorded, v, table, Read);
    var f := v.ept[table].addr;
    GuestStep(mem, v, f, l, p);
    hide GuestInv;
    var e := At(mem, f, IdAt(p, l - 1) % 512);
    if l == 1 {
      EptAccessIs(mem, base, recorded, v, e.addr, k);
    } else if e.r {
      WalkIs(mem, base, recorded, v, l - 1, p, k);
    }
  }

  lemma RootAt(p: nat)
    requires p < PAGES
    ensures IdAt(p, 4) == 0
  {
    assert IdAt(p, 1) == p / 512 by { assert IdAt(p, 0) == p; }
    assert IdAt(p, 2) == p / 512 / 512;
    assert IdAt(p, 3) == p / 512 / 512 / 512;
    PageSplit(p);
  }

  /**
  The walk of the processor, through both layers and all their levels, is the two flat maps: it reaches a frame exactly
  when the page is mapped, its leaf allows the access, and its guest-physical page is mapped.
  */
  lemma GuestAccessIs(mem: Memory, base: nat, recorded: set<nat>, v: View, next: nat, released: seq<nat>, window: nat,
                      p: nat, k: Kind)
    requires Inv(mem, base, recorded, v, next, released, window) && p < PAGES
    ensures GuestAccess(mem, base, p, k) == Allowed(v, p, k)
  {
    RootIs(mem, base, recorded, v, next, released, window);
    RootAt(p);
    if CR3_PAGE in v.ept {
      WalkIs(mem, base, recorded, v, 4, p, k);
    } else {
      NoTables(mem, v);
      EptAccessIs(mem, base, recorded, v, CR3_PAGE, Read);
    }
  }
}
