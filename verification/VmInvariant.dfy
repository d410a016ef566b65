/**
What the state of a virtual machine's page tables keeps, what may change from one state to a later
one, and the steps of the guest-table code as changes of the whole state.
*/
module VmInvariant {
  import opened Options
  import opened Words
  import opened Radix
  import opened Translation

  /** Memory with a zeroed run of frames added. */
  function Grown(mem: Memory, first: nat, count: nat): (m: Memory)
    ensures forall f: nat | first <= f < first + count :: f in m && m[f] == ZeroFrame()
    ensures forall f | f in mem && !(first <= f < first + count) :: f in m && m[f] == mem[f]
    ensures forall f | f in m :: f in mem || first <= f < first + count
  {
    if count == 0 then mem else Grown(mem, first, count - 1)[first + count - 1 := ZeroFrame()]
  }

  /** The entries of m are still in m'. */
  ghost predicate Kept<K, V>(m: map<K, V>, m': map<K, V>) {
    forall k | k in m :: k in m' && m'[k] == m[k]
  }

  /** Nothing changed but tables of the extended page tables; new ones are in frames not used before. */
  ghost predicate OnlyEpt(mem: Memory, v: View, mem': Memory, v': View) {
    && v'.guestNodes == v.guestNodes && v'.guest == v.guest
    && (forall f | f in mem :: f in mem' && (mem'[f] == mem[f] || IsEptTable(v.role, f)))
    && Kept(v.role, v'.role)
    && (forall f | f in v'.role && f !in v.role :: f !in mem && v'.role[f].EptTable?)
  }

  lemma OnlyEptRefl(mem: Memory, v: View)
    ensures OnlyEpt(mem, v, mem, v)
  {
  }

  lemma OnlyEptWritten(mem: Memory, v: View, t: nat, i: nat, w: Word, e: Leaves)
    requires t in mem && i < 512 && IsEptTable(v.role, t)
    ensures OnlyEpt(mem, v, Written(mem, t, i, w), v.(ept := e))
  {
  }

  lemma OnlyEptLinked(mem: Memory, v: View, t: nat, c: nat, i: nat, w: Word, q: Pos)
    requires t in mem && i < 512 && IsEptTable(v.role, t) && c !in mem && c !in v.role
    ensures OnlyEpt(mem, v, Written(mem[c := ZeroFrame()], t, i, w),
                    v.(role := v.role[c := EptTable(q)], eptNodes := v.eptNodes[q := c]))
  {
  }

  /** A frame that a page may lead to stays one. */
  lemma LeafStays(mem: Memory, v: View, mem': Memory, v': View, h: nat)
    requires LeafOk(mem, v.role, h) && OnlyEpt(mem, v, mem', v')
    ensures LeafOk(mem', v'.role, h)
  {
  }

  /** Writing a leaf of the extended page tables, as a change of the whole state. */
  lemma LeafWritten(mem: Memory, base: nat, recorded: set<nat>, v: View, t: nat, g: nat, w: Word)
    requires EptInv(mem, base, recorded, v) && Get(v.eptNodes, (1, g / 512)) == Some(t)
    requires LeafOk(mem, v.role, w.addr) && Grants(w) && !w.big
    ensures t in mem && EptInv(Written(mem, t, g % 512, w), base, recorded, v.(ept := v.ept[g := w]))
    ensures OnlyEpt(mem, v, Written(mem, t, g % 512, w), v.(ept := v.ept[g := w]))
  {
    EptEntry(mem, base, recorded, v, t, 0, g);
    EptStore(mem, base, recorded, v, t, g, w);
    hide EptInv;
    OnlyEptWritten(mem, v, t, g % 512, w, v.ept[g := w]);
  }

  /** An absent guest entry is an all-zero word. */
  lemma AbsentIsZero(mem: Memory, base: nat, recorded: set<nat>, v: View, next: nat, released: seq<nat>, window: nat,
                     f: nat, l: nat, id: nat)
    requires Inv(mem, base, recorded, v, next, released, window)
    requires l < 4 && Holder(v, f, l, id) && f in mem && !mem[f][id % 512].r
    ensures mem[f][id % 512] == ZERO
  {
    GuestEntry(mem, v, f, l, id);
  }

  lemma OnlyEptTwice(mem: Memory, v: View, mem1: Memory, v1: View, mem2: Memory, v2: View)
    requires OnlyEpt(mem, v, mem1, v1) && OnlyEpt(mem1, v1, mem2, v2)
    ensures OnlyEpt(mem, v, mem2, v2)
  {
  }

  /**
  From one state to a later one, guest-physical pages keep their frames, data frames keep their words
  and stay data frames, guest tables stay linked, and pages that became mapped are page-table pages on
  frames that were not in use.
  */
  ghost predicate Grew(mem: Memory, v: View, next: nat, mem': Memory, v': View, next': nat) {
    && next <= next'
    && Kept(v.ept, v'.ept) && Kept(v.guestNodes, v'.guestNodes)
    && DataKept(mem, v, mem', v')
    && (forall g: nat | g in v'.ept && g !in v.ept :: TablePage(mem, v, next, next', g) && v'.ept[g].addr !in mem)
  }

  /** Data frames keep their words and stay data frames. */
  ghost predicate DataKept(mem: Memory, v: View, mem': Memory, v': View) {
    && (forall f | f in mem :: f in mem' && (mem'[f] == mem[f] || f in v.role))
    && (forall f | f in v.role :: f in v'.role)
    && (forall f | f in v'.role && f !in v.role :: f !in mem)
  }

  lemma DataKeptRefl(mem: Memory, v: View)
    ensures DataKept(mem, v, mem, v)
  {
  }

  lemma DataKeptTwice(mem: Memory, v: View, mem1: Memory, v1: View, mem2: Memory, v2: View)
    requires DataKept(mem, v, mem1, v1) && DataKept(mem1, v1, mem2, v2)
    ensures DataKept(mem, v, mem2, v2)
  {
  }

  /** A guest table with a present entry. */
  ghost predicate Occupied(mem: Memory, f: nat) {
    f in mem && exists j: nat | j < 512 :: mem[f][j].r
  }

  /** A guest-physical page number that was not, and will not be, a data page. */
  ghost predicate TablePage(mem: Memory, v: View, next: nat, next': nat, g: nat) {
    g == CR3_PAGE || g in v.role || g !in mem || next < g <= next'
  }

  /** Mapping the page of the guest's root table, whose frame becomes a guest table. */
  lemma GrewEpt(mem: Memory, v: View, mem': Memory, v': View, next: nat)
    requires OnlyEpt(mem, v, mem', v') && Kept(v.ept, v'.ept)
    requires forall g | g in v'.ept && g !in v.ept :: g == CR3_PAGE && v'.ept[g].addr !in mem
    ensures Grew(mem, v, next, mem', v', next)
    ensures forall f: nat | f !in mem :: Grew(mem, v, next, mem', v'.(role := v'.role[f := GuestTable((4, 0))]), next)
  {
  }

  lemma GrewNot(mem: Memory, v: View, next: nat)
    ensures Grew(mem, v, next, mem, v, next)
  {
  }

  lemma GrewTwice(mem: Memory, v: View, next: nat, mem1: Memory, v1: View, next1: nat, mem2: Memory, v2: View,
                  next2: nat)
    requires Grew(mem, v, next, mem1, v1, next1) && Grew(mem1, v1, next1, mem2, v2, next2)
    ensures Grew(mem, v, next, mem2, v2, next2)
  {
  }

  /**
  The numbers that may be handed out as guest-physical pages of new guest tables are unused: the pages
  after next in the low window, and the released numbers. Released numbers are frame numbers of former
  guest tables; the assumption is that such frame numbers are not guest pages in use.
  */
  ghost predicate Layout(v: View, next: nat, released: seq<nat>, window: nat) {
    && CR3_PAGE <= next < window <= PAGES
    && (forall g: nat | next < g < window :: g !in v.ept)
    && (forall f: nat | IsGuestTable(v.role, f) :: window <= f < PAGES && f !in v.ept)
    && (forall i: nat | i < |released| ::
          window <= released[i] < PAGES && Get(v.role, released[i]) == Some(Retired) && released[i] !in v.ept)
    && (forall i: nat, j: nat | i < j < |released| :: released[i] != released[j])
  }

  /** A guest-physical page that may be mapped without taking a number kept for new tables. */
  ghost predicate Free(v: View, next: nat, released: seq<nat>, window: nat, g: nat) {
    g < PAGES && g !in v.ept && g !in released && !IsGuestTable(v.role, g) && !(next < g < window)
  }

  /** A guest-physical page that may be handed out for a new guest table. */
  ghost predicate Spare(v: View, next: nat, released: seq<nat>, window: nat, g: nat) {
    Free(v, next, released, window, g) && (g in v.role || g < window)
  }

  /** The layout survives the mapping of spare pages and the use of unmapped frame numbers for guest tables. */
  lemma LayoutAfter(v: View, v': View, next: nat, released: seq<nat>, window: nat)
    requires Layout(v, next, released, window)
    requires forall g: nat | g in v'.ept && g !in v.ept :: Free(v, next, released, window, g)
    requires forall f: nat | IsGuestTable(v'.role, f) ::
               IsGuestTable(v.role, f) || (window <= f < PAGES && f !in v'.ept)
    requires forall f: nat | IsGuestTable(v.role, f) && f in v'.ept :: f in v.ept
    requires forall f: nat | Get(v.role, f) == Some(Retired) :: Get(v'.role, f) == Some(Retired)
    ensures Layout(v', next, released, window)
  {
  }

  ghost predicate Inv(mem: Memory, base: nat, recorded: set<nat>, v: View, next: nat, released: seq<nat>, window: nat) {
    EptInv(mem, base, recorded, v) && GuestInv(mem, v) && Layout(v, next, released, window)
  }

  /** The view once a zeroed frame c, reached by guest page g, is linked as the guest table at q. */
  function Linked(v: View, q: Pos, g: nat, c: nat): (v': View) {
    v.(role := v.role[c := GuestTable(q)], guestNodes := v.guestNodes[q := g])
  }

  lemma GrewLinked(mem: Memory, v: View, next: nat, mem1: Memory, v1: View, next1: nat, f: nat, i: nat, w: Word,
                   q: Pos, c: nat)
    requires Grew(mem, v, next, mem1, v1, next1) && f in mem1 && i < 512 && f in v.role && c !in mem
             && q !in v1.guestNodes
    ensures Grew(mem, v, next, Written(mem1, f, i, w), Linked(v1, q, w.addr, c), next1)
  {
  }

  lemma GrewStored(mem: Memory, v: View, next: nat, mem1: Memory, v1: View, next1: nat, f: nat, p: nat, w: Word)
    requires Grew(mem, v, next, mem1, v1, next1) && f in mem1 && GuestInv(mem1, v1) && Holder(v1, f, 0, p)
    ensures Grew(mem, v, next, Written(mem1, f, p % 512, w), v1.(guest := v1.guest[p := w]), next1)
  {
  }

  /** Linking a new guest table. */
  lemma InvLink(mem: Memory, base: nat, recorded: set<nat>, v: View, next: nat, released: seq<nat>, window: nat,
                f: nat, c: nat, l: nat, id: nat, w: Word)
    requires Inv(mem, base, recorded, v, next, released, window)
    requires 1 <= l < 4 && Holder(v, f, l, id) && f in mem && !mem[f][id % 512].r && w.r && Passes(w) && w.addr < PAGES
    requires w.addr in v.ept && v.ept[w.addr].addr == c && c in mem && mem[c] == ZeroFrame() && c !in v.role
    requires window <= c < PAGES && c !in v.ept
    ensures (l, id) !in v.guestNodes
    ensures Inv(Written(mem, f, id % 512, w), base, recorded, Linked(v, (l, id), w.addr, c), next, released, window)
  {
    GuestOneEntry(mem, v, f, l, id, w);
    GuestLink(mem, v, f, c, l, id, w);
    var mem', v' := Written(mem, f, id % 512, w), Linked(v, (l, id), w.addr, c);
    EptUntouched(mem, mem', base, recorded, recorded, v, v');
    LayoutAfter(v, v', next, released, window);
  }

  /** Rewriting a guest leaf. */
  lemma InvStore(mem: Memory, base: nat, recorded: set<nat>, v: View, next: nat, released: seq<nat>, window: nat,
                 f: nat, p: nat, w: Word)
    requires Inv(mem, base, recorded, v, next, released, window)
    requires Holder(v, f, 0, p) && (w.r || w == ZERO)
    ensures f in mem && f in v.role
    ensures Inv(Written(mem, f, p % 512, w), base, recorded,
                v.(guest := if w.r then v.guest[p := w] else v.guest - {p}), next, released, window)
  {
    GuestOneEntry(mem, v, f, 0, p, w);
    GuestStore(mem, v, f, p, w);
    var mem', v' := Written(mem, f, p % 512, w), v.(guest := if w.r then v.guest[p := w] else v.guest - {p});
    EptUntouched(mem, mem', base, recorded, recorded, v, v');
    LayoutAfter(v, v', next, released, window);
  }

  /** The view once the empty guest table at q, in frame c, is unlinked. */
  function Unlinked(v: View, q: Pos, c: nat): (v': View) {
    v.(role := v.role[c := Retired], guestNodes := v.guestNodes - {q})
  }

  /** Unlinking an empty guest table and releasing its frame number. */
  lemma InvUnlink(mem: Memory, base: nat, recorded: set<nat>, v: View, next: nat, released: seq<nat>, window: nat,
                  f: nat, c: nat, l: nat, id: nat)
    requires Inv(mem, base, recorded, v, next, released, window)
    requires 1 <= l < 4 && Holder(v, f, l, id) && Hosted(v, c, l, id)
    requires c in mem && forall j: nat | j < 512 :: !mem[c][j].r
    ensures f in mem && f in v.role && c in v.role
    ensures Inv(Written(mem, f, id % 512, ZERO), base, recorded, Unlinked(v, (l, id), c), next, released + [c], window)
  {
    GuestOneEntry(mem, v, f, l, id, ZERO);
    GuestUnlink(mem, v, f, c, l, id);
    assert GuestTableOk(mem, v.ept, v.role, v.guestNodes[(l, id)], (l, id));
    assert IsGuestTable(v.role, c);
    var mem', v' := Written(mem, f, id % 512, ZERO), Unlinked(v, (l, id), c);
    EptUntouched(mem, mem', base, recorded, recorded, v, v');
    LayoutAfter(v, v', next, released, window);
    forall i: nat | i < |released| ensures released[i] != c {
      assert Get(v.role, released[i]) == Some(Retired);
    }
  }

  /** Mapping a spare guest page to a zeroed frame. */
  lemma InvMapped(mem: Memory, base: nat, recorded: set<nat>, v: View, next: nat, released: seq<nat>, window: nat,
                  mem': Memory, recorded': set<nat>, v': View, g: nat)
    requires Inv(mem, base, recorded, v, next, released, window) && (CR3_PAGE in v.ept || g != CR3_PAGE)
    requires EptInv(mem', base, recorded', v') && OnlyEpt(mem, v, mem', v')
    requires Free(v, next, released, window, g) && (v'.ept == v.ept || (g in v'.ept && v'.ept == v.ept[g := v'.ept[g]]))
    ensures Inv(mem', base, recorded', v', next, released, window)
  {
    if CR3_PAGE in v.ept {
      TablesMapped(mem, v);
      GuestUntouched(mem, mem', v, v');
    } else {
      NoTables(mem, v);
      GuestEmpty(mem', v');
    }
    LayoutAfter(v, v', next, released, window);
  }

  /** Unmapping a guest page that reaches a data frame. */
  lemma InvUnmapped(mem: Memory, base: nat, recorded: set<nat>, v: View, next: nat, released: seq<nat>, window: nat,
                    mem': Memory, v': View, g: nat)
    requires Inv(mem, base, recorded, v, next, released, window) && CR3_PAGE in v.ept
    requires EptInv(mem', base, recorded, v') && OnlyEpt(mem, v, mem', v') && v' == v.(ept := v.ept - {g})
    requires g in v.ept ==> v.ept[g].addr !in v.role
    ensures Inv(mem', base, recorded, v', next, released, window) && CR3_PAGE in v'.ept
  {
    TablesMapped(mem, v);
    WalkStep(GuestReader(mem, v.ept), CR3_PAGE, v.guestNodes, v.guest, 3, 0);
    GuestUntouched(mem, mem', v, v');
  }

  /** Writing data frames, and using new frames for data. */
  lemma InvData(mem: Memory, base: nat, recorded: set<nat>, v: View, next: nat, released: seq<nat>, window: nat,
                mem': Memory, recorded': set<nat>)
    requires Inv(mem, base, recorded, v, next, released, window) && recorded <= recorded'
    requires forall f | f in mem :: f in mem' && (mem'[f] == mem[f] || f !in v.role)
    requires forall f | f in mem' :: f < PAGES
    ensures Inv(mem', base, recorded', v, next, released, window)
  {
    EptUntouched(mem, mem', base, recorded, recorded', v, v);
    GuestUntouched(mem, mem', v, v);
  }

  /** Mapping the page of the guest's root table for the first time. */
  lemma InvRoot(mem: Memory, base: nat, recorded: set<nat>, v: View, next: nat, released: seq<nat>, window: nat,
                mem': Memory, recorded': set<nat>, v': View, f: nat)
    requires Inv(mem, base, recorded, v, next, released, window) && CR3_PAGE !in v.ept
    requires EptInv(mem', base, recorded', v') && OnlyEpt(mem, v, mem', v')
    requires CR3_PAGE in v'.ept && v'.ept == v.ept[CR3_PAGE := v'.ept[CR3_PAGE]] && v'.ept[CR3_PAGE].addr == f
    requires f !in mem && f in mem' && mem'[f] == ZeroFrame() && f !in v'.role && window <= f < PAGES && f !in v.ept
    ensures Inv(mem', base, recorded', v'.(role := v'.role[f := GuestTable((4, 0))]), next, released, window)
  {
    NoTables(mem, v);
    var v2 := v'.(role := v'.role[f := GuestTable((4, 0))]);
    GuestEmpty(mem', v2);
    EptUntouched(mem', mem', base, recorded', recorded', v', v2);
    LayoutAfter(v, v2, next, released, window);
  }

  /** A failed mapping leaves everything as it was. */
  lemma InvSame(mem: Memory, base: nat, recorded: set<nat>, v: View, next: nat, released: seq<nat>, window: nat,
                mem': Memory, recorded': set<nat>, v': View)
    requires Inv(mem, base, recorded, v, next, released, window)
    requires EptInv(mem', base, recorded', v') && OnlyEpt(mem, v, mem', v') && v'.ept == v.ept
    ensures Inv(mem', base, recorded', v', next, released, window)
  {
    GuestUntouched(mem, mem', v, v');
    LayoutAfter(v, v', next, released, window);
  }

  lemma RootIs(mem: Memory, base: nat, recorded: set<nat>, v: View, next: nat, released: seq<nat>, window: nat)
    requires Inv(mem, base, recorded, v, next, released, window)
    ensures EptInv(mem, base, recorded, v) && Get(v.guestNodes, (4, 0)) == Some(CR3_PAGE)
  {
    WalkStep(GuestReader(mem, v.ept), CR3_PAGE, v.guestNodes, v.guest, 3, 0);
  }

  lemma LayoutOf(mem: Memory, base: nat, recorded: set<nat>, v: View, next: nat, released: seq<nat>, window: nat)
    requires Inv(mem, base, recorded, v, next, released, window)
    ensures CR3_PAGE <= next < window <= PAGES
  {
  }

  lemma NoTables(mem: Memory, v: View)
    requires GuestInv(mem, v) && CR3_PAGE !in v.ept
    ensures v.guestNodes == map[(4, 0) := CR3_PAGE] && v.guest == map[]
  {
    EmptyIs(GuestReader(mem, v.ept), CR3_PAGE);
    IsUnique(GuestReader(mem, v.ept), CR3_PAGE, v.guestNodes, v.guest, map[(4, 0) := CR3_PAGE], map[]);
  }

  /** A page below a table that is not there is not mapped. */
  lemma NotThere(mem: Memory, base: nat, recorded: set<nat>, v: View, next: nat, released: seq<nat>, window: nat,
                 p: nat)
    requires Inv(mem, base, recorded, v, next, released, window)
    ensures (1, p / 512) !in v.guestNodes ==> p !in v.guest
    ensures (2, p / 0x4_0000) !in v.guestNodes ==> (1, p / 512) !in v.guestNodes
    ensures (3, p / 0x800_0000) !in v.guestNodes ==> (2, p / 0x4_0000) !in v.guestNodes
  {
    PageSplit(p);
    var r := GuestReader(mem, v.ept);
    WalkStep(r, CR3_PAGE, v.guestNodes, v.guest, 0, p);
    WalkStep(r, CR3_PAGE, v.guestNodes, v.guest, 1, p / 512);
    WalkStep(r, CR3_PAGE, v.guestNodes, v.guest, 2, p / 0x4_0000);
  }
}
