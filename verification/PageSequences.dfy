/** Whole sequences of page-table operations, against the flat maps they amount to. */
module PageSequences {
  import opened Options
  import opened Radix
  import opened Translation
  import opened VmInvariant
  import opened NestedPaging

  /** An operation on the guest's page tables. */
  datatype GuestOp = AddPage(g: nat, p: nat, readonly: bool, noexec: bool) | DelPage(g: nat, p: nat)

  predicate OpOk(op: GuestOp) {
    op.p < PAGES && (op.AddPage? ==> op.g < PAGES)
  }

  /** What an operation does to a flat map from guest-virtual page to entry. */
  function ApplyGuest(m: Leaves, op: GuestOp): (m': Leaves)
    requires OpOk(op)
  {
    match op
    case AddPage(g, p, readonly, noexec) => if p in m then m else m[p := GuestLeaf(g, readonly, noexec)]
    case DelPage(g, p) => if p in m && m[p].addr == g then m - {p} else m
  }

  function ApplyAll(m: Leaves, ops: seq<GuestOp>): (m': Leaves)
    requires forall op | op in ops :: OpOk(op)
  {
    if ops == [] then m else ApplyGuest(ApplyAll(m, ops[..|ops| - 1]), ops[|ops| - 1])
  }

  /** The tables on the paths of the pages of a sequence. */
  function Paths(ops: seq<GuestOp>): (qs: set<Pos>) {
    if ops == [] then {} else Paths(ops[..|ops| - 1]) + Path(ops[|ops| - 1].p)
  }

  lemma {:induction false} PathIn(ops: seq<GuestOp>, i: nat)
    requires i < |ops|
    ensures Path(ops[i].p) <= Paths(ops)
  {
    if i < |ops| - 1 {
      PathIn(ops[..|ops| - 1], i);
    }
  }

  /** All tables belong to a set, and those of the set that are not there yet have page numbers. */
  ghost predicate Budget(all: set<Pos>, nodes: Nodes, released: nat, next: nat, window: nat) {
    nodes.Keys <= all && AtHand(|all|, TableCount(nodes) + released, next, window)
  }

  lemma AddFits(all: set<Pos>, nodes: Nodes, p: nat, r: nat, n: nat, window: nat)
    requires Budget(all, nodes, r, n, window) && Path(p) <= all
    ensures Room(nodes, p, r, n, window)
  {
    MissingCount(nodes, p);
    Smaller(nodes.Keys + Path(p), all);
  }

  /** Adding a page and deleting one keep the budget: numbers go from released to used and back. */
  lemma BudgetAfter(all: set<Pos>, nodes: Nodes, p: nat, r: nat, n: nat, window: nat, nodes': Nodes, r': nat, n': nat)
    requires Budget(all, nodes, r, n, window) && Path(p) <= all
    requires || (Joined(nodes, nodes', Path(p)) && Spent(r, n, r', n', Missing(nodes, p)))
             || (OffPathKept(nodes, nodes', p) && TableCount(nodes') + r' == TableCount(nodes) + r && n' == n)
    ensures Budget(all, nodes', r', n', window)
  {
    MissingCount(nodes, p);
    Smaller(nodes.Keys + Path(p), all);
  }

  /**
  Over every sequence of adds and deletes, however long, the guest's page tables hold the flat map the sequence
  builds; the sequence stops early only when an allocation fails. Page numbers are needed only for the tables that
  the pages of the sequence can have at the same time, because deleting a page releases those of its empty tables.
  */
  method RunGuest(vm: Vm, ops: seq<GuestOp>) returns (n: nat)
    requires vm.Valid() && forall op | op in ops :: OpOk(op)
    requires Budget(vm.v.guestNodes.Keys + Paths(ops), vm.v.guestNodes, |vm.released|, vm.nextPage, vm.window)
    modifies vm
    ensures vm.starved == (old(vm.starved) || n < |ops|)
    ensures vm.Valid() && n <= |ops| && vm.v.guest == ApplyAll(old(vm.v).guest, ops[..n])
    ensures DataKept(old(vm.mem), old(vm.v), vm.mem, vm.v)
            && forall g | g in old(vm.v).ept :: Get(vm.v.ept, g) == Get(old(vm.v).ept, g)
  {
    hide Inv;
    hide DataKept;
    hide Budget;
    hide Path;
    hide Joined;
    hide OffPathKept;
    hide Missing;
    hide TableCount;
    hide Spent;
    hide Room;
    DataKeptRefl(vm.mem, vm.v);
    ghost var all := vm.v.guestNodes.Keys + Paths(ops);
    n := 0;
    while n < |ops|
      invariant vm.starved == old(vm.starved)
      invariant vm.Valid() && n <= |ops| && Budget(all, vm.v.guestNodes, |vm.released|, vm.nextPage, vm.window)
      invariant vm.v.guest == ApplyAll(old(vm.v).guest, ops[..n])
      invariant DataKept(old(vm.mem), old(vm.v), vm.mem, vm.v) && Kept(old(vm.v).ept, vm.v.ept)
    {
      ghost var mem1, v1, free1, next1 := vm.mem, vm.v, |vm.released|, vm.nextPage;
      var ok;
      assert OpOk(ops[n]) by { assert ops[n] in ops; }
      PathIn(ops, n);
      AddFits(all, v1.guestNodes, ops[n].p, free1, next1, vm.window);
      match ops[n] {
        case AddPage(g, p, readonly, noexec) =>
          ok := vm.PagingAddPage(g, p, readonly, noexec);
          assert DataKept(mem1, v1, vm.mem, vm.v) && Kept(v1.ept, vm.v.ept);
        case DelPage(g, p) =>
          ok := vm.PagingDelPage(g, p);
      }
      DataKeptTwice(old(vm.mem), old(vm.v), mem1, v1, vm.mem, vm.v);
      if !ok {
        return;
      }
      BudgetAfter(all, v1.guestNodes, ops[n].p, free1, next1, vm.window, vm.v.guestNodes, |vm.released|, vm.nextPage);
      assert ops[..n + 1][..n] == ops[..n];
      n := n + 1;
    }
  }

  /** An operation on the extended page tables. */
  datatype EptOp = AddEpt(h: nat, g: nat, wb: bool) | DelEpt(h: nat, g: nat)

  /** What an operation does to a flat map from guest-physical page to host frame. */
  function ApplyEpt(m: map<nat, nat>, op: EptOp): (m': map<nat, nat>) {
    match op
    case AddEpt(h, g, _) => m[g := h]
    case DelEpt(h, g) => if g in m && m[g] == h then m - {g} else m
  }

  function ApplyEpts(m: map<nat, nat>, ops: seq<EptOp>): (m': map<nat, nat>) {
    if ops == [] then m else ApplyEpt(ApplyEpts(m, ops[..|ops| - 1]), ops[|ops| - 1])
  }

  /** The frames the pages lead to. */
  function Frames(e: Leaves): (m: map<nat, nat>) {
    map g | g in e :: e[g].addr
  }

  /** The host address of a guest-physical one, by the flat map. */
  function Flat(m: map<nat, nat>, gpa: nat): (hpa: Option<nat>) {
    if gpa / 0x1000 in m then Some(m[gpa / 0x1000] * 0x1000 + gpa % 0x1000) else None
  }

  /** One operation. */
  method StepEpt(vm: Vm, op: EptOp) returns (ok: bool)
    requires vm.EptValid() && op.g < PAGES && (op.AddEpt? ==> op.h in vm.mem && op.h !in vm.v.role)
    modifies vm`mem, vm`starved, vm`eptFrames, vm`v
    ensures vm.starved == (old(vm.starved) || !ok)
    ensures vm.EptValid()
            && Frames(vm.v.ept) == if ok then ApplyEpt(Frames(old(vm.v).ept), op) else Frames(old(vm.v).ept)
    ensures forall f | f in old(vm.mem) && f !in old(vm.v).role :: f in vm.mem && f !in vm.v.role
  {
    hide EptInv;
    match op {
      case AddEpt(h, g, wb) =>
        ok := vm.AddEptPage(h, g, wb);
      case DelEpt(h, g) =>
        vm.DelEptPage(h, g);
        ok := true;
    }
  }

  /**
  Over every sequence of adds and deletes, hypervisor_ept_guest_to_host is the flat map the sequence builds,
  with the offset kept; the sequence stops early only when an allocation fails, without effect.
  */
  method RunEpt(vm: Vm, ops: seq<EptOp>) returns (n: nat)
    requires vm.EptValid()
             && forall op | op in ops :: op.g < PAGES && (op.AddEpt? ==> op.h in vm.mem && op.h !in vm.v.role)
    modifies vm`mem, vm`starved, vm`eptFrames, vm`v
    ensures vm.EptValid() && n <= |ops| && vm.starved == (old(vm.starved) || n < |ops|)
    ensures var m := ApplyEpts(Frames(old(vm.v).ept), ops[..n]);
            forall gpa: nat | gpa < 0x1_0000_0000_0000 ::
              GuestToHost(vm.mem, vm.base, gpa) == Flat(m, gpa)
  {
    hide EptInv;
    hide ApplyEpt;
    hide Frames;
    hide GuestToHost;
    n := 0;
    while n < |ops|
      invariant vm.EptValid() && n <= |ops| && vm.starved == old(vm.starved)
      invariant Frames(vm.v.ept) == ApplyEpts(Frames(old(vm.v).ept), ops[..n])
      invariant forall f | f in old(vm.mem) && f !in old(vm.v).role :: f in vm.mem && f !in vm.v.role
    {
      assert ops[n] in ops && ops[..n + 1][..n] == ops[..n];
      var ok := StepEpt(vm, ops[n]);
      if !ok {
        break;
      }
      n := n + 1;
    }
    forall gpa: nat | gpa < 0x1_0000_0000_0000
      ensures var m := Frames(vm.v.ept);
              GuestToHost(vm.mem, vm.base, gpa) == Flat(m, gpa)
    {
      FlatFrames(vm.mem, vm.base, vm.eptFrames, vm.v, gpa);
    }
  }

  lemma FlatFrames(mem: Memory, base: nat, recorded: set<nat>, v: View, gpa: nat)
    requires EptInv(mem, base, recorded, v) && gpa < 0x1_0000_0000_0000
    ensures var m := Frames(v.ept);
            GuestToHost(mem, base, gpa) == Flat(m, gpa)
  {
    GuestToHostIsFlat(mem, base, recorded, v, gpa);
  }
}
