/** The guest-physical memory that a virtual machine starts with. */
module VmSetup {
  import opened Options
  import opened Radix
  import opened Translation
  import opened VmInvariant
  import opened NestedPaging
  import opened PageFault

  const DESCRIPTORS: nat := 5
  const APIC_PAGE: nat := 0xF_EE00

  /** The flat map with count pages more, from page at on, that lead to the frames from first on. */
  ghost predicate WithRun(e: Leaves, e0: Leaves, at: nat, first: nat, count: nat) {
    forall g: nat :: if InRun(g, at, count) then LeadsTo(e, g, first + (g - at)) else Get(e, g) == Get(e0, g)
  }

  /** A page leads to a frame of write-back memory. */
  predicate LeadsTo(e: Leaves, g: nat, f: nat) {
    g in e && e[g].addr == f && e[g].kind == WRITE_BACK
  }

  lemma WithOneMore(e: Leaves, e': Leaves, e0: Leaves, at: nat, first: nat, i: nat)
    requires WithRun(e, e0, at, first, i) && LeadsTo(e', at + i, first + i) && e' == e[at + i := e'[at + i]]
    ensures WithRun(e', e0, at, first, i + 1)
  {
    var n := i + 1;
    forall g: nat
      ensures if InRun(g, at, n) then LeadsTo(e', g, first + (g - at)) else Get(e', g) == Get(e0, g)
    {
      assert if InRun(g, at, i) then LeadsTo(e, g, first + (g - at)) else Get(e, g) == Get(e0, g);
    }
  }

  /** Guest pages that are free for data, and frames to map them to. */
  ghost predicate MayMapRun(mem: Memory, v: View, next: nat, released: seq<nat>, window: nat, at: nat, first: nat,
                            count: nat) {
    && DataRun(mem, v, first, count)
    && forall g: nat | InRun(g, at, count) :: g != CR3_PAGE && Free(v, next, released, window, g)
  }

  /** The rest of a run can still be mapped when one page of it is. */
  lemma MayMapRest(mem: Memory, v: View, mem': Memory, v': View, next: nat, released: seq<nat>, window: nat, at: nat,
                   first: nat, count: nat)
    requires count > 0 && MayMapRun(mem, v, next, released, window, at, first, count) && OnlyEpt(mem, v, mem', v')
    requires at in v'.ept && v'.ept == v.ept[at := v'.ept[at]]
    ensures MayMapRun(mem', v', next, released, window, at + 1, first + 1, count - 1)
  {
    var at', first', n := at + 1, first + 1, count - 1;
    forall g: nat | InRun(g, at', n) ensures g != CR3_PAGE && Free(v', next, released, window, g) {
      assert InRun(g, at, count);
    }
    assert DataRun(mem', v', first', n) by {
      forall f: nat | InRun(f, first', n) ensures f in mem' && f !in v'.role {
        assert InRun(f, first, count);
      }
    }
    assert MayMapRun(mem', v', next, released, window, at', first', n);
  }

  /** A loop of hypervisor_ept_setup: maps a run of guest pages to a run of frames. */
  method MapRun(vm: Vm, at: nat, first: nat, count: nat) returns (ok: bool)
    requires vm.Valid() && MayMapRun(vm.mem, vm.v, vm.nextPage, vm.released, vm.window, at, first, count)
    modifies vm`mem, vm`starved, vm`eptFrames, vm`v
    ensures vm.Valid() && OnlyEpt(old(vm.mem), old(vm.v), vm.mem, vm.v) && vm.starved == (old(vm.starved) || !ok)
    ensures ok ==> WithRun(vm.v.ept, old(vm.v).ept, at, first, count)
  {
    hide GuestInv;
    hide EptInv;
    hide Layout;
    hide OnlyEpt;
    hide WithRun;
    OnlyEptRefl(vm.mem, vm.v);
    assert WithRun(vm.v.ept, vm.v.ept, at, first, 0) by { WithNone(vm.v.ept, at, first); }
    ok := true;
    for i := 0 to count
      invariant ok && vm.Valid() && OnlyEpt(old(vm.mem), old(vm.v), vm.mem, vm.v) && vm.starved == old(vm.starved)
      invariant MayMapRun(vm.mem, vm.v, vm.nextPage, vm.released, vm.window, at + i, first + i, count - i)
      invariant WithRun(vm.v.ept, old(vm.v).ept, at, first, i)
    {
      ghost var mem1, v1, frames1 := vm.mem, vm.v, vm.eptFrames;
      assert InRun(at + i, at + i, count - i) && InRun(first + i, first + i, count - i);
      ok := vm.AddEptPage(first + i, at + i, true);
      InvMapped(mem1, vm.base, frames1, v1, vm.nextPage, vm.released, vm.window, vm.mem, vm.eptFrames, vm.v, at + i);
      OnlyEptTwice(old(vm.mem), old(vm.v), mem1, v1, vm.mem, vm.v);
      if !ok { return; }
      MayMapRest(mem1, v1, vm.mem, vm.v, vm.nextPage, vm.released, vm.window, at + i, first + i, count - i);
      WithOneMore(v1.ept, vm.v.ept, old(vm.v).ept, at, first, i);
    }
  }

  lemma WithNone(e: Leaves, at: nat, first: nat)
    ensures WithRun(e, e, at, first, 0)
  {
  }

  /** A new run of frames for data, which ept_frames records. */
  method NewRun(vm: Vm, count: nat) returns (ok: bool, first: nat)
    requires vm.Valid()
    modifies vm`mem, vm`starved, vm`eptFrames
    ensures vm.Valid() && OnlyEpt(old(vm.mem), vm.v, vm.mem, vm.v) && vm.starved == (old(vm.starved) || !ok)
    ensures ok ==> vm.window <= first && DataRun(vm.mem, vm.v, first, count)
    ensures ok ==> MayMapRun(vm.mem, vm.v, vm.nextPage, vm.released, vm.window, first, first, count)
    ensures ok ==> forall f: nat | InRun(f, first, count) :: f !in old(vm.mem) && f in vm.mem
    ensures ok ==> Run(first, count) <= vm.eptFrames
  {
    ghost var mem1, frames1 := vm.mem, vm.eptFrames;
    ok, first := vm.AllocateRegion(count);
    if ok {
      vm.eptFrames := vm.eptFrames + Run(first, count);
      InvData(mem1, vm.base, frames1, vm.v, vm.nextPage, vm.released, vm.window, vm.mem, vm.eptFrames);
    }
  }

  /** The frame of write-back memory that a guest-physical page leads to. */
  function FrameOf(e: Leaves, g: nat): (f: Option<nat>) {
    if g in e && e[g].kind == WRITE_BACK then Some(e[g].addr) else None
  }

  /** The guest-physical memory of a new machine: descriptors at page 0, heap and stack where their frames are. */
  function Start(d: nat, h: nat, heap: nat, s: nat, stack: nat, apic: Option<nat>, g: nat): (f: Option<nat>) {
    if g < 5 then Some(d + g)
    else if InRun(g, h, heap) || InRun(g, s, stack) then Some(g)
    else if g == 0xF_EE00 then apic
    else None
  }

  lemma StartIs(e0: Leaves, e1: Leaves, e2: Leaves, e3: Leaves, e: Leaves, d: nat, h: nat, heap: nat, s: nat,
                stack: nat, apic: Option<nat>)
    requires e0 == map[] && WithRun(e1, e0, 0, d, DESCRIPTORS) && WithRun(e2, e1, h, h, heap)
             && WithRun(e3, e2, s, s, stack)
    requires DESCRIPTORS <= h && DESCRIPTORS <= s && APIC_PAGE !in e3
    requires if apic.None? then e == e3
             else LeadsTo(e, APIC_PAGE, apic.value) && e == e3[APIC_PAGE := e[APIC_PAGE]]
    ensures forall g: nat :: FrameOf(e, g) == Start(d, h, heap, s, stack, apic, g)
  {
    forall g: nat ensures FrameOf(e, g) == Start(d, h, heap, s, stack, apic, g) {
      assert if InRun(g, s, stack) then LeadsTo(e3, g, s + (g - s)) else Get(e3, g) == Get(e2, g);
      assert if InRun(g, h, heap) then LeadsTo(e2, g, h + (g - h)) else Get(e2, g) == Get(e1, g);
      assert if InRun(g, 0, DESCRIPTORS) then LeadsTo(e1, g, d + (g - 0)) else Get(e1, g) == Get(e0, g);
    }
  }

  /** A page that is no descriptor and whose number was the number of a frame in use is not mapped. */
  lemma ApicFree(mem: Memory, v: View, next: nat, released: seq<nat>, window: nat, e0: Leaves, e1: Leaves, e2: Leaves,
                 d: nat, h: nat, heap: nat, s: nat, stack: nat)
    requires e0 == map[] && WithRun(e1, e0, 0, d, DESCRIPTORS) && WithRun(e2, e1, h, h, heap)
             && WithRun(v.ept, e2, s, s, stack)
    requires !InRun(APIC_PAGE, h, heap) && !InRun(APIC_PAGE, s, stack) && window <= APIC_PAGE < PAGES
    requires APIC_PAGE !in v.role && Layout(v, next, released, window)
    ensures Free(v, next, released, window, APIC_PAGE)
  {
    assert Get(v.ept, APIC_PAGE) == Get(e2, APIC_PAGE);
    assert Get(e2, APIC_PAGE) == Get(e1, APIC_PAGE);
    assert Get(e1, APIC_PAGE) == Get(e0, APIC_PAGE);
  }

  lemma DescriptorsFree(v: View, mem: Memory, next: nat, released: seq<nat>, window: nat, d: nat)
    requires Layout(v, next, released, window) && v.ept == map[] && DataRun(mem, v, d, DESCRIPTORS)
    ensures MayMapRun(mem, v, next, released, window, 0, d, DESCRIPTORS)
  {
  }

  /** Data frames stay data frames. */
  lemma DataStays(mem: Memory, v: View, mem': Memory, v': View, first: nat, n: nat)
    requires OnlyEpt(mem, v, mem', v') && DataRun(mem, v, first, n)
    ensures DataRun(mem', v', first, n)
  {
  }

  /** The heap and the stack: a new run of frames, mapped at the numbers of the frames. */
  method AddRun(vm: Vm, count: nat) returns (ok: bool, first: nat)
    requires vm.Valid()
    modifies vm`mem, vm`starved, vm`eptFrames, vm`v
    ensures vm.Valid() && OnlyEpt(old(vm.mem), old(vm.v), vm.mem, vm.v) && vm.starved == (old(vm.starved) || !ok)
    ensures ok ==> vm.window <= first && WithRun(vm.v.ept, old(vm.v).ept, first, first, count)
    ensures ok ==> DataRun(vm.mem, vm.v, first, count) && forall f: nat | InRun(f, first, count) :: f !in old(vm.mem)
  {
    hide Inv;
    hide OnlyEpt;
    hide WithRun;
    hide MayMapRun;
    ok, first := NewRun(vm, count);
    if !ok { return; }
    ghost var mem1, v1 := vm.mem, vm.v;
    ok := MapRun(vm, first, first, count);
    OnlyEptTwice(old(vm.mem), old(vm.v), mem1, v1, vm.mem, vm.v);
    DataStays(mem1, v1, vm.mem, vm.v, first, count);
  }

  /** The descriptor pages. */
  method AddDescriptors(vm: Vm) returns (ok: bool, d: nat)
    requires vm.Valid() && vm.v.ept == map[]
    modifies vm`mem, vm`starved, vm`eptFrames, vm`v
    ensures vm.Valid() && OnlyEpt(old(vm.mem), old(vm.v), vm.mem, vm.v) && vm.starved == (old(vm.starved) || !ok)
    ensures ok ==> WithRun(vm.v.ept, map[], 0, d, DESCRIPTORS) && DataRun(vm.mem, vm.v, d, DESCRIPTORS)
  {
    hide Inv;
    hide OnlyEpt;
    hide WithRun;
    hide MayMapRun;
    ok, d := NewRun(vm, DESCRIPTORS);
    if !ok { return; }
    LayoutIs(vm.mem, vm.base, vm.eptFrames, vm.v, vm.nextPage, vm.released, vm.window);
    DescriptorsFree(vm.v, vm.mem, vm.nextPage, vm.released, vm.window, d);
    ghost var mem1, v1 := vm.mem, vm.v;
    ok := MapRun(vm, 0, d, DESCRIPTORS);
    OnlyEptTwice(old(vm.mem), old(vm.v), mem1, v1, vm.mem, vm.v);
    DataStays(mem1, v1, vm.mem, vm.v, d, DESCRIPTORS);
  }

  /** A frame that was in use, for data. */
  lemma FrameStaysData(mem: Memory, v: View, mem': Memory, v': View, f: nat)
    requires OnlyEpt(mem, v, mem', v') && f in mem && f !in v.role
    ensures f in mem' && f !in v'.role
  {
  }

  /**
  hypervisor_ept_setup, after the allocation of the root table: five descriptor pages from page 0 on, heap and stack at
  the numbers of their own frames, and on an AMD machine the page of the local APIC, which leads to the frame given.
  Nothing else is mapped.
  */
  method Setup(vm: Vm, heap: nat, stack: nat, apic: Option<nat>) returns (ok: bool, d: nat, h: nat, s: nat)
    requires vm.Valid() && vm.v.ept == map[] && vm.window <= APIC_PAGE
    requires apic.Some? ==> apic.value in vm.mem && apic.value !in vm.v.role
    requires APIC_PAGE in vm.mem && APIC_PAGE !in vm.v.role
    modifies vm`mem, vm`starved, vm`eptFrames, vm`v
    ensures vm.Valid() && OnlyEpt(old(vm.mem), old(vm.v), vm.mem, vm.v) && vm.starved == (old(vm.starved) || !ok)
    ensures ok ==> forall g: nat :: FrameOf(vm.v.ept, g) == Start(d, h, heap, s, stack, apic, g)
    ensures ok ==>
              DataRun(vm.mem, vm.v, d, DESCRIPTORS) && DataRun(vm.mem, vm.v, h, heap) && DataRun(vm.mem, vm.v, s, stack)
  {
    hide Inv;
    hide OnlyEpt;
    hide WithRun;
    hide DataRun;
    hide FrameOf;
    hide Start;
    h, s := 0, 0;
    ghost var mem0, v0, e0 := vm.mem, vm.v, vm.v.ept;
    LayoutIs(vm.mem, vm.base, vm.eptFrames, vm.v, vm.nextPage, vm.released, vm.window);
    ok, d := AddDescriptors(vm);
    if !ok { return; }
    ghost var mem1, v1 := vm.mem, vm.v;
    FrameStaysData(mem0, v0, mem1, v1, APIC_PAGE);
    ok, h := AddRun(vm, heap);
    OnlyEptTwice(mem0, v0, mem1, v1, vm.mem, vm.v);
    if !ok { return; }
    ghost var mem2, v2 := vm.mem, vm.v;
    DataStays(mem1, v1, mem2, v2, d, DESCRIPTORS);
    FrameStaysData(mem1, v1, mem2, v2, APIC_PAGE);
    ok, s := AddRun(vm, stack);
    OnlyEptTwice(mem0, v0, mem2, v2, vm.mem, vm.v);
    if !ok { return; }
    ghost var mem3, v3, frames3 := vm.mem, vm.v, vm.eptFrames;
    DataStays(mem2, v2, mem3, v3, d, DESCRIPTORS);
    DataStays(mem2, v2, mem3, v3, h, heap);
    FrameStaysData(mem2, v2, mem3, v3, APIC_PAGE);
    LayoutIs(vm.mem, vm.base, vm.eptFrames, vm.v, vm.nextPage, vm.released, vm.window);
    ApicFree(vm.mem, vm.v, vm.nextPage, vm.released, vm.window, e0, v1.ept, v2.ept, d, h, heap, s, stack);
    if apic.Some? {
      FrameStaysData(mem0, v0, mem3, v3, apic.value);
      ok := AddApic(vm, apic.value);
      OnlyEptTwice(mem0, v0, mem3, v3, vm.mem, vm.v);
      if !ok { return; }
      DataStays(mem3, v3, vm.mem, vm.v, d, DESCRIPTORS);
      DataStays(mem3, v3, vm.mem, vm.v, h, heap);
      DataStays(mem3, v3, vm.mem, vm.v, s, stack);
    }
    StartIs(e0, v1.ept, v2.ept, v3.ept, vm.v.ept, d, h, heap, s, stack, apic);
  }

  method AddApic(vm: Vm, f: nat) returns (ok: bool)
    requires vm.Valid() && Free(vm.v, vm.nextPage, vm.released, vm.window, APIC_PAGE) && f in vm.mem && f !in vm.v.role
    modifies vm`mem, vm`starved, vm`eptFrames, vm`v
    ensures vm.Valid() && OnlyEpt(old(vm.mem), old(vm.v), vm.mem, vm.v) && vm.starved == (old(vm.starved) || !ok)
    ensures ok ==> APIC_PAGE in vm.v.ept && vm.v.ept == old(vm.v).ept[APIC_PAGE := vm.v.ept[APIC_PAGE]]
    ensures ok ==> vm.v.ept[APIC_PAGE].addr == f && vm.v.ept[APIC_PAGE].kind == WRITE_BACK
  {
    hide GuestInv;
    hide EptInv;
    hide Layout;
    hide OnlyEpt;
    ghost var mem1, v1, frames1 := vm.mem, vm.v, vm.eptFrames;
    ok := vm.AddEptPage(f, APIC_PAGE, true);
    InvMapped(mem1, vm.base, frames1, v1, vm.nextPage, vm.released, vm.window, vm.mem, vm.eptFrames, vm.v, APIC_PAGE);
  }

  lemma LayoutIs(mem: Memory, base: nat, recorded: set<nat>, v: View, next: nat, released: seq<nat>, window: nat)
    requires Inv(mem, base, recorded, v, next, released, window)
    ensures Layout(v, next, released, window)
  {
  }
}
