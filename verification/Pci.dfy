/**
Enumeration of PCI functions: the iterator over segment groups, buses, devices and functions. What the
configuration space holds is a parameter.
*/
module Pci {
  const DEVICES: nat := 32
  const FUNCTIONS: nat := 8

  /** A segment group of the MCFG table. */
  datatype Group = Group(busStart: nat, busEnd: nat)

  /** present: the vendor id is not 0xFFFF; multi: the multifunction bit of function 0. */
  datatype Space = Space(groups: seq<Group>, present: (nat, nat, nat, nat) -> bool, multi: (nat, nat, nat) -> bool)

  /** The functions the iterator is for: function 0 of a device, and every function of a multifunction device. */
  predicate Eligible(s: Space, g: nat, b: nat, d: nat, f: nat) {
    && g < |s.groups| && s.groups[g].busStart <= b < s.groups[g].busEnd
    && s.present(g, b, d, 0) && s.present(g, b, d, f) && (f == 0 || s.multi(g, b, d))
  }

  /** A position within a segment group, in the order of bus, device and function. */
  function Slot(b: nat, d: nat, f: nat): (k: nat) {
    256 * b + 8 * d + f
  }

  lemma SlotLow(b: nat, d: nat, f: nat)
    requires d < DEVICES && f < FUNCTIONS
    ensures Slot(b, d, f) % 256 == 8 * d + f && Slot(b, d, f) / 256 == b
  {
  }

  /** Whether the function at a position is eligible. */
  predicate At(s: Space, g: nat, k: nat) {
    Eligible(s, g, k / 256, k / 8 % 32, k % 8)
  }

  lemma AtSlot(s: Space, g: nat, b: nat, d: nat, f: nat)
    requires d < DEVICES && f < FUNCTIONS
    ensures At(s, g, Slot(b, d, f)) <==> Eligible(s, g, b, d, f)
  {
    var k := Slot(b, d, f);
    assert k / 8 == 32 * b + d && k % 8 == f && k / 256 == b;
  }

  /** Nothing eligible from one position of a group up to another. */
  ghost predicate Nothing(s: Space, g: nat, from: nat, to: nat) {
    forall k: nat | from <= k < to :: !At(s, g, k)
  }

  /** The functions from f on, of a device that has none of them or is not eligible for them. */
  lemma NothingOnDevice(s: Space, g: nat, b: nat, d: nat, f: nat)
    requires d < DEVICES && f <= FUNCTIONS
    requires !s.present(g, b, d, 0) || (f > 0 && !s.multi(g, b, d))
    ensures Nothing(s, g, Slot(b, d, f), Slot(b, d + 1, 0))
  {
    hide At;
    forall k: nat | Slot(b, d, f) <= k < Slot(b, d + 1, 0) ensures !At(s, g, k) {
      assert k == Slot(b, d, k - Slot(b, d, 0));
      AtSlot(s, g, b, d, k - Slot(b, d, 0));
    }
  }

  class Iterator {
    const space: Space
    var group: nat
    var bus: nat
    var device: nat
    var func: nat
    var ended: bool

    predicate Valid()
      reads this
    {
      group < |space.groups| && space.groups[group].busStart <= bus && device < DEVICES && func < FUNCTIONS
    }

    function Here(): (k: nat)
      reads this
    {
      Slot(bus, device, func)
    }

    /** Nothing is eligible from one position of the group up to another. */
    ghost predicate FirstFrom(from: nat, k: nat)
      reads this`group
    {
      from <= k && Nothing(space, group, from, k)
    }

    /** The iterator is at the first function that is present, on any bus. */
    ghost predicate AtFirst()
      reads this
    {
      && Valid() && bus <= space.groups[group].busEnd && space.present(group, bus, device, func)
      && Absent(space, group, Here())
    }

    /** pci_iterator_create_with_heap: the first function that is present, on any bus of a group, the last included. */
    constructor (space: Space)
      ensures this.space == space
      ensures if ended then forall g: nat, k: nat :: !PresentAt(space, g, k)
              else AtFirst()
    {
      this.space := space;
      group, bus, device, func, ended := 0, 0, 0, 0, true;
      new;
      var found := FindFirst();
      ended := !found;
    }

    /** The loops of pci_iterator_create_with_heap. */
    method FindFirst() returns (found: bool)
      modifies this`group, this`bus, this`device, this`func
      ensures if found then AtFirst()
              else forall g: nat, k: nat :: !PresentAt(space, g, k)
    {
      hide PresentAt;
      for g := 0 to |space.groups|
        invariant Absent(space, g, 0)
      {
        group := g;
        GroupEdges(space, g);
        var b := space.groups[g].busStart;
        while b <= space.groups[g].busEnd
          invariant group == g && space.groups[g].busStart <= b && Absent(space, g, Slot(b, 0, 0))
          decreases space.groups[g].busEnd + 1 - b
        {
          bus := b;
          found := FindOnBus(b);
          if found {
            return;
          }
          b := b + 1;
        }
        GroupDone(space, g, b);
      }
      GroupsDone(space);
      return false;
    }

    /** The device and function loops of pci_iterator_create_with_heap. */
    method FindOnBus(b: nat) returns (found: bool)
      requires group < |space.groups| && space.groups[group].busStart <= b <= space.groups[group].busEnd
      requires bus == b && Absent(space, group, Slot(b, 0, 0))
      modifies this`device, this`func
      ensures if found then Valid() && space.present(group, b, device, func) && Absent(space, group, Here())
              else Absent(space, group, Slot(b + 1, 0, 0))
    {
      hide PresentAt;
      hide Absent;
      for d := 0 to DEVICES
        invariant Absent(space, group, Slot(b, d, 0))
      {
        device := d;
        for f := 0 to FUNCTIONS
          invariant device == d && Absent(space, group, Slot(b, d, f))
        {
          func := f;
          PresentSlot(space, group, b, d, f);
          if space.present(group, b, d, f) {
            return true;
          }
          AbsentOne(space, group, Slot(b, d, f));
        }
        assert Slot(b, d, FUNCTIONS) == Slot(b, d + 1, 0);
      }
      assert Slot(b, DEVICES, 0) == Slot(b + 1, 0, 0);
      return false;
    }

    /**
    The body of the device loop: on the device the search starts from, later functions of a multifunction
    device; on others, function 0.
    */
    method ScanDevice(b: nat, d: nat, first: bool) returns (found: bool)
      requires Valid() && space.groups[group].busStart <= b < space.groups[group].busEnd && d < DEVICES
               && (!first ==> func == 0)
      modifies this`device, this`func
      ensures Valid() && device == d
      ensures var from := Slot(b, d, if first then old(func) + 1 else 0);
              if found then Eligible(space, group, b, d, func) && FirstFrom(from, Slot(b, d, func))
              else func == 0 && Nothing(space, group, from, Slot(b, d + 1, 0))
    {
      ghost var from := if first then func + 1 else 0;
      NothingOrNext(b, d, from);
      hide At;
      found := false;
      device := d;
      if space.present(group, b, d, 0) {
        if !first {
          found := true;
        } else if space.multi(group, b, d) {
          var f := func + 1;
          while f < FUNCTIONS && !found
            invariant from <= f <= FUNCTIONS && func < FUNCTIONS && device == d
            invariant found ==> f < FUNCTIONS && func == f && Eligible(space, group, b, d, f)
            invariant Nothing(space, group, Slot(b, d, from), Slot(b, d, f))
            decreases FUNCTIONS - f, !found
          {
            func := f;
            AtSlot(space, group, b, d, f);
            if space.present(group, b, d, f) {
              found := true;
            } else {
              f := f + 1;
            }
          }
        }
      }
      if !found {
        func := 0;
      }
    }

    lemma NothingOrNext(b: nat, d: nat, f: nat)
      requires d < DEVICES && f <= FUNCTIONS
      ensures !space.present(group, b, d, 0) || (f > 0 && !space.multi(group, b, d))
              ==> Nothing(space, group, Slot(b, d, f), Slot(b, d + 1, 0))
    {
      if !space.present(group, b, d, 0) || (f > 0 && !space.multi(group, b, d)) {
        NothingOnDevice(space, group, b, d, f);
      }
    }

    /** The device loop of one bus. */
    method ScanBus(b: nat, first: bool) returns (found: bool)
      requires Valid() && space.groups[group].busStart <= b < space.groups[group].busEnd && (!first ==> func == 0)
      modifies this`device, this`func
      ensures Valid()
      ensures var from := Slot(b, old(device), if first then old(func) + 1 else 0);
              if found then Eligible(space, group, b, device, func) && FirstFrom(from, Slot(b, device, func))
              else device == 0 && func == 0 && Nothing(space, group, from, Slot(b + 1, 0, 0))
    {
      hide Eligible;
      hide At;
      ghost var from := Slot(b, device, if first then func + 1 else 0);
      found := false;
      var d, same := device, first;
      while d < DEVICES && !found
        invariant old(device) <= d <= DEVICES && Valid() && (found ==> d < DEVICES)
        invariant !found ==> if d == old(device) then func == old(func) && same == first
                             else func == 0 && !same && Nothing(space, group, from, Slot(b, d, 0))
        invariant found ==> Eligible(space, group, b, device, func) && FirstFrom(from, Slot(b, device, func))
        decreases DEVICES - d, !found
      {
        found := ScanDevice(b, d, same);
        if !found {
          d, same := d + 1, false;
        }
      }
      if !found {
        device := 0;
      }
    }

    /** The bus loop of one group; the last bus is left out. */
    method ScanGroup(first: bool) returns (found: bool)
      requires Valid() && (!first ==> func == 0)
      modifies this`bus, this`device, this`func
      ensures Valid()
      ensures var from := Slot(old(bus), old(device), if first then old(func) + 1 else 0);
              var end := space.groups[group].busEnd;
              if found then Eligible(space, group, bus, device, func) && FirstFrom(from, Here())
              else Nothing(space, group, from, Slot(end, 0, 0)) && (old(bus) < end ==> device == 0 && func == 0)
                   && (old(bus) >= end ==> device == old(device) && func == old(func))
    {
      hide Eligible;
      hide At;
      ghost var from := Slot(bus, device, if first then func + 1 else 0);
      var end := space.groups[group].busEnd;
      found := false;
      var b, same := bus, first;
      while b < end && !found
        invariant old(bus) <= b && (b <= end || b == old(bus)) && Valid() && (found ==> b < end && bus == b)
        invariant !found ==> if b == old(bus) then device == old(device) && func == old(func) && same == first
                             else device == 0 && func == 0 && !same && Nothing(space, group, from, Slot(b, 0, 0))
        invariant found ==> Eligible(space, group, bus, device, func) && FirstFrom(from, Here())
        decreases if b < end then end - b else 0, !found
      {
        bus := b;
        found := ScanBus(b, same);
        if !found {
          b, same := b + 1, false;
        }
      }
    }

    /**
    pci_iterator_next. Between the old position and the new one nothing eligible is passed over, except what a jump
    off the last bus of a group passes over.
    */
    method Next()
      requires Valid() && !ended
      modifies this`group, this`bus, this`device, this`func, this`ended
      ensures Valid()
      ensures !ended ==> Later(old(group), old(Here()), group, Here()) && Eligible(space, group, bus, device, func)
      ensures !ended ==> !Jumped(space, old(group), old(Here()), group, Here())
      ensures if ended then Clear(space, old(group), old(Here()), |space.groups|, 0)
              else Clear(space, old(group), old(Here()), group, Here())
    {
      hide At;
      hide Eligible;
      hide Jumped;
      hide Clear;
      hide Unmoved;
      ghost var g0, k0, low := group, Here(), 8 * device + func;
      assert k0 % 256 == low by { SlotLow(bus, device, func); }
      var found, g, same := false, group, true;
      while g < |space.groups| && !found
        invariant g0 <= g <= |space.groups| && device < DEVICES && func < FUNCTIONS && !ended
        invariant found || g == |space.groups| ==> Valid()
        invariant !found && g == g0 ==> same && bus == old(bus) && 8 * device + func == low
        invariant !found && g0 < g < |space.groups| ==>
                    bus == space.groups[g].busStart && same == Unmoved(space, g0, k0, g)
        invariant !found && g0 < g ==> Clear(space, g0, k0, g, 0) && 8 * device + func == if same then low else 0
        invariant found ==> Eligible(space, group, bus, device, func) && Later(g0, k0, group, Here())
        invariant found ==> Clear(space, g0, k0, group, Here()) && !Jumped(space, g0, k0, group, Here())
        decreases |space.groups| - g, !found
      {
        group := g;
        ghost var from := Slot(bus, device, if same then func + 1 else 0);
        var ran := bus < space.groups[g].busEnd;
        found := ScanGroup(same);
        if found {
          ClearTo(space, g0, k0, g, from, Here());
        } else {
          ClearGroup(space, g0, k0, g, from);
          UnmovedNext(space, g0, k0, g);
          same := same && !ran;
          if g + 1 < |space.groups| {
            bus := space.groups[g + 1].busStart;
          }
          g := g + 1;
        }
      }
      if !found {
        ended := true;
      }
    }
  }

  /**
  The search from a position has come to a group without a bus to look at: device and function are still the old
  ones.
  */
  ghost predicate Unmoved(s: Space, g0: nat, k0: nat, g: nat) {
    && g0 < |s.groups| && g <= |s.groups| && s.groups[g0].busEnd <= k0 / 256
    && forall h: nat | g0 < h < g :: s.groups[h].busEnd <= s.groups[h].busStart
  }

  lemma UnmovedNext(s: Space, g0: nat, k0: nat, g: nat)
    requires g0 <= g < |s.groups|
    ensures g == g0 ==> (Unmoved(s, g0, k0, g + 1) <==> s.groups[g].busEnd <= k0 / 256)
    ensures g0 < g ==>
              (Unmoved(s, g0, k0, g + 1) <==> Unmoved(s, g0, k0, g) && s.groups[g].busEnd <= s.groups[g].busStart)
  {
  }

  /**
  What the search passes over when it leaves the last bus of a group: it goes on in the next group that has a bus to
  look at, behind the device and function it came from, not from the first device.
  */
  ghost predicate Jumped(s: Space, g0: nat, k0: nat, g: nat, k: nat) {
    g0 < g < |s.groups| && Unmoved(s, g0, k0, g) && k <= Slot(s.groups[g].busStart, 0, 0) + k0 % 256
  }

  /** Where the search from a position looks first in a group. */
  ghost predicate Resumes(s: Space, g0: nat, k0: nat, g: nat, from: nat) {
    && g0 <= g < |s.groups|
    && from == (if g == g0 then k0 + 1
                else Slot(s.groups[g].busStart, 0, 0) + if Unmoved(s, g0, k0, g) then k0 % 256 + 1 else 0)
  }

  /** A group scanned to its end. */
  lemma ClearGroup(s: Space, g0: nat, k0: nat, g: nat, from: nat)
    requires Resumes(s, g0, k0, g, from) && Nothing(s, g, from, Slot(s.groups[g].busEnd, 0, 0))
    requires g0 < g ==> Clear(s, g0, k0, g, 0)
    ensures Clear(s, g0, k0, g + 1, 0)
  {
  }

  /** A group scanned up to a position. */
  lemma ClearTo(s: Space, g0: nat, k0: nat, g: nat, from: nat, to: nat)
    requires Resumes(s, g0, k0, g, from) && Nothing(s, g, from, to) && from <= to
    requires g0 < g ==> Clear(s, g0, k0, g, 0)
    ensures Clear(s, g0, k0, g, to) && !Jumped(s, g0, k0, g, to)
  {
  }

  /** A position of a later group, or a later one of the same. */
  predicate Later(g0: nat, k0: nat, g: nat, k: nat) {
    g0 < g || (g0 == g && k0 < k)
  }

  /** Between two positions, across groups, nothing is eligible but what a jump from the first one passes over. */
  ghost predicate Clear(s: Space, g0: nat, k0: nat, g1: nat, k1: nat) {
    forall g: nat, k: nat | At(s, g, k) && Later(g0, k0, g, k) && Later(g, k, g1, k1) :: Jumped(s, g0, k0, g, k)
  }

  /** Whether a function on any bus of a group is present. */
  predicate PresentAt(s: Space, g: nat, k: nat) {
    && g < |s.groups| && s.groups[g].busStart <= k / 256 <= s.groups[g].busEnd
    && s.present(g, k / 256, k / 8 % 32, k % 8)
  }

  /** No function is present before a position. */
  ghost predicate Absent(s: Space, g1: nat, k1: nat) {
    forall g: nat, k: nat | g < g1 || (g == g1 && k < k1) :: !PresentAt(s, g, k)
  }

  lemma AbsentOne(s: Space, g: nat, k: nat)
    requires Absent(s, g, k) && !PresentAt(s, g, k)
    ensures Absent(s, g, k + 1)
  {
  }

  lemma PresentSlot(s: Space, g: nat, b: nat, d: nat, f: nat)
    requires g < |s.groups| && s.groups[g].busStart <= b <= s.groups[g].busEnd && d < DEVICES && f < FUNCTIONS
    ensures PresentAt(s, g, Slot(b, d, f)) <==> s.present(g, b, d, f)
  {
    var k := Slot(b, d, f);
    assert k / 8 == 32 * b + d && k % 8 == f && k / 256 == b;
  }

  lemma GroupEdges(s: Space, g: nat)
    requires g < |s.groups| && Absent(s, g, 0)
    ensures Absent(s, g, Slot(s.groups[g].busStart, 0, 0))
  {
  }

  lemma GroupDone(s: Space, g: nat, b: nat)
    requires g < |s.groups| && b > s.groups[g].busEnd && Absent(s, g, Slot(b, 0, 0))
    ensures Absent(s, g + 1, 0)
  {
  }

  lemma GroupsDone(s: Space)
    requires Absent(s, |s.groups|, 0)
    ensures forall g: nat, k: nat :: !PresentAt(s, g, k)
  {
  }

  // ---- The whole enumeration ----

  /** An eligible function is a present one. */
  lemma EligiblePresent(s: Space, g: nat, k: nat)
    requires At(s, g, k)
    ensures PresentAt(s, g, k) && g < |s.groups|
  {
  }

  predicate Ascending(v: seq<(nat, nat)>) {
    forall i: nat, j: nat | i < j < |v| :: Later(v[i].0, v[i].1, v[j].0, v[j].1)
  }

  /** Passed over by the jump from the first position visited. */
  ghost predicate PassedOver(s: Space, v: seq<(nat, nat)>, g: nat, k: nat) {
    v != [] && Jumped(s, v[0].0, v[0].1, g, k)
  }

  /** The positions visited so far, with the iterator at (g, k) or at its end. */
  ghost predicate Visited(s: Space, v: seq<(nat, nat)>, ended: bool, g: nat, k: nat) {
    && Ascending(v) && (forall i: nat | 0 < i < |v| :: At(s, v[i].0, v[i].1))
    && (!ended ==> !PassedOver(s, v, g, k) && forall i: nat | i < |v| :: Later(v[i].0, v[i].1, g, k))
    && (if v != [] then PresentAt(s, v[0].0, v[0].1) && Absent(s, v[0].0, v[0].1) && (ended || At(s, g, k))
        else if ended then forall g: nat, k: nat :: !PresentAt(s, g, k)
        else PresentAt(s, g, k) && Absent(s, g, k))
    && forall h: nat, j: nat | At(s, h, j) && (ended || Later(h, j, g, k)) :: (h, j) in v <==> !PassedOver(s, v, h, j)
  }

  lemma VisitedFirst(s: Space, ended: bool, g: nat, k: nat)
    requires if ended then forall g: nat, k: nat :: !PresentAt(s, g, k) else PresentAt(s, g, k) && Absent(s, g, k)
    ensures Visited(s, [], ended, g, k)
  {
    forall h: nat, j: nat | At(s, h, j) ensures PresentAt(s, h, j) {
      EligiblePresent(s, h, j);
    }
  }

  /** From an eligible position nothing is jumped over, and a position after it is not in a jump that it is not in. */
  lemma JumpedOnce(s: Space, g0: nat, k0: nat, g: nat, k: nat, g': nat, k': nat)
    requires At(s, g, k) && Later(g, k, g', k')
    ensures !Jumped(s, g, k, g', k')
    ensures Later(g0, k0, g, k) && !Jumped(s, g0, k0, g, k) ==> !Jumped(s, g0, k0, g', k')
  {
  }

  /** An eligible position up to the next one, seen from the current position. */
  lemma VisitedAt(s: Space, v: seq<(nat, nat)>, g0: nat, k0: nat, h: nat, j: nat)
    requires Visited(s, v, false, g0, k0) && At(s, h, j)
    requires Later(g0, k0, h, j) ==> Jumped(s, g0, k0, h, j)
    ensures (h, j) in v + [(g0, k0)] <==> !PassedOver(s, v + [(g0, k0)], h, j)
  {
    hide At;
    hide PresentAt;
    var v' := v + [(g0, k0)];
    assert v'[|v|] == (g0, k0);
    if Later(g0, k0, h, j) {
      if v != [] {
        JumpedOnce(s, v[0].0, v[0].1, g0, k0, h, j);
      }
      assert (h, j) !in v';
    } else if (h, j) != (g0, k0) {
      assert Later(h, j, g0, k0);
      EligiblePresent(s, h, j);
      assert v != [];
    }
  }

  lemma VisitedNext(s: Space, v: seq<(nat, nat)>, g0: nat, k0: nat, ended: bool, g: nat, k: nat)
    requires Visited(s, v, false, g0, k0) && g0 < |s.groups|
    requires !ended ==> At(s, g, k) && Later(g0, k0, g, k) && !Jumped(s, g0, k0, g, k)
    requires if ended then Clear(s, g0, k0, |s.groups|, 0) else Clear(s, g0, k0, g, k)
    ensures Visited(s, v + [(g0, k0)], ended, g, k)
  {
    hide At;
    hide PresentAt;
    hide Absent;
    hide Jumped;
    var v' := v + [(g0, k0)];
    assert v'[|v|] == (g0, k0);
    forall i: nat, j: nat | i < j < |v'| ensures Later(v'[i].0, v'[i].1, v'[j].0, v'[j].1) {
      assert j < |v| ==> v'[j] == v[j];
      assert v'[i] == v[i];
    }
    if !ended && v != [] {
      JumpedOnce(s, v[0].0, v[0].1, g0, k0, g, k);
    }
    forall h: nat, j: nat | At(s, h, j) && (ended || Later(h, j, g, k))
      ensures (h, j) in v' <==> !PassedOver(s, v', h, j)
    {
      EligiblePresent(s, h, j);
      VisitedAt(s, v, g0, k0, h, j);
    }
  }

  lemma InGroup(s: Space, g: nat, b: nat, d: nat, f: nat)
    requires Eligible(s, g, b, d, f)
    ensures g < |s.groups| && b < s.groups[g].busEnd
  {
  }

  /** One turn of a walk: the current position is visited and the iterator moves on. */
  method Visit(it: Iterator, v: seq<(nat, nat)>) returns (v': seq<(nat, nat)>)
    requires it.Valid() && !it.ended
    modifies it
    ensures old(Visited(it.space, v, false, it.group, it.Here())) ==>
              Visited(it.space, v', it.ended, it.group, it.Here())
    ensures !it.ended ==> it.Valid() && it.bus < it.space.groups[it.group].busEnd
    ensures !it.ended ==> Later(old(it.group), old(it.Here()), it.group, it.Here())
  {
    hide At;
    hide Clear;
    hide Eligible;
    hide Visited;
    hide Slot;
    ghost var g0, k0 := it.group, it.Here();
    v' := v + [(it.group, Slot(it.bus, it.device, it.func))];
    it.Next();
    if !it.ended {
      AtSlot(it.space, it.group, it.bus, it.device, it.func);
      InGroup(it.space, it.group, it.bus, it.device, it.func);
    }
    if Visited(it.space, v, false, g0, k0) {
      VisitedNext(it.space, v, g0, k0, it.ended, it.group, it.Here());
    }
  }

  /**
  Walks the iterator to its end. Positions strictly ascend, so the walk ends and nothing is visited twice.
  An eligible function is visited if and only if it is not passed over by a jump from the first position. Every
  position after the first is eligible; the first is the first present function, which is not asked to be eligible.
  */
  method Enumerate(space: Space) returns (v: seq<(nat, nat)>)
    ensures Ascending(v)
    ensures forall i: nat | 0 < i < |v| :: At(space, v[i].0, v[i].1)
    ensures forall g: nat, k: nat | At(space, g, k) :: (g, k) in v <==> !PassedOver(space, v, g, k)
    ensures |space.groups| == 1 ==> forall k: nat | At(space, 0, k) :: (0, k) in v
    ensures v == [] <==> forall g: nat, k: nat :: !PresentAt(space, g, k)
    ensures v != [] ==> PresentAt(space, v[0].0, v[0].1) && Absent(space, v[0].0, v[0].1)
  {
    hide At;
    hide PresentAt;
    hide Absent;
    hide Ascending;
    v := [];
    var it := new Iterator(space);
    if !it.ended {
      PresentSlot(space, it.group, it.bus, it.device, it.func);
    }
    VisitedFirst(space, it.ended, it.group, it.Here());
    while !it.ended
      invariant it.space == space && Visited(space, v, it.ended, it.group, it.Here())
      invariant !it.ended ==> it.Valid() && it.bus <= space.groups[it.group].busEnd
      decreases !it.ended, if it.ended then 0 else |space.groups| - it.group,
                if it.ended then 0 else Slot(space.groups[it.group].busEnd + 1, 0, 0) - it.Here()
    {
      v := Visit(it, v);
    }
  }

  /**
  The first present function on the last bus of the first group: function 0 of the next group's first device is
  missed.
  */
  lemma JumpMisses() returns (s: Space)
    ensures PresentAt(s, 0, Slot(0, 1, 0)) && Absent(s, 0, Slot(0, 1, 0))
    ensures At(s, 1, 0) && Jumped(s, 0, Slot(0, 1, 0), 1, 0)
  {
    var present := (g: nat, b: nat, d: nat, f: nat) => (g == 0 && b == 0 && d == 1) || (g == 1 && b == 0 && d == 0);
    s := Space([Group(0, 0), Group(0, 1)], present, (g: nat, b: nat, d: nat) => false);
  }
}
