/**
Whole sequences of page faults: every section of a virtual machine is replaced at most once, and none disturbs
another.
*/
module FaultRuns {
  import opened Radix
  import opened Translation
  import opened VmInvariant
  import opened Access
  import opened NestedPaging
  import opened PageFault

  /** Two sections without a common page, guest-virtual or guest-physical. */
  ghost predicate Separate(s: Section, t: Section) {
    && (forall p: nat | InRun(p, FirstPage(s), PageCount(s)) :: !InRun(p, FirstPage(t), PageCount(t)))
    && (forall g: nat | InRun(g, FirstFrame(s), PageCount(s)) :: !InRun(g, FirstFrame(t), PageCount(t)))
  }

  ghost predicate AllSeparate(sections: seq<Section>) {
    forall i: nat, j: nat | i < |sections| && j < |sections| && i != j :: Separate(sections[i], sections[j])
  }

  ghost predicate AllReplaceable(mem: Memory, v: View, sections: seq<Section>) {
    forall t | t in sections :: Replaceable(mem, v, t)
  }

  /** A section that is separate from a replaced one can still be replaced. */
  lemma StillReplaceable(mem: Memory, v: View, mem': Memory, v': View, s: Section, first: nat, t: Section)
    requires Replaced(mem, v, mem', v', s, first) && Replaceable(mem, v, t) && Separate(t, s)
    ensures Replaceable(mem', v', t)
  {
    hide SameByte;
    forall p: nat | InRun(p, FirstPage(t), PageCount(t))
      ensures p in v'.guest && v'.guest[p].addr == p - FirstPage(t) + FirstFrame(t)
    {
      assert Get(v'.guest, p) == Pasted(v.guest, FirstPage(s), FirstFrame(s), PageCount(s), p);
    }
  }

  /**
  The section has a private copy: its pages are mapped writable to their guest-physical pages, these lead to frames
  that were not in use in the memory mem0, and the frames hold the bytes the section had in mem0.
  */
  ghost predicate OnCopy(mem0: Memory, mem: Memory, v: View, t: Section, first: nat) {
    var vp, pp, n := FirstPage(t), FirstFrame(t), PageCount(t);
    && pp + n <= PAGES
    && (forall p: nat | InRun(p, vp, n) :: p in v.guest && v.guest[p] == GuestLeaf(p - vp + pp, false, true))
    && Leads(v.ept, pp, first, n) && DataRun(mem, v, first, n)
    && (forall f: nat | InRun(f, first, n) :: f !in mem0)
    && (forall j: nat | j < t.size :: SameByte(mem0, mem, pp, first, j))
  }

  ghost predicate HasCopy(mem0: Memory, mem: Memory, v: View, t: Section) {
    exists first: nat :: OnCopy(mem0, mem, v, t, first)
  }

  lemma BytesKept(mem0: Memory, mem: Memory, v: View, mem': Memory, v': View, src: nat, first: nat, n: nat, size: nat)
    requires DataRun(mem, v, first, n) && DataKept(mem, v, mem', v') && n == (size + 0xFFF) / 0x1000
    requires forall j: nat | j < size :: SameByte(mem0, mem, src, first, j)
    ensures forall j: nat | j < size :: SameByte(mem0, mem', src, first, j)
  {
    hide RunByte;
    DataRunKept(mem, v, mem', v', first, n);
    hide DataKept;
    forall j: nat | j < size ensures SameByte(mem0, mem', src, first, j) {
      assert SameByte(mem0, mem, src, first, j);
      assert InRun(first + j / 0x1000, first, n);
      RunByteSame(mem, mem', first, j);
    }
  }

  lemma BytesFrom(mem0: Memory, v0: View, mem: Memory, v: View, mem': Memory, src: nat, first: nat, n: nat, size: nat)
    requires DataRun(mem0, v0, src, n) && DataKept(mem0, v0, mem, v) && n == (size + 0xFFF) / 0x1000
    requires forall j: nat | j < size :: SameByte(mem, mem', src, first, j)
    ensures forall j: nat | j < size :: SameByte(mem0, mem', src, first, j)
  {
    hide RunByte;
    DataRunKept(mem0, v0, mem, v, src, n);
    hide DataKept;
    forall j: nat | j < size ensures SameByte(mem0, mem', src, first, j) {
      assert SameByte(mem, mem', src, first, j);
      assert InRun(src + j / 0x1000, src, n);
      RunByteSame(mem0, mem, src, j);
    }
  }

  /** A copy stays when another section is replaced. */
  lemma CopyStays(mem0: Memory, mem: Memory, v: View, mem': Memory, v': View, s: Section, first: nat, t: Section)
    requires Replaced(mem, v, mem', v', s, first) && HasCopy(mem0, mem, v, t) && Separate(t, s)
    ensures HasCopy(mem0, mem', v', t)
  {
    hide SameByte;
    hide GuestLeaf;
    var f: nat :| OnCopy(mem0, mem, v, t, f);
    var vp, pp, n := FirstPage(t), FirstFrame(t), PageCount(t);
    DataRunKept(mem, v, mem', v', f, n);
    BytesKept(mem0, mem, v, mem', v', pp, f, n, t.size);
    hide DataKept;
    forall p: nat | InRun(p, vp, n) ensures p in v'.guest && v'.guest[p] == GuestLeaf(p - vp + pp, false, true) {
      assert Get(v'.guest, p) == Pasted(v.guest, FirstPage(s), FirstFrame(s), PageCount(s), p);
    }
    assert OnCopy(mem0, mem', v', t, f);
  }

  /** A section that is replaced has a copy. */
  lemma CopyMade(mem0: Memory, v0: View, mem: Memory, v: View, mem': Memory, v': View, s: Section, first: nat)
    requires Replaceable(mem0, v0, s) && DataKept(mem0, v0, mem, v) && Replaced(mem, v, mem', v', s, first)
    ensures HasCopy(mem0, mem', v', s)
  {
    hide SameByte;
    var vp, pp, n := FirstPage(s), FirstFrame(s), PageCount(s);
    BytesFrom(mem0, v0, mem, v, mem', pp, first, n, s.size);
    forall p: nat | InRun(p, vp, n) ensures p in v'.guest && v'.guest[p] == GuestLeaf(p - vp + pp, false, true) {
      assert Get(v'.guest, p) == Pasted(v.guest, vp, pp, n, p);
    }
    assert OnCopy(mem0, mem', v', s, first);
  }

  // ---- The sequence ----

  /** A page fault: whether the page was present, whether the access was a write, and the address. */
  datatype Fault = Fault(present: bool, write: bool, address: nat)

  /** Pages whose guest-physical page belongs to none of some sections. */
  ghost predicate Clear(v: View, p: nat, sections: seq<Section>) {
    p in v.guest && forall t | t in sections :: !InRun(v.guest[p].addr, FirstFrame(t), PageCount(t))
  }

  /** Pages that are clear of some sections reach what they reached. */
  ghost predicate OthersReach(v0: View, v: View, taken: seq<Section>) {
    forall p: nat | Reaches(v0, p).Some? && Clear(v0, p, taken) ::
      Reaches(v, p) == Reaches(v0, p) && p in v.guest && v.guest[p].addr == v0.guest[p].addr
  }

  /** One more section is replaced. */
  lemma OthersReachNext(v0: View, mem: Memory, v: View, mem': Memory, v': View, s: Section, first: nat,
                        taken: seq<Section>)
    requires OthersReach(v0, v, taken) && Replaceable(mem, v, s) && Replaced(mem, v, mem', v', s, first)
    ensures OthersReach(v0, v', taken + [s])
  {
    hide Replaceable;
    hide Replaced;
    forall p: nat | Reaches(v0, p).Some? && Clear(v0, p, taken + [s])
      ensures Reaches(v', p) == Reaches(v0, p) && p in v'.guest && v'.guest[p].addr == v0.guest[p].addr
    {
      assert s in taken + [s] && forall t | t in taken :: t in taken + [s];
      assert Clear(v0, p, taken);
      CopyOnWriteReach(mem, v, mem', v', s, first, p);
    }
  }

  /** What holds between faults: taken sections have copies, the others can be replaced, and all is accounted for. */
  ghost predicate Between(mem0: Memory, v0: View, listed: seq<Section>, mem: Memory, v: View, left: seq<Section>,
                          taken: seq<Section>) {
    && DataKept(mem0, v0, mem, v) && multiset(left) + multiset(taken) == multiset(listed) && AllSeparate(left + taken)
    && AllReplaceable(mem, v, left) && (forall t | t in taken :: HasCopy(mem0, mem, v, t)) && OthersReach(v0, v, taken)
  }

  lemma Taking(listed: seq<Section>, left: seq<Section>, taken: seq<Section>, k: nat)
    requires k < |left| && multiset(left) + multiset(taken) == multiset(listed) && AllSeparate(left + taken)
    ensures var left', taken' := left[..k] + left[k + 1..], taken + [left[k]];
            && multiset(left') + multiset(taken') == multiset(listed) && AllSeparate(left' + taken')
            && (forall t | t in left' :: t in left && Separate(t, left[k]))
            && (forall t | t in taken :: Separate(t, left[k])) && left[k] in listed
  {
    hide Separate;
    var s, left', taken' := left[k], left[..k] + left[k + 1..], taken + [left[k]];
    assert left == left[..k] + [s] + left[k + 1..];
    assert s in multiset(listed);
    var all, all' := left + taken, left' + taken';
    assert forall i: nat | i < |all'| :: all[Source(k, |all|, i)] == all'[i];
    forall i: nat, j: nat | i < |all'| && j < |all'| && i != j ensures Separate(all'[i], all'[j]) {
      assert Separate(all[Source(k, |all|, i)], all[Source(k, |all|, j)]);
    }
    forall t | t in left' ensures t in left && Separate(t, s) {
      var i :| 0 <= i < |left'| && left'[i] == t;
      assert Separate(all[Source(k, |all|, i)], all[k]);
    }
    forall t | t in taken ensures Separate(t, s) {
      var i :| 0 <= i < |taken| && taken[i] == t;
      assert all[|left| + i] == t;
      assert Separate(all[|left| + i], all[k]);
    }
  }

  /** Where a section was before the one at k went to the end. */
  function Source(k: nat, n: nat, i: nat): (i': nat) {
    if i < k then i else if i + 1 < n then i + 1 else k
  }

  /** A fault that replaces a section keeps what holds between faults. */
  lemma BetweenNext(mem0: Memory, v0: View, listed: seq<Section>, mem: Memory, v: View, left: seq<Section>,
                    taken: seq<Section>, mem': Memory, v': View, k: nat, first: nat)
    requires AllReplaceable(mem0, v0, listed) && Between(mem0, v0, listed, mem, v, left, taken) && k < |left|
    requires Replaced(mem, v, mem', v', left[k], first)
    ensures Between(mem0, v0, listed, mem', v', left[..k] + left[k + 1..], taken + [left[k]])
  {
    hide Replaceable;
    hide Separate;
    hide HasCopy;
    hide AllSeparate;
    hide OthersReach;
    var s, left' := left[k], left[..k] + left[k + 1..];
    Taking(listed, left, taken, k);
    assert DataKept(mem, v, mem', v');
    hide Replaced;
    DataKeptTwice(mem0, v0, mem, v, mem', v');
    hide DataKept;
    forall t | t in left' ensures Replaceable(mem', v', t) {
      StillReplaceable(mem, v, mem', v', s, first, t);
    }
    forall t | t in taken ensures HasCopy(mem0, mem', v', t) {
      CopyStays(mem0, mem, v, mem', v', s, first, t);
    }
    CopyMade(mem0, v0, mem, v, mem', v', s, first);
    OthersReachNext(v0, mem, v, mem', v', s, first, taken);
  }

  /** The guest's memory and mappings and its list of read-only sections, between two faults. */
  datatype Snapshot = Snapshot(mem: Memory, v: View, left: seq<Section>)

  ghost function Now(vm: Vm): (now: Snapshot)
    reads vm
  {
    Snapshot(vm.mem, vm.v, vm.readOnly)
  }

  predicate Hits(f: Fault, left: seq<Section>) {
    f.present && f.write && exists t | t in left :: Matches(t, f.address)
  }

  /** A fault whose replacement ran out of memory: its section is off the list, and partly mapped. */
  ghost predicate CutShort(was: Snapshot, now: Snapshot, f: Fault) {
    exists k: nat, first: nat, i: nat | k < |was.left| ::
      && Matches(was.left[k], f.address) && now.left == was.left[..k] + was.left[k + 1..]
      && Interrupted(was.v, now.v, was.left[k], first, i)
  }

  /**
  Any sequence of faults, on a machine whose read-only sections can be replaced and have no page in common. It ends
  with the first fault that is not handled, which ends the guest: one that hits no section, and changes nothing, or one
  for which memory ran out. After the faults that were handled, every section that was hit has a private copy with its
  original bytes and is off the list, once; every other section can still be replaced; and every page that maps to no
  page of a section that was hit reaches the frame it reached before. Data frames keep their words in any case.
  */
  method HandleFaults(vm: Vm, faults: seq<Fault>) returns (n: nat, ghost taken: seq<Section>, ghost after: Snapshot)
    requires vm.Valid() && CR3_PAGE in vm.v.ept
    requires AllSeparate(vm.readOnly) && AllReplaceable(vm.mem, vm.v, vm.readOnly)
    modifies vm
    ensures vm.Valid() && DataKept(old(vm.mem), old(vm.v), vm.mem, vm.v) && n <= |faults| && |taken| == n
    ensures Between(old(vm.mem), old(vm.v), old(vm.readOnly), after.mem, after.v, after.left, taken)
    ensures forall i: nat | i < n :: faults[i].present && faults[i].write && Matches(taken[i], faults[i].address)
    ensures n == |faults| || !Hits(faults[n], after.left) ==> Now(vm) == after && vm.starved == old(vm.starved)
    ensures n < |faults| && Hits(faults[n], after.left) ==> vm.starved && CutShort(after, Now(vm), faults[n])
  {
    hide Inv;
    hide DataKept;
    hide Between;
    hide Interrupted;
    hide Replaced;
    hide Replaceable;
    hide Matches;
    hide AllReplaceable;
    hide AllSeparate;
    hide CutShort;
    ghost var mem0, v0, listed := vm.mem, vm.v, vm.readOnly;
    DataKeptRefl(mem0, v0);
    StartsBetween(mem0, v0, listed);
    n, taken, after := 0, [], Now(vm);
    while n < |faults|
      invariant vm.Valid() && CR3_PAGE in vm.v.ept && DataKept(mem0, v0, vm.mem, vm.v) && n <= |faults| && |taken| == n
      invariant after == Now(vm) && Between(mem0, v0, listed, vm.mem, vm.v, vm.readOnly, taken)
      invariant forall i: nat | i < n :: faults[i].present && faults[i].write && Matches(taken[i], faults[i].address)
      invariant vm.starved == old(vm.starved)
    {
      ghost var mem1, v1, left1 := vm.mem, vm.v, vm.readOnly;
      LeftReplaceable(mem0, v0, listed, mem1, v1, left1, taken);
      ghost var s, first;
      var handled;
      handled, s, first := HandlePageFault(vm, faults[n].present, faults[n].write, faults[n].address);
      DataKeptTwice(mem0, v0, mem1, v1, vm.mem, vm.v);
      if !handled {
        if s.Some? {
          StopsShort(after, Now(vm), faults[n], s.value, first);
        }
        return;
      }
      ghost var k: nat :| k < |left1| && left1[k] == s.value && vm.readOnly == left1[..k] + left1[k + 1..];
      BetweenNext(mem0, v0, listed, mem1, v1, left1, taken, vm.mem, vm.v, k, first);
      taken := taken + [left1[k]];
      after := Now(vm);
      n := n + 1;
    }
  }

  lemma StopsShort(was: Snapshot, now: Snapshot, f: Fault, s: Section, first: nat)
    requires exists k: nat | k < |was.left| ::
               was.left[k] == s && Matches(s, f.address) && now.left == was.left[..k] + was.left[k + 1..]
    requires exists i: nat :: Interrupted(was.v, now.v, s, first, i)
    ensures CutShort(was, now, f)
  {
  }

  lemma StartsBetween(mem: Memory, v: View, listed: seq<Section>)
    requires AllSeparate(listed) && AllReplaceable(mem, v, listed)
    ensures Between(mem, v, listed, mem, v, listed, [])
  {
    assert listed + [] == listed;
    DataKeptRefl(mem, v);
    hide Replaceable;
  }

  lemma LeftReplaceable(mem0: Memory, v0: View, listed: seq<Section>, mem: Memory, v: View, left: seq<Section>,
                        taken: seq<Section>)
    requires Between(mem0, v0, listed, mem, v, left, taken)
    ensures AllReplaceable(mem, v, left)
  {
  }
}
