/**
A four-level, 512-way radix tree whose tables live in some memory.

A table is named by its position (level, id): the root is (4, 0), and the entry at index i of the
table (l, q) links to position (l - 1, 512 * q + i). Position (0, p) is page p itself. The tree is
seen only through a reader, which yields the entry at an index of a table, or None when that entry
is not present. Both page-table trees of the hypervisor are instances.
*/
module Radix {
  import opened Options
  import opened Words

  type Reader = (nat, nat) -> Option<Word>

  /** The table at a position, found by walking down from the root. */
  function Table(r: Reader, root: nat, level: nat, id: nat): (t: Option<nat>)
    requires level <= 4
    decreases 4 - level, 1
  {
    if level == 4 then
      if id == 0 then Some(root) else None
    else
      match Link(r, root, level, id)
      case None => None
      case Some(w) => Some(w.addr)
  }

  /** The entry that links to a position. */
  function Link(r: Reader, root: nat, level: nat, id: nat): (w: Option<Word>)
    requires level < 4
    decreases 4 - level, 0
  {
    match Table(r, root, level + 1, id / 512)
    case None => None
    case Some(k) => r(k, id % 512)
  }

  /** Position (l, id) is position (l0, id0) or lies in the subtree under it. */
  predicate Below(l0: nat, id0: nat, l: nat, id: nat)
    decreases 4 - l
  {
    if l >= 4 || l >= l0 then l == l0 && id == id0 else Below(l0, id0, l + 1, id / 512)
  }

  /** Two readers give the same entries for table k. */
  ghost predicate SameTable(r: Reader, r': Reader, k: nat) {
    forall j: nat | j < 512 :: r'(k, j) == r(k, j)
  }

  /** Two readers give the same entries for every table of r's tree. */
  ghost predicate SameTree(r: Reader, r': Reader, root: nat) {
    forall l: nat, id: nat | 1 <= l <= 4 && Table(r, root, l, id).Some? ::
      SameTable(r, r', Table(r, root, l, id).value)
  }

  /** r' is r with nothing changed in r's tree but the entry that links to position (l0, id0). */
  ghost predicate OneSlot(r: Reader, r': Reader, root: nat, l0: nat, id0: nat)
    requires l0 < 4
  {
    && Table(r, root, l0 + 1, id0 / 512).Some?
    && var k0 := Table(r, root, l0 + 1, id0 / 512).value;
    && (forall l: nat, id: nat | 1 <= l <= 4 && Table(r, root, l, id) == Some(k0) ::
          l == l0 + 1 && id == id0 / 512)
    && (forall l: nat, id: nat | 1 <= l <= 4 && Table(r, root, l, id).Some? && Table(r, root, l, id).value != k0 ::
          SameTable(r, r', Table(r, root, l, id).value))
    && (forall j: nat | j < 512 && j != id0 % 512 :: r'(k0, j) == r(k0, j))
  }

  lemma {:induction false} SameTreeSamePlace(r: Reader, r': Reader, root: nat, l: nat, id: nat)
    requires l <= 4 && SameTree(r, r', root)
    ensures Table(r', root, l, id) == Table(r, root, l, id)
    ensures l < 4 ==> Link(r', root, l, id) == Link(r, root, l, id)
    decreases 4 - l
  {
  }

  /** What is not below a changed entry does not move. */
  lemma {:induction false} OutsideUnchanged(r: Reader, r': Reader, root: nat, l0: nat, id0: nat, l: nat, id: nat)
    requires l0 < 4 && l <= 4 && OneSlot(r, r', root, l0, id0)
    requires !Below(l0, id0, l, id)
    ensures Table(r', root, l, id) == Table(r, root, l, id)
    ensures l < 4 ==> Link(r', root, l, id) == Link(r, root, l, id)
    decreases 4 - l
  {
    if l < 4 {
      OutsideUnchanged(r, r', root, l0, id0, l + 1, id / 512);
      var t := Table(r, root, l + 1, id / 512);
      var k0 := Table(r, root, l0 + 1, id0 / 512).value;
      if t.Some? {
        if t.value == k0 {
          assert id % 512 != id0 % 512;
        } else {
          assert SameTable(r, r', t.value);
        }
      }
    }
  }

  /** The table that holds the entry of a position is never below that position. */
  lemma HolderOutside(l0: nat, id0: nat)
    requires l0 < 4
    ensures !Below(l0, id0, l0 + 1, id0 / 512)
  {
  }

  /** Under an absent link there is nothing. */
  lemma {:induction false} NothingBelow(r: Reader, root: nat, l0: nat, id0: nat, l: nat, id: nat)
    requires l0 < 4 && l <= 4 && Below(l0, id0, l, id)
    requires Link(r, root, l0, id0).None?
    ensures Table(r, root, l, id).None?
    ensures l < 4 ==> Link(r, root, l, id).None?
    decreases 4 - l
  {
  }

  /** Under an empty table there is nothing. */
  lemma {:induction false} NothingUnderEmpty(r: Reader, root: nat, l0: nat, id0: nat, l: nat, id: nat)
    requires 1 <= l0 <= 4 && l < l0 && Below(l0, id0, l, id)
    requires Table(r, root, l0, id0).Some?
    requires forall j: nat | j < 512 :: r(Table(r, root, l0, id0).value, j).None?
    ensures Table(r, root, l, id).None? && Link(r, root, l, id).None?
    decreases 4 - l
  {
  }

  /** Rewriting a leaf entry changes the translation of that one page and no table. */
  lemma StoreLeaf(r: Reader, r': Reader, root: nat, p: nat)
    requires OneSlot(r, r', root, 0, p)
    ensures forall l: nat, id: nat | 1 <= l <= 4 :: Table(r', root, l, id) == Table(r, root, l, id)
    ensures forall q: nat | q != p :: Link(r', root, 0, q) == Link(r, root, 0, q)
    ensures Link(r', root, 0, p) == r'(Table(r, root, 1, p / 512).value, p % 512)
  {
  }

  /** Linking a new empty table moves no other table and changes no page's translation. */
  lemma LinkEmptyTable(r: Reader, r': Reader, root: nat, l0: nat, id0: nat)
    requires 1 <= l0 < 4 && OneSlot(r, r', root, l0, id0)
    requires Link(r, root, l0, id0).None?
    requires r'(Table(r, root, l0 + 1, id0 / 512).value, id0 % 512).Some?
    requires var n := r'(Table(r, root, l0 + 1, id0 / 512).value, id0 % 512).value.addr;
             forall j: nat | j < 512 :: r'(n, j).None?
    ensures Link(r', root, l0, id0) == r'(Table(r, root, l0 + 1, id0 / 512).value, id0 % 512)
    ensures forall l: nat, id: nat | 1 <= l <= 4 && (l != l0 || id != id0) ::
              Table(r', root, l, id) == Table(r, root, l, id)
    ensures forall p: nat :: Link(r', root, 0, p) == Link(r, root, 0, p)
  {
    HolderOutside(l0, id0);
    OutsideUnchanged(r, r', root, l0, id0, l0 + 1, id0 / 512);
    forall l: nat, id: nat | l <= 4 && (l != l0 || id != id0)
      ensures Table(r', root, l, id) == Table(r, root, l, id)
      ensures l == 0 ==> Link(r', root, l, id) == Link(r, root, l, id)
    {
      if Below(l0, id0, l, id) {
        NothingBelow(r, root, l0, id0, l, id);
        NothingUnderEmpty(r', root, l0, id0, l, id);
      } else {
        OutsideUnchanged(r, r', root, l0, id0, l, id);
      }
    }
    forall p: nat ensures Link(r', root, 0, p) == Link(r, root, 0, p) {
      assert Table(r', root, 0, p) == Table(r, root, 0, p);
    }
  }

  /** Unlinking an empty table moves no other table and changes no page's translation. */
  lemma UnlinkEmptyTable(r: Reader, r': Reader, root: nat, l0: nat, id0: nat)
    requires 1 <= l0 < 4 && OneSlot(r, r', root, l0, id0)
    requires Table(r, root, l0, id0).Some?
    requires forall j: nat | j < 512 :: r(Table(r, root, l0, id0).value, j).None?
    requires r'(Table(r, root, l0 + 1, id0 / 512).value, id0 % 512).None?
    ensures Table(r', root, l0, id0).None?
    ensures forall l: nat, id: nat | 1 <= l <= 4 && (l != l0 || id != id0) ::
              Table(r', root, l, id) == Table(r, root, l, id)
    ensures forall p: nat :: Link(r', root, 0, p) == Link(r, root, 0, p)
  {
    HolderOutside(l0, id0);
    OutsideUnchanged(r, r', root, l0, id0, l0 + 1, id0 / 512);
    forall l: nat, id: nat | l <= 4 && (l != l0 || id != id0)
      ensures Table(r', root, l, id) == Table(r, root, l, id)
      ensures l == 0 ==> Link(r', root, l, id) == Link(r, root, l, id)
    {
      if Below(l0, id0, l, id) {
        NothingBelow(r', root, l0, id0, l, id);
        NothingUnderEmpty(r, root, l0, id0, l, id);
      } else {
        OutsideUnchanged(r, r', root, l0, id0, l, id);
      }
    }
    forall p: nat ensures Link(r', root, 0, p) == Link(r, root, 0, p) {
      assert Table(r', root, 0, p) == Table(r, root, 0, p);
    }
  }

  /** Positions that are not under the root hold nothing. */
  lemma {:induction false} OffTheTree(r: Reader, root: nat, l: nat, id: nat)
    requires l <= 4 && !Below(4, 0, l, id)
    ensures Table(r, root, l, id).None?
    decreases 4 - l
  {
    if l < 4 {
      OffTheTree(r, root, l + 1, id / 512);
    }
  }

  type Pos = (nat, nat)
  type Nodes = map<Pos, nat>
  type Leaves = map<nat, Word>

  function Get<K, V>(m: map<K, V>, k: K): (v: Option<V>) {
    if k in m then Some(m[k]) else None
  }

  /** The tree flattened: its tables by position, and the leaf entries by page. */
  ghost predicate Is(r: Reader, root: nat, nodes: Nodes, leaves: Leaves) {
    && (forall l: nat, id: nat {:trigger Table(r, root, l, id)} | 1 <= l <= 4 ::
          Table(r, root, l, id) == Get(nodes, (l, id)))
    && (forall p: nat {:trigger Link(r, root, 0, p)} :: Link(r, root, 0, p) == Get(leaves, p))
    && (forall q: Pos | q in nodes :: 1 <= q.0 <= 4)
  }

  /** r' is r on every entry of every table, but for entry i0 of the table at q0, which has no other position. */
  ghost predicate OneEntry(r: Reader, r': Reader, nodes: Nodes, q0: Pos, i0: nat) {
    && q0 in nodes
    && (forall q: Pos | q in nodes && nodes[q] == nodes[q0] :: q == q0)
    && (forall q: Pos, j: nat | q in nodes && j < 512 && (q != q0 || j != i0) :: r'(nodes[q], j) == r(nodes[q], j))
  }

  lemma OneEntrySlot(r: Reader, r': Reader, root: nat, nodes: Nodes, leaves: Leaves, l: nat, id: nat)
    requires l < 4 && Is(r, root, nodes, leaves) && OneEntry(r, r', nodes, (l + 1, id / 512), id % 512)
    ensures OneSlot(r, r', root, l, id)
  {
  }

  /** Same entries in every table: same tree. */
  lemma SameIs(r: Reader, r': Reader, root: nat, nodes: Nodes, leaves: Leaves)
    requires Is(r, root, nodes, leaves)
    requires forall q: Pos, j: nat | q in nodes && j < 512 :: r'(nodes[q], j) == r(nodes[q], j)
    ensures Is(r', root, nodes, leaves)
  {
    forall l: nat, id: nat | 1 <= l <= 4 && Table(r, root, l, id).Some?
      ensures SameTable(r, r', Table(r, root, l, id).value)
    {
      assert (l, id) in nodes && nodes[(l, id)] == Table(r, root, l, id).value;
    }
    forall l: nat, id: nat | 1 <= l <= 4 ensures Table(r', root, l, id) == Get(nodes, (l, id)) {
      SameTreeSamePlace(r, r', root, l, id);
    }
    forall p: nat ensures Link(r', root, 0, p) == Get(leaves, p) {
      SameTreeSamePlace(r, r', root, 0, p);
    }
  }

  /** Rewriting the leaf entry of page p changes the translation of p alone. */
  lemma StoreIs(r: Reader, r': Reader, root: nat, nodes: Nodes, leaves: Leaves, p: nat)
    requires Is(r, root, nodes, leaves) && OneEntry(r, r', nodes, (1, p / 512), p % 512)
    ensures Is(r', root, nodes,
               match r'(nodes[(1, p / 512)], p % 512) case None => leaves - {p} case Some(w) => leaves[p := w])
  {
    OneEntrySlot(r, r', root, nodes, leaves, 0, p);
    StoreLeaf(r, r', root, p);
    assert Table(r, root, 1, p / 512) == Some(nodes[(1, p / 512)]);
  }

  /** Linking an empty table adds it and changes no translation. */
  lemma LinkIs(r: Reader, r': Reader, root: nat, nodes: Nodes, leaves: Leaves, l: nat, id: nat, w: Word)
    requires 1 <= l < 4 && Is(r, root, nodes, leaves) && OneEntry(r, r', nodes, (l + 1, id / 512), id % 512)
    requires r(nodes[(l + 1, id / 512)], id % 512).None? && r'(nodes[(l + 1, id / 512)], id % 512) == Some(w)
    requires forall j: nat | j < 512 :: r'(w.addr, j).None?
    ensures (l, id) !in nodes && Is(r', root, nodes[(l, id) := w.addr], leaves)
  {
    OneEntrySlot(r, r', root, nodes, leaves, l, id);
    assert Table(r, root, l + 1, id / 512) == Some(nodes[(l + 1, id / 512)]);
    LinkEmptyTable(r, r', root, l, id);
    assert Table(r, root, l, id) == Get(nodes, (l, id));
  }

  /** Unlinking an empty table drops it and changes no translation. */
  lemma UnlinkIs(r: Reader, r': Reader, root: nat, nodes: Nodes, leaves: Leaves, l: nat, id: nat)
    requires 1 <= l < 4 && Is(r, root, nodes, leaves) && OneEntry(r, r', nodes, (l + 1, id / 512), id % 512)
    requires (l, id) in nodes && forall j: nat | j < 512 :: r(nodes[(l, id)], j).None?
    requires r'(nodes[(l + 1, id / 512)], id % 512).None?
    ensures Is(r', root, nodes - {(l, id)}, leaves)
  {
    OneEntrySlot(r, r', root, nodes, leaves, l, id);
    assert Table(r, root, l + 1, id / 512) == Some(nodes[(l + 1, id / 512)]);
    assert Table(r, root, l, id) == Some(nodes[(l, id)]);
    UnlinkEmptyTable(r, r', root, l, id);
  }

  /** A root whose entries are all absent is the whole tree. */
  lemma EmptyIs(r: Reader, root: nat)
    requires forall j: nat | j < 512 :: r(root, j).None?
    ensures Is(r, root, map[(4, 0) := root], map[])
  {
    forall l: nat, id: nat | l < 4 ensures Table(r, root, l, id).None? && Link(r, root, l, id).None? {
      if Below(4, 0, l, id) {
        NothingUnderEmpty(r, root, 4, 0, l, id);
      } else {
        OffTheTree(r, root, l, id);
        OffTheTree(r, root, l + 1, id / 512);
      }
    }
  }

  /** One step of a walk: the entry that links a position is found in the table above it. */
  lemma WalkStep(r: Reader, root: nat, nodes: Nodes, leaves: Leaves, l: nat, id: nat)
    requires l < 4 && Is(r, root, nodes, leaves)
    ensures l > 0 && (l + 1, id / 512) in nodes ==>
              Get(nodes, (l, id)) ==
              match r(nodes[(l + 1, id / 512)], id % 512) case None => None case Some(w) => Some(w.addr)
    ensures l > 0 && (l + 1, id / 512) !in nodes ==> (l, id) !in nodes
    ensures l == 0 && (1, id / 512) in nodes ==> Get(leaves, id) == r(nodes[(1, id / 512)], id % 512)
    ensures l == 0 && (1, id / 512) !in nodes ==> id !in leaves
    ensures Get(nodes, (4, 0)) == Some(root)
  {
    assert Table(r, root, l + 1, id / 512) == Get(nodes, (l + 1, id / 512));
    if l > 0 {
      assert Table(r, root, l, id) == Get(nodes, (l, id));
      assert Table(r, root, l, id) == match Link(r, root, l, id) case None => None case Some(w) => Some(w.addr);
    }
    assert l == 0 ==> Link(r, root, 0, id) == Get(leaves, id);
    assert Table(r, root, 4, 0) == Get(nodes, (4, 0));
  }

  /** The flattened form is determined by the tree. */
  lemma IsUnique(r: Reader, root: nat, nodes: Nodes, leaves: Leaves, nodes': Nodes, leaves': Leaves)
    requires Is(r, root, nodes, leaves) && Is(r, root, nodes', leaves')
    ensures nodes == nodes' && leaves == leaves'
  {
    forall q: Pos ensures Get(nodes, q) == Get(nodes', q) {
      if 1 <= q.0 <= 4 {
        assert Table(r, root, q.0, q.1) == Get(nodes, (q.0, q.1)) == Get(nodes', (q.0, q.1));
      }
    }
    SameGetSameMap(nodes, nodes');
    forall p: nat ensures Get(leaves, p) == Get(leaves', p) {
      assert Link(r, root, 0, p) == Get(leaves, p) == Get(leaves', p);
    }
    SameGetSameMap(leaves, leaves');
  }

  lemma SameGetSameMap<K(!new), V>(m: map<K, V>, m': map<K, V>)
    requires forall k :: Get(m, k) == Get(m', k)
    ensures m == m'
  {
    assert forall k :: (k in m <==> Get(m, k).Some?) && (k in m' <==> Get(m', k).Some?);
    assert forall k | k in m :: m[k] == Get(m, k).value && m'[k] == Get(m', k).value;
  }
}
