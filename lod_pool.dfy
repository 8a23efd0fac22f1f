/**
 * The level-of-detail (LOD) texture of both tsne.js viewers: a pool of
 * fixed-size square slots in one large texture. A free list (openCoords)
 * hands out slots to nearby cells; each assignment is filed twice, under the
 * cell index (cellIdxToCoords) and under the cell's grid key
 * (gridPosToCoords); unloading a grid key hands all of its slots back.
 *
 * The pool part of the state is captured by the value `Pool`; the class `Lod`
 * keeps the source's fields and each of its methods is proved against a
 * function on `Pool`. The central invariant `Partition` says that free and
 * assigned slots split the slot set between them, each slot exactly once.
 */
module LodPool {
  import opened IntMath
  import opened GridLayout

  /** A slot's top-left pixel in the LOD texture. */
  datatype Slot = Slot(x: nat, y: nat)
  /** A grid key; the source writes it as the string "x.y". */
  datatype Key = Key(x: int, y: int)
  /** A texture coordinate object once a cell index has been stored in it. */
  datatype Entry = Entry(slot: Slot, cellIdx: nat)
  /**
   * The camera's grid position: `{x: null, y: null}` before the first
   * update (null counts as 0 in arithmetic), a grid cell, or +Infinity on
   * both axes after `clear`.
   */
  datatype GridPos = Unset | At(x: int, y: int) | Infinite

  function Abs(a: int): nat
  {
    if a < 0 then -a else a
  }

  predicate Distinct<T(==)>(s: seq<T>)
  {
    forall i, j :: 0 <= i < j < |s| ==> s[i] != s[j]
  }

  // ---------------------------------------------------------------------
  // getOpenTexCoords
  // ---------------------------------------------------------------------

  /** The slot at row-major position i of a grid n slots wide, s pixels per slot. */
  function SlotAt(i: nat, n: nat, s: nat): Slot
    requires n >= 1
  {
    var c := GridCell(i, n);
    Slot(c.x * s, c.y * s)
  }

  lemma SlotAtInjective(i: nat, j: nat, n: nat, s: nat)
    requires n >= 1 && s >= 1 && SlotAt(i, n, s) == SlotAt(j, n, s)
    ensures i == j
  {
    var a, b := GridCell(i, n), GridCell(j, n);
    MulCancel(a.x, b.x, s);
    MulCancel(a.y, b.y, s);
    GridCellInjective(i, j, n);
  }

  /** `k < lodTexture / lodCell` on exact values: the loop guard of getOpenTexCoords. */
  lemma PerDimension(k: nat, lodTexture: nat, lodCell: nat)
    requires lodCell >= 1
    ensures k * lodCell < lodTexture <==> k < CeilDiv(lodTexture, lodCell)
  {
    var n := CeilDiv(lodTexture, lodCell);
    if k < n {
      MulMonotone(n - 1, k, lodCell);
    } else {
      MulMonotone(k, n, lodCell);
    }
  }

  /**
   * getOpenTexCoords: ceil(lodTexture / lodCell) squared slots, row by row,
   * pairwise distinct; when lodCell divides lodTexture they all lie inside
   * the texture.
   */
  method GetOpenTexCoords(lodTexture: nat, lodCell: nat) returns (slots: seq<Slot>)
    requires lodCell >= 1
    ensures var n := CeilDiv(lodTexture, lodCell);
            |slots| == n * n &&
            forall i :: 0 <= i < |slots| ==> slots[i] == SlotAt(i, n, lodCell)
    ensures Distinct(slots)
    ensures lodTexture % lodCell == 0 ==>
              forall i :: 0 <= i < |slots| ==>
                slots[i].x + lodCell <= lodTexture && slots[i].y + lodCell <= lodTexture
  {
    var n := CeilDiv(lodTexture, lodCell);
    slots := [];
    var y := 0;
    PerDimension(y, lodTexture, lodCell);
    while y * lodCell < lodTexture
      invariant y <= n
      invariant |slots| == y * n
      invariant forall i :: 0 <= i < |slots| ==> slots[i] == SlotAt(i, n, lodCell)
      invariant y * lodCell < lodTexture <==> y < n
      decreases n - y
    {
      var x := 0;
      PerDimension(x, lodTexture, lodCell);
      while x * lodCell < lodTexture
        invariant x <= n
        invariant |slots| == y * n + x
        invariant forall i :: 0 <= i < |slots| ==> slots[i] == SlotAt(i, n, lodCell)
        invariant x * lodCell < lodTexture <==> x < n
        decreases n - x
      {
        DivModUnique(y * n + x, n, y, x);
        slots := slots + [Slot(x * lodCell, y * lodCell)];
        x := x + 1;
        PerDimension(x, lodTexture, lodCell);
      }
      y := y + 1;
      PerDimension(y, lodTexture, lodCell);
    }
    forall i, j | 0 <= i < j < |slots|
      ensures slots[i] != slots[j]
    {
      if slots[i] == slots[j] {
        SlotAtInjective(i, j, n, lodCell);
      }
    }
    if lodTexture % lodCell == 0 {
      forall i | 0 <= i < |slots|
        ensures slots[i].x + lodCell <= lodTexture && slots[i].y + lodCell <= lodTexture
      {
        SlotInTexture(i, lodTexture, lodCell);
      }
    }
  }

  lemma SlotInTexture(i: nat, lodTexture: nat, lodCell: nat)
    requires lodCell >= 1 && lodTexture % lodCell == 0
    requires i < CeilDiv(lodTexture, lodCell) * CeilDiv(lodTexture, lodCell)
    ensures var s := SlotAt(i, CeilDiv(lodTexture, lodCell), lodCell);
            s.x + lodCell <= lodTexture && s.y + lodCell <= lodTexture
  {
    var n := CeilDiv(lodTexture, lodCell);
    var c := GridCell(i, n);
    CeilDivExact(lodTexture, lodCell);
    RowBelow(i, n, c.x, c.y);
    SideFits(c.x, n, lodCell, lodTexture);
    SideFits(c.y, n, lodCell, lodTexture);
  }

  /** Position i < n * n of a row-major grid n wide lies in a row below n. */
  lemma RowBelow(i: nat, n: nat, x: nat, y: nat)
    requires i < n * n && y * n + x == i
    ensures y < n
  {
    if y >= n {
      MulMonotone(y, n, n);
      assert false;
    }
  }

  /** A slot k < n whole cells from the edge of an n-cell texture fits inside it. */
  lemma SideFits(k: nat, n: nat, s: nat, t: nat)
    requires k < n && n * s == t
    ensures k * s + s <= t
  {
    MulMonotone(n, k + 1, s);
  }

  // ---------------------------------------------------------------------
  // The pool and its partition invariant
  // ---------------------------------------------------------------------

  /**
   * The pool part of the LOD state: the free list, the slots filed per grid
   * key, the grid keys in `Object.keys` order (insertion order: no key of the
   * form "x.y" is an array index) and the slot of each assigned cell.
   */
  datatype Pool = Pool(open: seq<Slot>, byKey: map<Key, seq<Entry>>, keys: seq<Key>,
                       byCell: map<nat, Entry>)

  function Free(p: Pool): set<Slot>
  {
    SlotsIn(p.open)
  }

  function Taken(p: Pool): set<Slot>
  {
    SlotSet(p.byCell)
  }

  /** Every grid key is listed once in `keys`, and `keys` lists only grid keys. */
  ghost predicate KeysListed(p: Pool)
  {
    Distinct(p.keys) && forall k :: k in p.byKey <==> k in p.keys
  }

  /** The two filings agree: an entry is under key k iff it is its cell's entry and k its cell's key. */
  ghost predicate Filing(p: Pool, cellGrid: seq<Key>)
  {
    (forall k, i :: k in p.byKey && 0 <= i < |p.byKey[k]| ==>
       var e := p.byKey[k][i];
       e.cellIdx in p.byCell && p.byCell[e.cellIdx] == e &&
       e.cellIdx < |cellGrid| && cellGrid[e.cellIdx] == k) &&
    (forall k, i, j :: k in p.byKey && 0 <= i < j < |p.byKey[k]| ==>
       p.byKey[k][i].cellIdx != p.byKey[k][j].cellIdx) &&
    (forall c :: c in p.byCell ==>
       c < |cellGrid| && p.byCell[c].cellIdx == c &&
       cellGrid[c] in p.byKey && p.byCell[c] in p.byKey[cellGrid[c]])
  }

  /** No slot is free twice, assigned twice, or both free and assigned. */
  ghost predicate SlotsDisjoint(p: Pool)
  {
    Distinct(p.open) &&
    (forall c, d :: c in p.byCell && d in p.byCell && c != d ==>
       p.byCell[c].slot != p.byCell[d].slot) &&
    (forall i, c :: 0 <= i < |p.open| && c in p.byCell ==> p.open[i] != p.byCell[c].slot)
  }

  /** Free and assigned slots partition `all`. */
  ghost predicate Partition(p: Pool, all: set<Slot>, cellGrid: seq<Key>)
  {
    KeysListed(p) && Filing(p, cellGrid) && SlotsDisjoint(p) && Free(p) + Taken(p) == all
  }

  /** The pool the constructor starts from. */
  function Initial(slots: seq<Slot>): Pool
  {
    Pool(slots, map[], [], map[])
  }

  lemma InitialPartition(slots: seq<Slot>, cellGrid: seq<Key>)
    requires Distinct(slots)
    ensures var p := Initial(slots);
            Partition(p, Free(p), cellGrid) && |Free(p)| == |slots|
  {
    DistinctCard(slots);
  }

  lemma {:induction false} DistinctCard<T>(s: seq<T>)
    requires Distinct(s)
    ensures |set i | 0 <= i < |s| :: s[i]| == |s|
  {
    if s != [] {
      var t := s[..|s| - 1];
      DistinctCard(t);
      var last := s[|s| - 1];
      assert (set i | 0 <= i < |s| :: s[i]) == (set i | 0 <= i < |t| :: t[i]) + {last};
      assert last !in (set i | 0 <= i < |t| :: t[i]);
    }
  }

  // ---------------------------------------------------------------------
  // addCellToLodTexture
  // ---------------------------------------------------------------------

  /** `if (!gridStore[gridKey]) gridStore[gridKey] = []`: a new key goes last. */
  function WithKey(p: Pool, k: Key): Pool
  {
    if k in p.byKey then p else p.(byKey := p.byKey[k := []], keys := p.keys + [k])
  }

  /** addCellToLodTexture: file cell c's entry for `slot` under key k and under c. */
  function WithCell(p: Pool, slot: Slot, c: nat, k: Key): Pool
  {
    var q := WithKey(p, k);
    q.(byKey := q.byKey[k := q.byKey[k] + [Entry(slot, c)]],
       byCell := q.byCell[c := Entry(slot, c)])
  }

  /** `openCoords.shift()` followed by addCellToLodTexture. */
  function Take(p: Pool, c: nat, k: Key): Pool
    requires |p.open| > 0
  {
    WithCell(p.(open := p.open[1..]), p.open[0], c, k)
  }

  lemma WithKeyPartition(p: Pool, all: set<Slot>, cellGrid: seq<Key>, k: Key)
    requires Partition(p, all, cellGrid)
    ensures Partition(WithKey(p, k), all, cellGrid)
    ensures k in WithKey(p, k).byKey
  {
    var q := WithKey(p, k);
    assert Free(q) == Free(p) && Taken(q) == Taken(p);
  }

  /** The list under key k before a push: `[]` for a key that is not there yet. */
  function Listed(p: Pool, k: Key): seq<Entry>
  {
    if k in p.byKey then p.byKey[k] else []
  }

  lemma TakeShape(p: Pool, c: nat, k: Key)
    requires |p.open| > 0
    ensures var q := Take(p, c, k);
            q.open == p.open[1..] &&
            q.byCell == p.byCell[c := Entry(p.open[0], c)] &&
            q.byKey == p.byKey[k := Listed(p, k) + [Entry(p.open[0], c)]] &&
            q.keys == (if k in p.byKey then p.keys else p.keys + [k])
  {
  }

  /** Filing a new cell's entry under its own key keeps the two filings in agreement. */
  lemma AddFiling(p: Pool, q: Pool, cellGrid: seq<Key>, e: Entry)
    requires Filing(p, cellGrid)
    requires e.cellIdx < |cellGrid| && e.cellIdx !in p.byCell
    requires q.byCell == p.byCell[e.cellIdx := e]
    requires q.byKey == p.byKey[cellGrid[e.cellIdx] := Listed(p, cellGrid[e.cellIdx]) + [e]]
    ensures Filing(q, cellGrid)
  {
    var c, k := e.cellIdx, cellGrid[e.cellIdx];
    forall k', i | k' in q.byKey && 0 <= i < |q.byKey[k']|
      ensures var e' := q.byKey[k'][i];
              e'.cellIdx in q.byCell && q.byCell[e'.cellIdx] == e' &&
              e'.cellIdx < |cellGrid| && cellGrid[e'.cellIdx] == k'
    {
      if k' == k && i == |q.byKey[k']| - 1 {
        assert q.byKey[k'][i] == e;
      } else {
        assert q.byKey[k'][i] == p.byKey[k'][i];
      }
    }
    forall k', i, j | k' in q.byKey && 0 <= i < j < |q.byKey[k']|
      ensures q.byKey[k'][i].cellIdx != q.byKey[k'][j].cellIdx
    {
      assert q.byKey[k'][i] == p.byKey[k'][i];
      if !(k' == k && j == |q.byKey[k']| - 1) {
        assert q.byKey[k'][j] == p.byKey[k'][j];
      }
    }
    forall d | d in q.byCell
      ensures d < |cellGrid| && q.byCell[d].cellIdx == d &&
              cellGrid[d] in q.byKey && q.byCell[d] in q.byKey[cellGrid[d]]
    {
      if d == c {
        assert q.byKey[k][|q.byKey[k]| - 1] == e;
      } else {
        var l := p.byKey[cellGrid[d]];
        var i :| 0 <= i < |l| && l[i] == p.byCell[d];
        assert q.byKey[cellGrid[d]][i] == l[i];
      }
    }
  }

  /** Moving the first free slot to a new cell keeps the slots disjoint and the union unchanged. */
  lemma MoveFirstSlot(p: Pool, q: Pool, c: nat)
    requires SlotsDisjoint(p) && |p.open| > 0 && c !in p.byCell
    requires q.open == p.open[1..] && q.byCell == p.byCell[c := Entry(p.open[0], c)]
    ensures SlotsDisjoint(q)
    ensures Free(q) == Free(p) - {p.open[0]} && Taken(q) == Taken(p) + {p.open[0]}
  {
    assert Free(p) == Free(q) + {p.open[0]} by {
      forall s | s in Free(p) ensures s in Free(q) + {p.open[0]} {
        var i :| 0 <= i < |p.open| && p.open[i] == s;
        if i > 0 {
          assert q.open[i - 1] == s;
        }
      }
    }
    assert p.open[0] !in Free(q);
    assert Taken(q) == Taken(p) + {p.open[0]} by {
      forall s | s in Taken(q) ensures s in Taken(p) + {p.open[0]} {
        var d :| d in q.byCell && q.byCell[d].slot == s;
      }
      forall s | s in Taken(p) ensures s in Taken(q) {
        var d :| d in p.byCell && p.byCell[d].slot == s;
        assert q.byCell[d] == p.byCell[d];
      }
      assert q.byCell[c].slot == p.open[0];
    }
  }

  /**
   * Taking the first free slot for an unassigned cell keeps the partition:
   * the slot leaves the free list and becomes the cell's slot, nothing else
   * moves.
   */
  /** The part of TakePartition the LOD object's invariant needs. */
  lemma TakeKeepsPartition(p: Pool, all: set<Slot>, cellGrid: seq<Key>, c: nat)
    requires Partition(p, all, cellGrid)
    requires |p.open| > 0 && c < |cellGrid| && c !in p.byCell
    ensures Partition(Take(p, c, cellGrid[c]), all, cellGrid)
  {
    TakePartition(p, all, cellGrid, c);
  }

  lemma TakePartition(p: Pool, all: set<Slot>, cellGrid: seq<Key>, c: nat)
    requires Partition(p, all, cellGrid)
    requires |p.open| > 0 && c < |cellGrid| && c !in p.byCell
    ensures var q := Take(p, c, cellGrid[c]);
            Partition(q, all, cellGrid) &&
            q.open == p.open[1..] &&
            c in q.byCell && q.byCell[c].slot == p.open[0] &&
            (forall d :: d in p.byCell ==> d in q.byCell && q.byCell[d] == p.byCell[d]) &&
            (forall d :: d in q.byCell ==> d in p.byCell || d == c) &&
            Free(q) == Free(p) - {p.open[0]} && Taken(q) == Taken(p) + {p.open[0]}
  {
    var q := Take(p, c, cellGrid[c]);
    TakeShape(p, c, cellGrid[c]);
    FileFirstSlot(p, q, all, cellGrid, c);
  }

  /** Any pool shaped as Take leaves it is still a partition, with the first open slot moved to the taken ones. */
  lemma FileFirstSlot(p: Pool, q: Pool, all: set<Slot>, cellGrid: seq<Key>, c: nat)
    requires Partition(p, all, cellGrid)
    requires |p.open| > 0 && c < |cellGrid| && c !in p.byCell
    requires q.open == p.open[1..] && q.byCell == p.byCell[c := Entry(p.open[0], c)]
    requires q.byKey == p.byKey[cellGrid[c] := Listed(p, cellGrid[c]) + [Entry(p.open[0], c)]]
    requires q.keys == (if cellGrid[c] in p.byKey then p.keys else p.keys + [cellGrid[c]])
    ensures Partition(q, all, cellGrid)
    ensures Free(q) == Free(p) - {p.open[0]} && Taken(q) == Taken(p) + {p.open[0]}
  {
    assert q.byKey.Keys == p.byKey.Keys + {cellGrid[c]};
    PushKeysListed(p, q, cellGrid[c]);
    AddFiling(p, q, cellGrid, Entry(p.open[0], c));
    MoveFirstSlot(p, q, c);
  }

  /** Pushing onto key k's list, and listing k when it is new, keeps every key listed once. */
  lemma PushKeysListed(p: Pool, q: Pool, k: Key)
    requires KeysListed(p)
    requires q.byKey.Keys == p.byKey.Keys + {k}
    requires q.keys == (if k in p.byKey then p.keys else p.keys + [k])
    ensures KeysListed(q)
  {
    if k !in p.byKey {
      assert k !in p.keys;
    }
  }

  // ---------------------------------------------------------------------
  // unloadGridPos
  // ---------------------------------------------------------------------

  function CellSet(es: seq<Entry>): set<nat>
  {
    set i | 0 <= i < |es| :: es[i].cellIdx
  }

  /** Deleting one more entry's cell from a map, as unloadGridPos's loop does. */
  lemma CellSetSnoc(m: map<nat, Entry>, es: seq<Entry>, j: nat)
    requires j < |es|
    ensures m - CellSet(es[..j + 1]) == (m - CellSet(es[..j])) - {es[j].cellIdx}
  {
    assert CellSet(es[..j + 1]) == CellSet(es[..j]) + {es[j].cellIdx} by {
      assert forall i :: 0 <= i < j ==> es[..j + 1][i] == es[..j][i];
      assert es[..j + 1][j] == es[j];
    }
  }

  function SlotsOf(es: seq<Entry>): (r: seq<Slot>)
    ensures |r| == |es| && forall i :: 0 <= i < |es| ==> r[i] == es[i].slot
  {
    seq(|es|, i requires 0 <= i < |es| => es[i].slot)
  }

  /** The keys in order without k (`delete` on an object keeps the others' order). */
  function Remove(ks: seq<Key>, k: Key): (r: seq<Key>)
    ensures forall x :: x in r <==> x in ks && x != k
    ensures Distinct(ks) ==> Distinct(r)
  {
    if ks == [] then []
    else if ks[0] == k then Remove(ks[1..], k)
    else
      var r := Remove(ks[1..], k);
      assert Distinct(ks) ==> ks[0] !in ks[1..];
      [ks[0]] + r
  }

  /**
   * unloadGridPos: delete the cell entry of every coordinate filed under k,
   * delete k, and append k's slots, in their filing order, to the free list.
   */
  function WithoutKey(p: Pool, k: Key): Pool
    requires k in p.byKey
  {
    var toUnload := p.byKey[k];
    Pool(p.open + SlotsOf(toUnload), p.byKey - {k}, Remove(p.keys, k),
         p.byCell - CellSet(toUnload))
  }

  /** The cells listed under k are exactly the assigned cells whose grid key is k. */
  lemma ListedCells(p: Pool, cellGrid: seq<Key>, k: Key)
    requires Filing(p, cellGrid) && k in p.byKey
    ensures forall c :: c in CellSet(p.byKey[k]) ==> c in p.byCell
    ensures forall c :: c in p.byCell ==> (c in CellSet(p.byKey[k]) <==> cellGrid[c] == k)
  {
    var toUnload := p.byKey[k];
    forall c | c in p.byCell
      ensures c in CellSet(toUnload) <==> cellGrid[c] == k
    {
      if cellGrid[c] == k {
        var i :| 0 <= i < |toUnload| && toUnload[i] == p.byCell[c];
        assert toUnload[i].cellIdx == c;
      }
    }
  }

  lemma WithoutKeyFiling(p: Pool, cellGrid: seq<Key>, k: Key)
    requires KeysListed(p) && Filing(p, cellGrid) && k in p.byKey
    ensures KeysListed(WithoutKey(p, k)) && Filing(WithoutKey(p, k), cellGrid)
  {
    ListedCells(p, cellGrid, k);
  }

  /** The slots of key k, read off the cell filing. */
  function SlotsUnder(p: Pool, cellGrid: seq<Key>, k: Key): set<Slot>
  {
    set c | c in p.byCell && c < |cellGrid| && cellGrid[c] == k :: p.byCell[c].slot
  }

  lemma WithoutKeyFreeDistinct(p: Pool, cellGrid: seq<Key>, k: Key)
    requires Filing(p, cellGrid) && SlotsDisjoint(p) && k in p.byKey
    ensures Distinct(WithoutKey(p, k).open)
  {
    var toUnload := p.byKey[k];
    var q := WithoutKey(p, k);
    forall i, j | 0 <= i < j < |q.open| ensures q.open[i] != q.open[j] {
      if j >= |p.open| {
        var cj := toUnload[j - |p.open|].cellIdx;
        if i >= |p.open| {
          var ci := toUnload[i - |p.open|].cellIdx;
          assert ci != cj;
        } else {
          assert q.open[j] == p.byCell[cj].slot;
        }
      }
    }
  }

  lemma WithoutKeyDisjoint(p: Pool, cellGrid: seq<Key>, k: Key)
    requires Filing(p, cellGrid) && SlotsDisjoint(p) && k in p.byKey
    ensures SlotsDisjoint(WithoutKey(p, k))
  {
    WithoutKeyFreeDistinct(p, cellGrid, k);
    var toUnload := p.byKey[k];
    var q := WithoutKey(p, k);
    forall i, c | 0 <= i < |q.open| && c in q.byCell
      ensures q.open[i] != q.byCell[c].slot
    {
      if i >= |p.open| {
        var ci := toUnload[i - |p.open|].cellIdx;
        assert q.open[i] == p.byCell[ci].slot;
        assert ci in CellSet(toUnload);
      }
    }
  }

  /** The slots of a list, in set form. */
  function SlotsIn(s: seq<Slot>): set<Slot>
  {
    set i | 0 <= i < |s| :: s[i]
  }

  lemma SlotsInAppend(a: seq<Slot>, b: seq<Slot>)
    ensures SlotsIn(a + b) == SlotsIn(a) + SlotsIn(b)
  {
    forall s | s in SlotsIn(a + b) ensures s in SlotsIn(a) + SlotsIn(b) {
      var i :| 0 <= i < |a + b| && (a + b)[i] == s;
      if i >= |a| {
        assert b[i - |a|] == s;
      }
    }
    forall s | s in SlotsIn(a) + SlotsIn(b) ensures s in SlotsIn(a + b) {
      if s in SlotsIn(a) {
        var i :| 0 <= i < |a| && a[i] == s;
        assert (a + b)[i] == s;
      } else {
        var i :| 0 <= i < |b| && b[i] == s;
        assert (a + b)[|a| + i] == s;
      }
    }
  }

  /** The slots listed under k are the slots of the assigned cells whose grid key is k. */
  lemma ListedSlots(p: Pool, cellGrid: seq<Key>, k: Key)
    requires Filing(p, cellGrid) && k in p.byKey
    ensures SlotsIn(SlotsOf(p.byKey[k])) == SlotsUnder(p, cellGrid, k)
  {
    var toUnload := p.byKey[k];
    var listed := SlotsOf(toUnload);
    forall s | s in SlotsIn(listed) ensures s in SlotsUnder(p, cellGrid, k) {
      var i :| 0 <= i < |listed| && listed[i] == s;
      var c := toUnload[i].cellIdx;
      assert p.byCell[c] == toUnload[i];
    }
    forall s | s in SlotsUnder(p, cellGrid, k) ensures s in SlotsIn(listed) {
      var c :| c in p.byCell && c < |cellGrid| && cellGrid[c] == k && p.byCell[c].slot == s;
      var i :| 0 <= i < |toUnload| && toUnload[i] == p.byCell[c];
      assert listed[i] == s;
    }
  }

  lemma WithoutKeyFree(p: Pool, cellGrid: seq<Key>, k: Key)
    requires Filing(p, cellGrid) && k in p.byKey
    ensures Free(WithoutKey(p, k)) == Free(p) + SlotsUnder(p, cellGrid, k)
  {
    var q := WithoutKey(p, k);
    SlotsInAppend(p.open, SlotsOf(p.byKey[k]));
    ListedSlots(p, cellGrid, k);
  }

  lemma WithoutKeyTaken(p: Pool, cellGrid: seq<Key>, k: Key)
    requires Filing(p, cellGrid) && k in p.byKey
    ensures Taken(p) == Taken(WithoutKey(p, k)) + SlotsUnder(p, cellGrid, k)
  {
    ListedCells(p, cellGrid, k);
    var q := WithoutKey(p, k);
    forall s | s in Taken(p) ensures s in Taken(q) + SlotsUnder(p, cellGrid, k) {
      var c :| c in p.byCell && p.byCell[c].slot == s;
      if cellGrid[c] != k {
        assert c in q.byCell;
      }
    }
  }

  lemma WithoutKeySlots(p: Pool, cellGrid: seq<Key>, k: Key)
    requires Filing(p, cellGrid) && SlotsDisjoint(p) && k in p.byKey
    ensures var q := WithoutKey(p, k);
            SlotsDisjoint(q) &&
            Free(q) == Free(p) + SlotsUnder(p, cellGrid, k) &&
            Taken(p) == Taken(q) + SlotsUnder(p, cellGrid, k)
  {
    WithoutKeyDisjoint(p, cellGrid, k);
    WithoutKeyFree(p, cellGrid, k);
    WithoutKeyTaken(p, cellGrid, k);
  }

  /**
   * Unloading a key keeps the partition; it unassigns exactly the cells
   * whose grid key is k, frees exactly their slots, and leaves every other
   * key and cell as it was.
   */
  lemma WithoutKeyPartition(p: Pool, all: set<Slot>, cellGrid: seq<Key>, k: Key)
    requires Partition(p, all, cellGrid) && k in p.byKey
    ensures var q := WithoutKey(p, k);
            Partition(q, all, cellGrid) &&
            (forall k' :: k' in q.byKey <==> k' in p.byKey && k' != k) &&
            (forall k' :: k' in q.byKey ==> q.byKey[k'] == p.byKey[k']) &&
            (forall c :: c in q.byCell <==> c in p.byCell && cellGrid[c] != k) &&
            (forall c :: c in q.byCell ==> q.byCell[c] == p.byCell[c]) &&
            Free(q) == Free(p) + SlotsUnder(p, cellGrid, k)
  {
    WithoutKeyFiling(p, cellGrid, k);
    WithoutKeySlots(p, cellGrid, k);
  }

  /** The distance test of `unload`: Manhattan distance from the camera above radius. */
  predicate Far(gp: GridPos, k: Key, radius: nat)
  {
    match gp
    case Unset => Abs(k.x) + Abs(k.y) > radius
    case At(x, y) => Abs(x - k.x) + Abs(y - k.y) > radius
    case Infinite => true
  }

  /** The keys a walk unloads: every key for `clear`, the far ones for `unload`. */
  predicate Drops(k: Key, gp: GridPos, radius: nat, everything: bool)
  {
    everything || Far(gp, k, radius)
  }

  /**
   * The `Object.keys(gridPosToCoords).forEach(...)` loop of `unload` and
   * `clear`: walk a snapshot of the keys and unload each key it drops.
   */
  function UnloadWhere(p: Pool, ks: seq<Key>, gp: GridPos, radius: nat, everything: bool): Pool
    requires Distinct(ks) && forall i :: 0 <= i < |ks| ==> ks[i] in p.byKey
    decreases |ks|
  {
    if ks == [] then p
    else
      var q := if Drops(ks[0], gp, radius, everything) then WithoutKey(p, ks[0]) else p;
      assert forall i :: 0 <= i < |ks| - 1 ==> ks[1..][i] != ks[0];
      UnloadWhere(q, ks[1..], gp, radius, everything)
  }

  /** Keys i and on of the snapshot are all still filed in p. */
  ghost predicate KeysFrom(p: Pool, ks: seq<Key>, i: nat)
  {
    forall j :: i <= j < |ks| ==> ks[j] in p.byKey
  }

  /**
   * One step of the key walk: key i is dropped or kept, the later keys are
   * still filed, and the walk over the rest gives the same pool.
   */
  lemma UnloadWhereStep(p: Pool, ks: seq<Key>, i: nat, gp: GridPos, radius: nat, everything: bool)
    requires Distinct(ks) && i < |ks| && KeysFrom(p, ks, i)
    ensures var q := if Drops(ks[i], gp, radius, everything) then WithoutKey(p, ks[i]) else p;
            KeysFrom(q, ks, i + 1) &&
            UnloadWhere(p, ks[i..], gp, radius, everything) == UnloadWhere(q, ks[i + 1..], gp, radius, everything)
  {
    assert ks[i..][0] == ks[i] && ks[i..][1..] == ks[i + 1..];
  }

  /**
   * Unloading over a snapshot keeps the partition, removes exactly the
   * snapshot keys it drops and the cells filed under them, and leaves every
   * other key and cell as it was.
   */
  lemma {:induction false} UnloadWherePartition(p: Pool, all: set<Slot>, cellGrid: seq<Key>,
                                                ks: seq<Key>, gp: GridPos, radius: nat,
                                                everything: bool)
    requires Partition(p, all, cellGrid)
    requires Distinct(ks) && forall i :: 0 <= i < |ks| ==> ks[i] in p.byKey
    ensures var q := UnloadWhere(p, ks, gp, radius, everything);
            Partition(q, all, cellGrid) &&
            (forall k :: k in q.byKey <==>
               k in p.byKey && !(k in ks && Drops(k, gp, radius, everything))) &&
            (forall k :: k in q.byKey ==> q.byKey[k] == p.byKey[k]) &&
            (forall c :: c in q.byCell <==>
               c in p.byCell && !(cellGrid[c] in ks && Drops(cellGrid[c], gp, radius, everything))) &&
            (forall c :: c in q.byCell ==> q.byCell[c] == p.byCell[c])
    decreases |ks|
  {
    if ks != [] {
      var q := if Drops(ks[0], gp, radius, everything) then WithoutKey(p, ks[0]) else p;
      if Drops(ks[0], gp, radius, everything) {
        WithoutKeyPartition(p, all, cellGrid, ks[0]);
      }
      assert forall i :: 0 <= i < |ks| - 1 ==> ks[1..][i] != ks[0];
      UnloadWherePartition(q, all, cellGrid, ks[1..], gp, radius, everything);
      assert forall k :: k in ks <==> k == ks[0] || k in ks[1..];
    }
  }

  /** unload: every grid key farther than radius from the camera, in key order. */
  function Unloaded(p: Pool, gp: GridPos, radius: nat): Pool
    requires KeysListed(p)
  {
    UnloadWhere(p, p.keys, gp, radius, false)
  }

  /** clear (its pool part): every grid key, in key order. */
  function Cleared(p: Pool): Pool
    requires KeysListed(p)
  {
    UnloadWhere(p, p.keys, Infinite, 0, true)
  }

  /**
   * `unload` frees exactly the keys farther than radius from the camera and
   * their cells and keeps every nearer key with its slots.
   */
  lemma UnloadFreesFarKeys(p: Pool, all: set<Slot>, cellGrid: seq<Key>, gp: GridPos, radius: nat)
    requires Partition(p, all, cellGrid)
    ensures var q := Unloaded(p, gp, radius);
            Partition(q, all, cellGrid) &&
            (forall k :: k in q.byKey <==> k in p.byKey && !Far(gp, k, radius)) &&
            (forall k :: k in q.byKey ==> q.byKey[k] == p.byKey[k]) &&
            (forall c :: c in q.byCell <==> c in p.byCell && !Far(gp, cellGrid[c], radius)) &&
            (forall c :: c in q.byCell ==> q.byCell[c] == p.byCell[c])
  {
    UnloadWherePartition(p, all, cellGrid, p.keys, gp, radius, false);
  }

  /** `clear` hands every slot back: nothing stays assigned and the free list holds the whole slot set. */
  lemma ClearFreesAll(p: Pool, all: set<Slot>, cellGrid: seq<Key>)
    requires Partition(p, all, cellGrid)
    ensures var q := Cleared(p);
            Partition(q, all, cellGrid) && q.byKey == map[] && q.byCell == map[] &&
            Free(q) == all
  {
    UnloadWherePartition(p, all, cellGrid, p.keys, Infinite, 0, true);
    var q := Cleared(p);
    assert q.byCell == map[];
    assert q.byKey == map[];
    assert Taken(q) == {};
  }

  /** Slots are conserved: free plus assigned always equals the number of slots. */
  lemma PartitionCount(p: Pool, all: set<Slot>, cellGrid: seq<Key>)
    requires Partition(p, all, cellGrid)
    ensures |p.open| + |p.byCell| == |all|
  {
    DistinctCard(p.open);
    TakenCard(p.byCell);
    assert Free(p) * Taken(p) == {};
  }

  function SlotSet(m: map<nat, Entry>): set<Slot>
  {
    set c | c in m :: m[c].slot
  }

  lemma {:induction false} TakenCard(m: map<nat, Entry>)
    requires forall c, d :: c in m && d in m && c != d ==> m[c].slot != m[d].slot
    ensures |SlotSet(m)| == |m|
    decreases |m|
  {
    if m != map[] {
      var c :| c in m;
      var m' := m - {c};
      TakenCard(m');
      SlotSetRemove(m, c);
      assert |m'.Keys| == |m.Keys| - 1;
    }
  }

  lemma SlotSetRemove(m: map<nat, Entry>, c: nat)
    requires c in m
    requires forall c, d :: c in m && d in m && c != d ==> m[c].slot != m[d].slot
    ensures SlotSet(m) == SlotSet(m - {c}) + {m[c].slot}
    ensures m[c].slot !in SlotSet(m - {c})
  {
    var m' := m - {c};
    forall s | s in SlotSet(m) ensures s in SlotSet(m') + {m[c].slot} {
      var d :| d in m && m[d].slot == s;
      if d != c {
        assert d in m';
      }
    }
  }

  // ---------------------------------------------------------------------
  // addCellsToLodTexture
  // ---------------------------------------------------------------------

  /** The box test of addCellsToLodTexture: |dx| <= 2 * radius and |dy| <= radius. */
  predicate InBox(gp: GridPos, k: Key, radius: nat)
  {
    match gp
    case Unset => Abs(k.x) <= 2 * radius && Abs(k.y) <= radius
    case At(x, y) => Abs(k.x - x) <= 2 * radius && Abs(k.y - y) <= radius
    case Infinite => false
  }

  predicate Indexes(cells: seq<nat>, n: nat)
  {
    forall i :: 0 <= i < |cells| ==> cells[i] < n
  }

  /**
   * One cell of addCellsToLodTexture with the empty-pool guard of
   * assets/js/tsne.js: skip an assigned cell, a cell outside the box, or any
   * cell once the free list is empty; otherwise take the first free slot.
   */
  function Step(p: Pool, c: nat, gp: GridPos, radius: nat, cellGrid: seq<Key>): Pool
    requires c < |cellGrid|
  {
    if c in p.byCell || !InBox(gp, cellGrid[c], radius) || p.open == [] then p
    else Take(p, c, cellGrid[c])
  }

  /** addCellsToLodTexture with the guard: `Step` over cellsToActivate in order. */
  function Activated(p: Pool, cells: seq<nat>, gp: GridPos, radius: nat, cellGrid: seq<Key>): Pool
    requires Indexes(cells, |cellGrid|)
    decreases |cells|
  {
    if cells == [] then p
    else Activated(Step(p, cells[0], gp, radius, cellGrid), cells[1..], gp, radius, cellGrid)
  }

  /**
   * Activation keeps the partition, never moves an existing assignment,
   * assigns only listed cells inside the box, and, when there are at least as
   * many free slots as listed cells, assigns every listed cell inside the box.
   */
  lemma {:induction false} ActivatedPartition(p: Pool, all: set<Slot>, cellGrid: seq<Key>,
                                              cells: seq<nat>, gp: GridPos, radius: nat)
    requires Partition(p, all, cellGrid) && Indexes(cells, |cellGrid|)
    ensures var q := Activated(p, cells, gp, radius, cellGrid);
            Partition(q, all, cellGrid) &&
            (forall c :: c in p.byCell ==> c in q.byCell && q.byCell[c] == p.byCell[c]) &&
            (forall c :: c in q.byCell && c !in p.byCell ==>
               c in cells && InBox(gp, cellGrid[c], radius)) &&
            (|p.open| >= |cells| ==>
               forall c :: c in cells && InBox(gp, cellGrid[c], radius) ==> c in q.byCell)
    decreases |cells|
  {
    if cells != [] {
      var c := cells[0];
      var p1 := Step(p, c, gp, radius, cellGrid);
      StepPartition(p, all, cellGrid, c, gp, radius);
      ActivatedPartition(p1, all, cellGrid, cells[1..], gp, radius);
      assert forall d :: d in cells <==> d == c || d in cells[1..];
    }
  }

  /** One cell of activation keeps the partition and assigns at most that cell, and does when it can. */
  lemma StepPartition(p: Pool, all: set<Slot>, cellGrid: seq<Key>, c: nat, gp: GridPos, radius: nat)
    requires Partition(p, all, cellGrid) && c < |cellGrid|
    ensures var q := Step(p, c, gp, radius, cellGrid);
            Partition(q, all, cellGrid) && |q.open| + 1 >= |p.open| &&
            (forall d :: d in p.byCell ==> d in q.byCell && q.byCell[d] == p.byCell[d]) &&
            (forall d :: d in q.byCell && d !in p.byCell ==> d == c && InBox(gp, cellGrid[c], radius)) &&
            (|p.open| >= 1 && InBox(gp, cellGrid[c], radius) ==> c in q.byCell)
  {
    if !(c in p.byCell || !InBox(gp, cellGrid[c], radius) || p.open == []) {
      TakePartition(p, all, cellGrid, c);
    }
  }

  /** What pixplot/web/assets/js/tsne.js's addCellsToLodTexture ends in. */
  datatype Outcome = Done(pool: Pool) | Crashed(pool: Pool)

  /** One cell of the activation walk, with and without the guard. */
  lemma ActivateStep(p: Pool, cells: seq<nat>, i: nat, gp: GridPos, radius: nat, cellGrid: seq<Key>)
    requires Indexes(cells, |cellGrid|) && i < |cells|
    ensures Indexes(cells[i..], |cellGrid|) && Indexes(cells[i + 1..], |cellGrid|)
    ensures Activated(p, cells[i..], gp, radius, cellGrid) ==
            Activated(Step(p, cells[i], gp, radius, cellGrid), cells[i + 1..], gp, radius, cellGrid)
    ensures var c := cells[i];
            ActivatedUnguarded(p, cells[i..], gp, radius, cellGrid) ==
            if c !in p.byCell && InBox(gp, cellGrid[c], radius) && p.open == [] then Crashed(WithKey(p, cellGrid[c]))
            else ActivatedUnguarded(Step(p, c, gp, radius, cellGrid), cells[i + 1..], gp, radius, cellGrid)
  {
    assert cells[i..][0] == cells[i] && cells[i..][1..] == cells[i + 1..];
  }

  /**
   * addCellsToLodTexture without the guard: once the free list is empty,
   * the next cell to place gets `undefined` from `shift()`; its grid key is
   * created and then `coords.cellIdx = ...` throws, ending the loop.
   */
  function ActivatedUnguarded(p: Pool, cells: seq<nat>, gp: GridPos, radius: nat,
                              cellGrid: seq<Key>): Outcome
    requires Indexes(cells, |cellGrid|)
    decreases |cells|
  {
    if cells == [] then Done(p)
    else
      var c := cells[0];
      if c in p.byCell || !InBox(gp, cellGrid[c], radius) then
        ActivatedUnguarded(p, cells[1..], gp, radius, cellGrid)
      else if p.open == [] then Crashed(WithKey(p, cellGrid[c]))
      else ActivatedUnguarded(Take(p, c, cellGrid[c]), cells[1..], gp, radius, cellGrid)
  }

  /**
   * The two versions agree whenever the unguarded one completes, it always
   * completes when there are at least as many free slots as listed cells, and
   * even its crash state keeps the partition.
   */
  lemma {:induction false} UnguardedAgrees(p: Pool, all: set<Slot>, cellGrid: seq<Key>,
                                           cells: seq<nat>, gp: GridPos, radius: nat)
    requires Partition(p, all, cellGrid) && Indexes(cells, |cellGrid|)
    ensures var o := ActivatedUnguarded(p, cells, gp, radius, cellGrid);
            Partition(o.pool, all, cellGrid) &&
            (o.Done? ==> o.pool == Activated(p, cells, gp, radius, cellGrid)) &&
            (|p.open| >= |cells| ==> o.Done?)
    decreases |cells|
  {
    if cells != [] {
      var c := cells[0];
      if c in p.byCell || !InBox(gp, cellGrid[c], radius) {
        UnguardedAgrees(p, all, cellGrid, cells[1..], gp, radius);
      } else if p.open == [] {
        WithKeyPartition(p, all, cellGrid, cellGrid[c]);
      } else {
        TakePartition(p, all, cellGrid, c);
        UnguardedAgrees(Take(p, c, cellGrid[c]), all, cellGrid, cells[1..], gp, radius);
      }
    }
  }

  /** With no free slot, an unassigned cell inside the box makes the unguarded version throw. */
  lemma UnguardedCrashesWhenFull(p: Pool, cells: seq<nat>, gp: GridPos, radius: nat,
                                 cellGrid: seq<Key>)
    requires Indexes(cells, |cellGrid|) && p.open == []
    requires |cells| > 0 && cells[0] !in p.byCell && InBox(gp, cellGrid[cells[0]], radius)
    ensures ActivatedUnguarded(p, cells, gp, radius, cellGrid).Crashed?
    ensures Activated(p, cells, gp, radius, cellGrid).byCell == p.byCell
  {
    ActivatedEmpty(p, cells, gp, radius, cellGrid);
  }

  lemma {:induction false} ActivatedEmpty(p: Pool, cells: seq<nat>, gp: GridPos, radius: nat,
                                          cellGrid: seq<Key>)
    requires Indexes(cells, |cellGrid|) && p.open == []
    ensures Activated(p, cells, gp, radius, cellGrid) == p
    decreases |cells|
  {
    if cells != [] {
      ActivatedEmpty(p, cells[1..], gp, radius, cellGrid);
    }
  }

  // ---------------------------------------------------------------------
  // The grid index (indexCells, getNested) and loadGridNeighbors
  // ---------------------------------------------------------------------

  /** `grid.coords`: grid x, then grid y, to the cells in that grid square. */
  type GridIndex = map<int, map<int, seq<nat>>>

  function Get(coords: GridIndex, x: int, y: int): seq<nat>
  {
    if x in coords && y in coords[x] then coords[x][y] else []
  }

  /**
   * getNested(coords, [x, y], ifEmpty): the list under x then y, or ifEmpty
   * when a level is missing or the list found is empty.
   */
  function GetNested(coords: GridIndex, x: int, y: int, ifEmpty: seq<nat>): (r: seq<nat>)
    ensures r == ifEmpty || (x in coords && y in coords[x] && r == coords[x][y] && |r| > 0)
    ensures |Get(coords, x, y)| > 0 ==> r == coords[x][y]
  {
    var found := Get(coords, x, y);
    if |found| > 0 then found else ifEmpty
  }

  /** The cells below n whose grid key is k, in increasing order. */
  function CellsAt(cellGrid: seq<Key>, k: Key, n: nat): seq<nat>
    requires n <= |cellGrid|
  {
    if n == 0 then []
    else CellsAt(cellGrid, k, n - 1) + (if cellGrid[n - 1] == k then [n - 1] else [])
  }

  /** `CellsAt` lists exactly the cells below n with key k, each once, in increasing order. */
  lemma {:induction false} CellsAtSpec(cellGrid: seq<Key>, k: Key, n: nat)
    requires n <= |cellGrid|
    ensures var r := CellsAt(cellGrid, k, n);
            (forall c: nat :: c in r <==> c < n && cellGrid[c] == k) &&
            (forall i :: 0 <= i < |r| ==> r[i] < n) &&
            (forall i, j :: 0 <= i < j < |r| ==> r[i] < r[j])
  {
    if n > 0 {
      CellsAtSpec(cellGrid, k, n - 1);
    }
  }

  /** Every cell listed in the grid index is a cell, listed under its own grid key. */
  ghost predicate GridIndexed(coords: GridIndex, cellGrid: seq<Key>)
  {
    forall x, y, i :: x in coords && y in coords[x] && 0 <= i < |coords[x][y]| ==>
      coords[x][y][i] < |cellGrid| && cellGrid[coords[x][y][i]] == Key(x, y)
  }

  /**
   * One cell of indexCells: create the x level and the y list when missing,
   * then push the cell index.
   */
  function Push(coords: GridIndex, x: int, y: int, c: nat): GridIndex
  {
    var row := if x in coords then coords[x] else map[];
    var list := if y in row then row[y] else [];
    coords[x := row[y := list + [c]]]
  }

  lemma PushGet(coords: GridIndex, x: int, y: int, c: nat)
    ensures var r := Push(coords, x, y, c);
            (forall a, b :: Get(r, a, b) == if a == x && b == y then Get(coords, a, b) + [c]
                                            else Get(coords, a, b)) &&
            (forall a, b :: a in r && b in r[a] ==> (a in coords && b in coords[a]) || (a == x && b == y))
  {
  }

  /** The grid index after indexCells has pushed cells 0 .. i-1. */
  ghost predicate IndexedUpTo(coords: GridIndex, cellGrid: seq<Key>, i: nat)
  {
    i <= |cellGrid| &&
    (forall x, y :: Get(coords, x, y) == CellsAt(cellGrid, Key(x, y), i)) &&
    (forall x, y :: x in coords && y in coords[x] ==> |coords[x][y]| > 0)
  }

  lemma IndexStep(coords: GridIndex, cellGrid: seq<Key>, i: nat)
    requires IndexedUpTo(coords, cellGrid, i) && i < |cellGrid|
    ensures IndexedUpTo(Push(coords, cellGrid[i].x, cellGrid[i].y, i), cellGrid, i + 1)
  {
    PushGet(coords, cellGrid[i].x, cellGrid[i].y, i);
  }

  lemma IndexDone(coords: GridIndex, cellGrid: seq<Key>)
    requires IndexedUpTo(coords, cellGrid, |cellGrid|)
    ensures forall x, y :: GetNested(coords, x, y, []) == CellsAt(cellGrid, Key(x, y), |cellGrid|)
    ensures GridIndexed(coords, cellGrid)
  {
    forall x, y
      ensures GetNested(coords, x, y, []) == CellsAt(cellGrid, Key(x, y), |cellGrid|)
    {
      assert Get(coords, x, y) == CellsAt(cellGrid, Key(x, y), |cellGrid|);
    }
    forall x, y, j | x in coords && y in coords[x] && 0 <= j < |coords[x][y]|
      ensures coords[x][y][j] < |cellGrid| && cellGrid[coords[x][y][j]] == Key(x, y)
    {
      IndexedEntry(coords, cellGrid, x, y, j);
    }
  }

  lemma IndexedEntry(coords: GridIndex, cellGrid: seq<Key>, x: int, y: int, j: nat)
    requires IndexedUpTo(coords, cellGrid, |cellGrid|)
    requires x in coords && y in coords[x] && j < |coords[x][y]|
    ensures coords[x][y][j] < |cellGrid| && cellGrid[coords[x][y][j]] == Key(x, y)
  {
    var l := CellsAt(cellGrid, Key(x, y), |cellGrid|);
    assert coords[x][y] == l;
    CellsAtSpec(cellGrid, Key(x, y), |cellGrid|);
    assert l[j] in l;
  }

  /** `cellIndices.filter(...)`: the listed cells that hold no slot, in order. */
  function Unassigned(ids: seq<nat>, byCell: map<nat, Entry>): seq<nat>
  {
    if ids == [] then []
    else (if ids[0] in byCell then [] else [ids[0]]) + Unassigned(ids[1..], byCell)
  }

  /** The filter keeps exactly the listed cells that hold no slot, and never lengthens the list. */
  lemma {:induction false} UnassignedMembers(ids: seq<nat>, byCell: map<nat, Entry>, c: nat)
    ensures c in Unassigned(ids, byCell) <==> c in ids && c !in byCell
    ensures |Unassigned(ids, byCell)| <= |ids|
  {
    if ids != [] {
      UnassignedMembers(ids[1..], byCell, c);
      assert ids == [ids[0]] + ids[1..];
    }
  }

  /** The lookup of loadGridNeighbors at offset (dx, dy) from the camera. */
  function Around(coords: GridIndex, gp: GridPos, dx: int, dy: int): seq<nat>
  {
    match gp
    case Unset => GetNested(coords, dx, dy, [])
    case At(x, y) => GetNested(coords, x + dx, y + dy, [])
    case Infinite => []
  }

  /** The inner loop of loadGridNeighbors: offsets (dx, dy) .. (dx, radius). */
  function Column(coords: GridIndex, gp: GridPos, dx: int, dy: int, radius: nat,
                  byCell: map<nat, Entry>): seq<nat>
    decreases radius - dy
  {
    if dy > radius then []
    else Unassigned(Around(coords, gp, dx, dy), byCell) + Column(coords, gp, dx, dy + 1, radius, byCell)
  }

  /** The whole column dx of the box: offsets -radius .. radius. */
  function FullColumn(coords: GridIndex, gp: GridPos, dx: int, radius: nat, byCell: map<nat, Entry>): seq<nat>
  {
    Column(coords, gp, dx, -(radius as int), radius, byCell)
  }

  /** The outer loop of loadGridNeighbors: columns dx .. 2 * radius. */
  function Neighbors(coords: GridIndex, gp: GridPos, dx: int, radius: nat,
                     byCell: map<nat, Entry>): seq<nat>
    decreases 2 * radius - dx
  {
    if dx > 2 * radius then []
    else FullColumn(coords, gp, dx, radius, byCell) + Neighbors(coords, gp, dx + 1, radius, byCell)
  }

  /** A cell of a column was found at one of its offsets. */
  lemma {:induction false} ColumnFrom(coords: GridIndex, gp: GridPos, dx: int, dy: int, radius: nat,
                                      byCell: map<nat, Entry>, c: nat)
    requires c in Column(coords, gp, dx, dy, radius, byCell)
    ensures exists k :: dy <= k <= radius && c in Unassigned(Around(coords, gp, dx, k), byCell)
    decreases radius - dy
  {
    var here := Unassigned(Around(coords, gp, dx, dy), byCell);
    var rest := Column(coords, gp, dx, dy + 1, radius, byCell);
    assert c in here + rest;
    if c !in here {
      ColumnFrom(coords, gp, dx, dy + 1, radius, byCell, c);
    }
  }

  /** A cell of the box was found in one of its columns. */
  lemma {:induction false} NeighborsFrom(coords: GridIndex, gp: GridPos, dx: int, radius: nat,
                                         byCell: map<nat, Entry>, c: nat)
    requires c in Neighbors(coords, gp, dx, radius, byCell)
    ensures exists k :: dx <= k <= 2 * radius && c in FullColumn(coords, gp, k, radius, byCell)
    decreases 2 * radius - dx
  {
    var here := FullColumn(coords, gp, dx, radius, byCell);
    var rest := Neighbors(coords, gp, dx + 1, radius, byCell);
    assert c in here + rest;
    if c !in here {
      NeighborsFrom(coords, gp, dx + 1, radius, byCell, c);
    }
  }

  /** Every unassigned cell found at an offset of a column is in the column. */
  lemma {:induction false} ColumnHas(coords: GridIndex, gp: GridPos, dx: int, dy: int, dy0: int,
                                     radius: nat, byCell: map<nat, Entry>, c: nat)
    requires dy <= dy0 <= radius
    requires c in Unassigned(Around(coords, gp, dx, dy0), byCell)
    ensures c in Column(coords, gp, dx, dy, radius, byCell)
    decreases radius - dy
  {
    var here := Unassigned(Around(coords, gp, dx, dy), byCell);
    var rest := Column(coords, gp, dx, dy + 1, radius, byCell);
    if dy < dy0 {
      ColumnHas(coords, gp, dx, dy + 1, dy0, radius, byCell, c);
    }
    assert c in here + rest;
  }

  /** Every cell of a column of the box is in the box. */
  lemma {:induction false} NeighborsHas(coords: GridIndex, gp: GridPos, dx: int, dx0: int,
                                        radius: nat, byCell: map<nat, Entry>, c: nat)
    requires dx <= dx0 <= 2 * radius
    requires c in FullColumn(coords, gp, dx0, radius, byCell)
    ensures c in Neighbors(coords, gp, dx, radius, byCell)
    decreases 2 * radius - dx
  {
    var here := FullColumn(coords, gp, dx, radius, byCell);
    var rest := Neighbors(coords, gp, dx + 1, radius, byCell);
    if dx < dx0 {
      NeighborsHas(coords, gp, dx + 1, dx0, radius, byCell, c);
    }
    assert c in here + rest;
  }

  /** The grid key at offset (dx, dy) from the camera. */
  function Offset(gp: GridPos, dx: int, dy: int): Key
  {
    match gp
    case At(x, y) => Key(x + dx, y + dy)
    case _ => Key(dx, dy)
  }

  /** Every cell listed at offset (dx, dy) inside the box lies in the box, at that offset. */
  lemma AroundSound(coords: GridIndex, cellGrid: seq<Key>, gp: GridPos, dx: int, dy: int, radius: nat)
    requires GridIndexed(coords, cellGrid)
    requires -2 * (radius as int) <= dx <= 2 * radius && -(radius as int) <= dy <= radius
    ensures forall c :: c in Around(coords, gp, dx, dy) ==>
              c < |cellGrid| && InBox(gp, cellGrid[c], radius)
  {
    forall c | c in Around(coords, gp, dx, dy)
      ensures c < |cellGrid| && cellGrid[c] == Offset(gp, dx, dy)
    {
      var k := Offset(gp, dx, dy);
      var j :| 0 <= j < |coords[k.x][k.y]| && coords[k.x][k.y][j] == c;
    }
  }

  lemma NeighborsSound(coords: GridIndex, cellGrid: seq<Key>, gp: GridPos,
                       radius: nat, byCell: map<nat, Entry>, c: nat)
    requires GridIndexed(coords, cellGrid)
    requires c in Neighbors(coords, gp, -2 * (radius as int), radius, byCell)
    ensures c < |cellGrid| && c !in byCell && InBox(gp, cellGrid[c], radius)
  {
    NeighborsFrom(coords, gp, -2 * (radius as int), radius, byCell, c);
    var dx :| -2 * (radius as int) <= dx <= 2 * radius && c in FullColumn(coords, gp, dx, radius, byCell);
    ColumnFrom(coords, gp, dx, -(radius as int), radius, byCell, c);
    var dy :| -(radius as int) <= dy <= radius && c in Unassigned(Around(coords, gp, dx, dy), byCell);
    UnassignedMembers(Around(coords, gp, dx, dy), byCell, c);
    AroundSound(coords, cellGrid, gp, dx, dy, radius);
  }

  /**
   * loadGridNeighbors over a complete grid index queues exactly the cells
   * inside the box around the camera that hold no slot.
   */
  lemma NeighborsExact(coords: GridIndex, cellGrid: seq<Key>, gp: GridPos, radius: nat,
                       byCell: map<nat, Entry>)
    requires forall x, y :: GetNested(coords, x, y, []) == CellsAt(cellGrid, Key(x, y), |cellGrid|)
    requires GridIndexed(coords, cellGrid)
    ensures forall c: nat :: c in Neighbors(coords, gp, -2 * (radius as int), radius, byCell) <==>
              c < |cellGrid| && c !in byCell && InBox(gp, cellGrid[c], radius)
  {
    NeighborsAllSound(coords, cellGrid, gp, radius, byCell);
    NeighborsAllFound(coords, cellGrid, gp, radius, byCell);
  }

  lemma NeighborsAllSound(coords: GridIndex, cellGrid: seq<Key>, gp: GridPos, radius: nat,
                          byCell: map<nat, Entry>)
    requires GridIndexed(coords, cellGrid)
    ensures forall c: nat :: c in Neighbors(coords, gp, -2 * (radius as int), radius, byCell) ==>
              c < |cellGrid| && c !in byCell && InBox(gp, cellGrid[c], radius)
  {
    var all := Neighbors(coords, gp, -2 * (radius as int), radius, byCell);
    forall c: nat | c in all
      ensures c < |cellGrid| && c !in byCell && InBox(gp, cellGrid[c], radius)
    {
      NeighborsSound(coords, cellGrid, gp, radius, byCell, c);
    }
  }

  lemma NeighborsAllFound(coords: GridIndex, cellGrid: seq<Key>, gp: GridPos, radius: nat,
                          byCell: map<nat, Entry>)
    requires forall x, y :: GetNested(coords, x, y, []) == CellsAt(cellGrid, Key(x, y), |cellGrid|)
    ensures forall c: nat :: c < |cellGrid| && c !in byCell && InBox(gp, cellGrid[c], radius) ==>
              c in Neighbors(coords, gp, -2 * (radius as int), radius, byCell)
  {
    forall c: nat | c < |cellGrid| && c !in byCell && InBox(gp, cellGrid[c], radius)
      ensures c in Neighbors(coords, gp, -2 * (radius as int), radius, byCell)
    {
      NeighborFound(coords, cellGrid, gp, radius, byCell, c);
    }
  }

  lemma NeighborFound(coords: GridIndex, cellGrid: seq<Key>, gp: GridPos, radius: nat,
                      byCell: map<nat, Entry>, c: nat)
    requires forall x, y :: GetNested(coords, x, y, []) == CellsAt(cellGrid, Key(x, y), |cellGrid|)
    requires c < |cellGrid| && c !in byCell && InBox(gp, cellGrid[c], radius)
    ensures c in Neighbors(coords, gp, -2 * (radius as int), radius, byCell)
  {
    var k := cellGrid[c];
    var d := OffsetOf(gp, k);
    CellsAtSpec(cellGrid, k, |cellGrid|);
    assert c in CellsAt(cellGrid, k, |cellGrid|);
    AroundOffset(coords, gp, k);
    BoxOffset(gp, k, radius);
    InNeighbors(coords, gp, d.0, d.1, radius, byCell, c);
  }

  lemma InNeighbors(coords: GridIndex, gp: GridPos, dx: int, dy: int, radius: nat,
                    byCell: map<nat, Entry>, c: nat)
    requires -2 * (radius as int) <= dx <= 2 * radius && -(radius as int) <= dy <= radius
    requires c in Around(coords, gp, dx, dy) && c !in byCell
    ensures c in Neighbors(coords, gp, -2 * (radius as int), radius, byCell)
  {
    UnassignedMembers(Around(coords, gp, dx, dy), byCell, c);
    ColumnHas(coords, gp, dx, -(radius as int), dy, radius, byCell, c);
    NeighborsHas(coords, gp, -2 * (radius as int), dx, radius, byCell, c);
  }

  lemma BoxOffset(gp: GridPos, k: Key, radius: nat)
    requires InBox(gp, k, radius)
    ensures var d := OffsetOf(gp, k);
            -2 * (radius as int) <= d.0 <= 2 * radius && -(radius as int) <= d.1 <= radius
  {
  }

  /** The offset of key k from the camera. */
  function OffsetOf(gp: GridPos, k: Key): (int, int)
  {
    match gp
    case At(x, y) => (k.x - x, k.y - y)
    case _ => (k.x, k.y)
  }

  lemma AroundOffset(coords: GridIndex, gp: GridPos, k: Key)
    requires gp != Infinite
    ensures Around(coords, gp, OffsetOf(gp, k).0, OffsetOf(gp, k).1) == GetNested(coords, k.x, k.y, [])
  {
  }

  lemma IndexesAppend(a: seq<nat>, b: seq<nat>, n: nat)
    requires Indexes(a, n) && forall c :: c in b ==> c < n
    ensures Indexes(a + b, n)
  {
    forall i | |a| <= i < |a + b|
      ensures (a + b)[i] < n
    {
      assert (a + b)[i] == b[i - |a|];
      assert b[i - |a|] in b;
    }
  }

  /** Whatever getNested finds in an indexed grid is a list of cells. */
  lemma GetNestedIndexes(coords: GridIndex, cellGrid: seq<Key>, x: int, y: int)
    requires GridIndexed(coords, cellGrid)
    ensures Indexes(GetNested(coords, x, y, []), |cellGrid|)
  {
  }

  /** The loop of indexCells: push every cell index, in order, onto the list of its grid key. */
  method GridIndexOf(cellGrid: seq<Key>) returns (coords: GridIndex)
    ensures forall x, y :: GetNested(coords, x, y, []) == CellsAt(cellGrid, Key(x, y), |cellGrid|)
    ensures GridIndexed(coords, cellGrid)
  {
    coords := map[];
    var i := 0;
    while i < |cellGrid|
      invariant IndexedUpTo(coords, cellGrid, i)
    {
      IndexStep(coords, cellGrid, i);
      coords := Push(coords, cellGrid[i].x, cellGrid[i].y, i);
      i := i + 1;
    }
    IndexDone(coords, cellGrid);
  }

  /** The deletion loop of unloadGridPos: drop the cell of every entry, in order. */
  method DropCells(byCell: map<nat, Entry>, toUnload: seq<Entry>) returns (r: map<nat, Entry>)
    ensures r == byCell - CellSet(toUnload)
  {
    r := byCell;
    var j := 0;
    while j < |toUnload|
      invariant j <= |toUnload|
      invariant r == byCell - CellSet(toUnload[..j])
    {
      CellSetSnoc(byCell, toUnload, j);
      r := r - {toUnload[j].cellIdx};
      j := j + 1;
    }
    assert toUnload[..j] == toUnload;
  }

  // ---------------------------------------------------------------------
  // The LOD object
  // ---------------------------------------------------------------------

  /**
   * The LOD object. `cellGrid` holds each cell's grid key (the floor of its
   * position over the grid spacing, which indexCells stores on the cell);
   * `guarded` selects the empty-pool guard of assets/js/tsne.js (true) or
   * its absence in pixplot/web/assets/js/tsne.js (false). `cached` is the
   * set of keys of cellIdxToImage.
   */
  class Lod {
    var openCoords: seq<Slot>
    var gridPosToCoords: map<Key, seq<Entry>>
    var gridKeys: seq<Key>
    var cellIdxToCoords: map<nat, Entry>
    var cellsToActivate: seq<nat>
    var loadQueue: seq<nat>
    var neighborsRequested: bool
    var frame: nat
    var cached: set<nat>
    var gridPos: GridPos
    var gridCoords: GridIndex
    const cellGrid: seq<Key>
    const radius: nat
    const framesBetweenUpdates: nat
    const guarded: bool
    /** Every slot getOpenTexCoords produced. */
    ghost const slots: set<Slot>

    function State(): Pool
      reads this
    {
      Pool(openCoords, gridPosToCoords, gridKeys, cellIdxToCoords)
    }

    ghost predicate Valid()
      reads this
    {
      Partition(State(), slots, cellGrid) &&
      Indexes(loadQueue, |cellGrid|) && Indexes(cellsToActivate, |cellGrid|) &&
      GridIndexed(gridCoords, cellGrid)
    }

    twostate predicate LoadingKept()
      reads this
    {
      loadQueue == old(loadQueue) && cellsToActivate == old(cellsToActivate) &&
      neighborsRequested == old(neighborsRequested) && cached == old(cached)
    }

    twostate predicate ViewKept()
      reads this
    {
      frame == old(frame) && gridPos == old(gridPos) && gridCoords == old(gridCoords)
    }

    /** The LOD constructor: every slot free, nothing loaded, no grid position yet. */
    constructor (lodTexture: nat, lodCell: nat, radius: nat, framesBetweenUpdates: nat,
                 cellGrid: seq<Key>, guarded: bool)
      requires lodCell >= 1
      ensures Valid()
      ensures var n := CeilDiv(lodTexture, lodCell);
              |openCoords| == n * n &&
              forall i :: 0 <= i < |openCoords| ==> openCoords[i] == SlotAt(i, n, lodCell)
      ensures slots == Free(State()) && |slots| == |openCoords|
      ensures gridPosToCoords == map[] && gridKeys == [] && cellIdxToCoords == map[]
      ensures cellsToActivate == [] && loadQueue == [] && !neighborsRequested && frame == 0
      ensures cached == {} && gridPos == Unset && gridCoords == map[]
      ensures this.cellGrid == cellGrid && this.radius == radius &&
              this.framesBetweenUpdates == framesBetweenUpdates && this.guarded == guarded
    {
      var open := GetOpenTexCoords(lodTexture, lodCell);
      InitialPartition(open, cellGrid);
      openCoords := open;
      gridPosToCoords, gridKeys, cellIdxToCoords := map[], [], map[];
      cellsToActivate, loadQueue, neighborsRequested, frame := [], [], false, 0;
      cached, gridPos, gridCoords := {}, Unset, map[];
      this.cellGrid, this.radius := cellGrid, radius;
      this.framesBetweenUpdates, this.guarded := framesBetweenUpdates, guarded;
      slots := Free(Initial(open));
    }

    /**
     * indexCells: push every cell index, in order, onto the list of its grid
     * key; getNested then finds exactly the cells of a key, in index order.
     */
    method IndexCells()
      requires Valid()
      modifies this
      ensures Valid()
      ensures forall x, y :: GetNested(gridCoords, x, y, []) == CellsAt(cellGrid, Key(x, y), |cellGrid|)
      ensures State() == old(State()) && LoadingKept()
      ensures frame == old(frame) && gridPos == old(gridPos)
    {
      var coords := GridIndexOf(cellGrid);
      gridCoords := coords;
    }

    /** addCellToLodTexture: file the cell's entry under its grid key and under its index. */
    method AddCellToLodTexture(c: nat, coords: Slot)
      requires c < |cellGrid|
      modifies this
      ensures State() == WithCell(old(State()), coords, c, cellGrid[c])
      ensures LoadingKept() && ViewKept()
    {
      var gridKey := cellGrid[c];
      if gridKey !in gridPosToCoords {
        gridPosToCoords := gridPosToCoords[gridKey := []];
        gridKeys := gridKeys + [gridKey];
      }
      gridPosToCoords := gridPosToCoords[gridKey := gridPosToCoords[gridKey] + [Entry(coords, c)]];
      cellIdxToCoords := cellIdxToCoords[c := Entry(coords, c)];
    }

    /**
     * One pass of addCellsToLodTexture's loop: a cell without a slot inside
     * the box takes the first free slot; without the guard, an empty free
     * list creates the cell's key and then throws.
     */
    method ActivateCell(c: nat) returns (crashed: bool)
      requires Valid() && c < |cellGrid|
      modifies this
      ensures Valid()
      ensures crashed <==> !guarded && c !in old(cellIdxToCoords) &&
                           InBox(gridPos, cellGrid[c], radius) && old(openCoords) == []
      ensures crashed ==> State() == WithKey(old(State()), cellGrid[c])
      ensures !crashed ==> State() == Step(old(State()), c, gridPos, radius, cellGrid)
      ensures LoadingKept() && ViewKept()
    {
      crashed := false;
      var gridKey := cellGrid[c];
      if c in cellIdxToCoords || !InBox(gridPos, gridKey, radius) {
      } else if openCoords == [] {
        if !guarded {
          // `coords` is undefined: the key is created, then `coords.cellIdx = ...` throws
          WithKeyPartition(State(), slots, cellGrid, gridKey);
          ghost var next := WithKey(State(), gridKey);
          if gridKey !in gridPosToCoords {
            gridPosToCoords := gridPosToCoords[gridKey := []];
            gridKeys := gridKeys + [gridKey];
          }
          assert State() == next;
          assert Partition(State(), slots, cellGrid);
          crashed := true;
        }
      } else {
        ghost var next := Take(State(), c, gridKey);
        TakeKeepsPartition(State(), slots, cellGrid, c);
        var coords := openCoords[0];
        openCoords := openCoords[1..];
        AddCellToLodTexture(c, coords);
        assert State() == next;
        assert Partition(State(), slots, cellGrid);
      }
    }

    /**
     * addCellsToLodTexture. With the guard it places every listed cell it
     * can and empties cellsToActivate; without it, the first cell that meets
     * an empty free list throws, leaving cellsToActivate as it was.
     */
    method AddCellsToLodTexture() returns (crashed: bool)
      requires Valid()
      modifies this
      ensures Valid()
      ensures guarded ==>
                !crashed &&
                State() == Activated(old(State()), old(cellsToActivate), gridPos, radius, cellGrid)
      ensures !guarded ==>
                var o := ActivatedUnguarded(old(State()), old(cellsToActivate), gridPos, radius, cellGrid);
                State() == o.pool && crashed == o.Crashed?
      ensures cellsToActivate == if crashed then old(cellsToActivate) else []
      ensures loadQueue == old(loadQueue) && neighborsRequested == old(neighborsRequested)
      ensures cached == old(cached) && ViewKept()
    {
      var cells := cellsToActivate;
      crashed := false;
      for i := 0 to |cells|
        invariant !crashed
        invariant Valid() && cellsToActivate == cells && LoadingKept() && ViewKept()
        invariant guarded ==>
                    Activated(State(), cells[i..], gridPos, radius, cellGrid) ==
                    Activated(old(State()), cells, gridPos, radius, cellGrid)
        invariant !guarded ==>
                    ActivatedUnguarded(State(), cells[i..], gridPos, radius, cellGrid) ==
                    ActivatedUnguarded(old(State()), cells, gridPos, radius, cellGrid)
      {
        var c := cells[i];
        ActivateStep(State(), cells, i, gridPos, radius, cellGrid);
        crashed := ActivateCell(c);
        if crashed {
          return;
        }
      }
      cellsToActivate := [];
    }

    /**
     * unloadGridPos: delete the cell entry of every coordinate filed under
     * the key, delete the key, and append its slots to the free list.
     */
    method UnloadGridPos(gridKey: Key)
      requires Valid() && gridKey in gridPosToCoords
      modifies this
      ensures Valid()
      ensures State() == WithoutKey(old(State()), gridKey)
      ensures LoadingKept() && ViewKept()
    {
      ghost var next := WithoutKey(State(), gridKey);
      WithoutKeyPartition(State(), slots, cellGrid, gridKey);
      var toUnload := gridPosToCoords[gridKey];
      cellIdxToCoords := DropCells(cellIdxToCoords, toUnload);
      gridPosToCoords := gridPosToCoords - {gridKey};
      gridKeys := Remove(gridKeys, gridKey);
      openCoords := openCoords + SlotsOf(toUnload);
      assert State() == next;
    }

    /** unload: unload, in key order, every grid key farther than radius from the camera. */
    method Unload()
      requires Valid()
      modifies this
      ensures Valid()
      ensures State() == Unloaded(old(State()), gridPos, radius)
      ensures LoadingKept() && ViewKept()
    {
      var ks := gridKeys;
      var i := 0;
      while i < |ks|
        invariant i <= |ks| && Distinct(ks)
        invariant Valid() && LoadingKept() && ViewKept()
        invariant KeysFrom(State(), ks, i)
        invariant UnloadWhere(State(), ks[i..], gridPos, radius, false) ==
                  Unloaded(old(State()), gridPos, radius)
      {
        UnloadWhereStep(State(), ks, i, gridPos, radius, false);
        if Far(gridPos, ks[i], radius) {
          UnloadGridPos(ks[i]);
        }
        i := i + 1;
      }
    }

    /** The key walk of clear: unload every grid key, in key order. */
    method UnloadAll()
      requires Valid()
      modifies this
      ensures Valid()
      ensures State() == Cleared(old(State()))
      ensures LoadingKept() && ViewKept()
    {
      var ks := gridKeys;
      var i := 0;
      while i < |ks|
        invariant i <= |ks| && Distinct(ks)
        invariant Valid() && LoadingKept() && ViewKept()
        invariant KeysFrom(State(), ks, i)
        invariant UnloadWhere(State(), ks[i..], Infinite, 0, true) == Cleared(old(State()))
      {
        UnloadWhereStep(State(), ks, i, Infinite, 0, true);
        UnloadGridPos(ks[i]);
        i := i + 1;
      }
    }

    /** clear: unload every grid key, then move the camera's grid position to +Infinity. */
    method Clear()
      requires Valid()
      modifies this
      ensures Valid()
      ensures State() == Cleared(old(State())) && gridPos == Infinite
      ensures cellIdxToCoords == map[] && gridPosToCoords == map[] && Free(State()) == slots
      ensures LoadingKept() && frame == old(frame) && gridCoords == old(gridCoords)
    {
      ClearFreesAll(State(), slots, cellGrid);
      UnloadAll();
      gridPos := Infinite;
    }

    /** The inner loop of loadGridNeighbors: queue the unassigned cells of one column of the box. */
    method LoadGridColumn(x: int)
      modifies this
      ensures loadQueue == old(loadQueue) + FullColumn(gridCoords, gridPos, x, radius, cellIdxToCoords)
      ensures State() == old(State()) && cellsToActivate == old(cellsToActivate)
      ensures cached == old(cached) && neighborsRequested == old(neighborsRequested) && ViewKept()
    {
      var y := -(radius as int);
      while y <= radius
        invariant -(radius as int) <= y <= radius + 1
        invariant old(loadQueue) + Column(gridCoords, gridPos, x, -(radius as int), radius, cellIdxToCoords) ==
                  loadQueue + Column(gridCoords, gridPos, x, y, radius, cellIdxToCoords)
        invariant State() == old(State()) && cellsToActivate == old(cellsToActivate)
        invariant cached == old(cached) && neighborsRequested == old(neighborsRequested) && ViewKept()
        decreases radius - y
      {
        var cellIndices := Around(gridCoords, gridPos, x, y);
        ghost var rest := Column(gridCoords, gridPos, x, y + 1, radius, cellIdxToCoords);
        var found := Unassigned(cellIndices, cellIdxToCoords);
        assert loadQueue + (found + rest) == (loadQueue + found) + rest;
        loadQueue := loadQueue + found;
        y := y + 1;
      }
      assert loadQueue + [] == loadQueue;
    }

    /** loadGridNeighbors: queue the unassigned cells of every grid key in the box around the camera. */
    method LoadGridNeighbors()
      requires Valid()
      modifies this
      ensures Valid()
      ensures neighborsRequested
      ensures loadQueue ==
                old(loadQueue) + Neighbors(gridCoords, gridPos, -2 * (radius as int), radius, cellIdxToCoords)
      ensures State() == old(State()) && cellsToActivate == old(cellsToActivate)
      ensures cached == old(cached) && ViewKept()
    {
      ghost var all := Neighbors(gridCoords, gridPos, -2 * (radius as int), radius, cellIdxToCoords);
      neighborsRequested := true;
      var x := -2 * (radius as int);
      while x <= 2 * radius
        invariant -2 * (radius as int) <= x <= 2 * radius + 1
        invariant old(loadQueue) + all ==
                  loadQueue + Neighbors(gridCoords, gridPos, x, radius, cellIdxToCoords)
        invariant State() == old(State()) && cellsToActivate == old(cellsToActivate)
        invariant cached == old(cached) && neighborsRequested && ViewKept()
        decreases 2 * radius - x
      {
        ghost var rest := Neighbors(gridCoords, gridPos, x + 1, radius, cellIdxToCoords);
        ghost var column := FullColumn(gridCoords, gridPos, x, radius, cellIdxToCoords);
        assert loadQueue + (column + rest) == (loadQueue + column) + rest;
        LoadGridColumn(x);
        x := x + 1;
      }
      assert loadQueue + [] == loadQueue;
      forall c | c in all
        ensures c < |cellGrid|
      {
        NeighborsSound(gridCoords, cellGrid, gridPos, radius, cellIdxToCoords, c);
      }
      IndexesAppend(old(loadQueue), all, |cellGrid|);
    }

    /** loadImage: a cached image is queued for activation unless its cell already holds a slot. */
    method LoadImage(cellIdx: nat)
      requires Valid() && cellIdx < |cellGrid|
      modifies this
      ensures Valid()
      ensures cellsToActivate == if cellIdx in cached && cellIdx !in cellIdxToCoords
                                 then old(cellsToActivate) + [cellIdx] else old(cellsToActivate)
      ensures State() == old(State()) && loadQueue == old(loadQueue) && cached == old(cached)
      ensures neighborsRequested == old(neighborsRequested) && ViewKept()
    {
      if cellIdx in cached {
        if cellIdx !in cellIdxToCoords {
          cellsToActivate := cellsToActivate + [cellIdx];
        }
      }
    }

    /** The image's onload handler: cache it and queue it unless its cell already holds a slot. */
    method OnImageLoad(cellIdx: nat)
      requires Valid() && cellIdx < |cellGrid|
      modifies this
      ensures Valid()
      ensures cached == old(cached) + {cellIdx}
      ensures cellsToActivate == if cellIdx !in cellIdxToCoords
                                 then old(cellsToActivate) + [cellIdx] else old(cellsToActivate)
      ensures State() == old(State()) && loadQueue == old(loadQueue)
      ensures neighborsRequested == old(neighborsRequested) && ViewKept()
    {
      cached := cached + {cellIdx};
      if cellIdx !in cellIdxToCoords {
        cellsToActivate := cellsToActivate + [cellIdx];
      }
    }

    /** loadNextImage: load the head of the queue, or, once it is empty, request the neighbours once. */
    method LoadNextImage()
      requires Valid()
      modifies this
      ensures Valid()
      ensures State() == old(State()) && cached == old(cached) && ViewKept()
      ensures old(loadQueue) != [] ==>
                var c := old(loadQueue)[0];
                loadQueue == old(loadQueue)[1..] &&
                neighborsRequested == old(neighborsRequested) &&
                cellsToActivate == if c in cached && c !in cellIdxToCoords
                                   then old(cellsToActivate) + [c] else old(cellsToActivate)
      ensures old(loadQueue) == [] && old(neighborsRequested) ==>
                loadQueue == [] && neighborsRequested && cellsToActivate == old(cellsToActivate)
      ensures old(loadQueue) == [] && !old(neighborsRequested) ==>
                neighborsRequested && cellsToActivate == old(cellsToActivate) &&
                loadQueue == Neighbors(gridCoords, gridPos, -2 * (radius as int), radius, cellIdxToCoords)
    {
      if loadQueue != [] {
        var cellIdx := loadQueue[0];
        loadQueue := loadQueue[1..];
        LoadImage(cellIdx);
      } else {
        loadQueue := [];
        if !neighborsRequested {
          LoadGridNeighbors();
        }
      }
    }

    /**
     * updateGridPosition: on moving to another grid position, record it,
     * forget the neighbour request, unload distant keys and, when the camera
     * is close enough, restart the queue with the cells of the new position.
     */
    method UpdateGridPosition(camPos: Key, cameraNear: bool)
      requires Valid()
      modifies this
      ensures Valid()
      ensures old(gridPos) == At(camPos.x, camPos.y) ==>
                State() == old(State()) && LoadingKept() && gridPos == old(gridPos)
      ensures old(gridPos) != At(camPos.x, camPos.y) ==>
                gridPos == At(camPos.x, camPos.y) && !neighborsRequested &&
                State() == Unloaded(old(State()), gridPos, radius) &&
                loadQueue == (if cameraNear then GetNested(gridCoords, camPos.x, camPos.y, [])
                              else old(loadQueue))
      ensures cellsToActivate == old(cellsToActivate) && cached == old(cached)
      ensures frame == old(frame) && gridCoords == old(gridCoords)
    {
      if gridPos != At(camPos.x, camPos.y) {
        gridPos := At(camPos.x, camPos.y);
        neighborsRequested := false;
        Unload();
        if cameraNear {
          GetNestedIndexes(gridCoords, cellGrid, camPos.x, camPos.y);
          loadQueue := GetNested(gridCoords, camPos.x, camPos.y, []);
        }
      }
    }

    /**
     * tick: count the frame; on every framesBetweenUpdates-th frame activate
     * queued cells when the camera is close enough and unload otherwise. A
     * zero framesBetweenUpdates makes the remainder NaN, so nothing is drawn.
     */
    method Tick(cameraNear: bool) returns (crashed: bool)
      requires Valid()
      modifies this
      ensures Valid()
      ensures frame == old(frame) + 1
      ensures gridPos == old(gridPos) && gridCoords == old(gridCoords)
      ensures loadQueue == old(loadQueue) && neighborsRequested == old(neighborsRequested)
      ensures cached == old(cached)
      ensures !(framesBetweenUpdates != 0 && frame % framesBetweenUpdates == 0) ==>
                !crashed && State() == old(State()) && cellsToActivate == old(cellsToActivate)
      ensures framesBetweenUpdates != 0 && frame % framesBetweenUpdates == 0 && !cameraNear ==>
                !crashed && State() == Unloaded(old(State()), gridPos, radius) &&
                cellsToActivate == old(cellsToActivate)
      ensures framesBetweenUpdates != 0 && frame % framesBetweenUpdates == 0 && cameraNear ==>
                (guarded ==>
                   !crashed &&
                   State() == Activated(old(State()), old(cellsToActivate), gridPos, radius, cellGrid)) &&
                (!guarded ==>
                   var o := ActivatedUnguarded(old(State()), old(cellsToActivate), gridPos, radius, cellGrid);
                   State() == o.pool && crashed == o.Crashed?) &&
                cellsToActivate == if crashed then old(cellsToActivate) else []
    {
      frame := frame + 1;
      crashed := false;
      if framesBetweenUpdates == 0 || frame % framesBetweenUpdates != 0 {
        return;
      }
      if cameraNear {
        crashed := AddCellsToLodTexture();
      } else {
        Unload();
      }
    }
  }
}
