// The sparse array of crypto/sparse_array.c: a radix tree of dynamic height whose
// nodes are blocks of SA_BLOCK_MAX pointers, proved to be a partial map.
module SparseArray {
  import opened Prelude

  const BLOCK_MAX: nat := 16
  const MAX_LEVELS: nat := 16
  const INDEX_LIMIT: nat := 0x1_0000_0000_0000_0000

  // A place in the tree: the q-th block, counted from the left, of level l above the leaves.
  datatype Place = At(l: nat, q: nat)

  // The address of a block.
  type Ptr = nat

  // One pointer of a block: NULL, another block, or the user's data.
  datatype Slot<+V> = Null | Child(node: Ptr) | Leaf(val: V)

  function EmptyBlock<V>(): (s: seq<Slot<V>>)
    ensures |s| == BLOCK_MAX && forall i :: 0 <= i < BLOCK_MAX ==> s[i] == Null
  {
    seq(BLOCK_MAX, _ => Null)
  }

  // -------------------------------------------------------------------------
  // Index arithmetic.  `n >> (OPENSSL_SA_BLOCK_BITS * k)` drops k base-16 digits.

  function Shr(n: nat, k: nat): (r: nat)
  {
    if k == 0 then n else Shr(n, k - 1) / BLOCK_MAX
  }

  ghost function Shl(n: nat, k: nat): (r: nat)
  {
    if k == 0 then n else BLOCK_MAX * Shl(n, k - 1)
  }

  // The least height h >= 1 such that every index up to n fits in h digits.
  ghost function Height(n: nat): (h: nat)
    ensures h >= 1 && Shr(n, h) == 0
    ensures forall k: nat :: 1 <= k < h ==> Shr(n, k) != 0
  {
    HeightFrom(n, 1)
  }

  ghost function HeightFrom(n: nat, k: nat): (h: nat)
    requires k >= 1
    ensures h >= k && Shr(n, h) == 0
    ensures forall j: nat :: k <= j < h ==> Shr(n, j) != 0
    decreases Shr(n, k)
  {
    if Shr(n, k) == 0 then k else HeightFrom(n, k + 1)
  }

  lemma {:induction false} ShrMonotone(a: nat, b: nat, k: nat)
    requires a <= b
    ensures Shr(a, k) <= Shr(b, k)
  {
    if k != 0 { ShrMonotone(a, b, k - 1); }
  }

  lemma {:induction false} ShrZeroUp(n: nat, j: nat, k: nat)
    requires j <= k && Shr(n, j) == 0
    ensures Shr(n, k) == 0
    decreases k - j
  {
    if j < k { ShrZeroUp(n, j + 1, k); }
  }

  // Shr and Shl are adjoint: n >= Shl(q, k) exactly when Shr(n, k) >= q.
  lemma {:induction false} ShrShl(n: nat, q: nat, k: nat)
    ensures Shl(q, k) <= n <==> q <= Shr(n, k)
  {
    if k != 0 {
      ShrShl(n / BLOCK_MAX, q, k - 1);
      ShrInside(n, k - 1);
    }
  }

  lemma {:induction false} ShrInside(n: nat, k: nat)
    ensures Shr(n / BLOCK_MAX, k) == Shr(n, k + 1)
  {
    if k != 0 { ShrInside(n, k - 1); }
  }

  lemma {:induction false} ShlInside(n: nat, k: nat)
    ensures Shl(BLOCK_MAX * n, k) == Shl(n, k + 1)
  {
    if k != 0 { ShlInside(n, k - 1); }
  }

  lemma {:induction false} ShlMonotone(a: nat, b: nat, k: nat)
    requires a <= b
    ensures Shl(a, k) <= Shl(b, k)
    ensures a < b ==> Shl(a, k) < Shl(b, k)
  {
    if k != 0 { ShlMonotone(a, b, k - 1); }
  }

  // Height(n) is the least h >= 1 with n < BLOCK_MAX^h: the table of the design text.
  lemma HeightIsLeastPower(n: nat, h: nat)
    requires h >= 1
    ensures Height(n) <= h <==> n < Shl(1, h)
  {
    ShrShl(n, 1, h);
    if Height(n) <= h { ShrZeroUp(n, Height(n), h); }
  }

  lemma HeightMonotone(a: nat, b: nat)
    requires a <= b
    ensures Height(a) <= Height(b)
  {
    ShrMonotone(a, b, Height(b));
    assert Shr(a, Height(b)) == 0;
  }

  lemma IndexHeight(n: nat)
    requires n < INDEX_LIMIT
    ensures Height(n) <= MAX_LEVELS
  {
    assert Shl(1, 4) == 0x1_0000;
    assert Shl(1, 8) == 0x1_0000_0000;
    assert Shl(1, 12) == 0x1_0000_0000_0000;
    assert Shl(1, 16) == INDEX_LIMIT;
    HeightIsLeastPower(n, MAX_LEVELS);
  }

  // -------------------------------------------------------------------------
  // The tree.  Every block is named by its place: the block at (l, q) serves
  // the indices n with Shr(n, l + 1) == q.  `mem` is the memory that holds the
  // blocks, `at` the address of each place and `home` its inverse.

  datatype Tree<V> = Tree(levels: nat, at: map<Place, Ptr>, home: map<Ptr, Place>,
                          mem: map<Ptr, seq<Slot<V>>>, contents: map<nat, V>)
  {
    // What slot i of the block at (l, q) points to.
    ghost function Pointer(l: nat, q: nat, i: nat): Slot<V>
    {
      var n := BLOCK_MAX * q + i;
      if l == 0 then
        if n in contents then Leaf(contents[n]) else Null
      else
        if At(l - 1, n) in at then Child(at[At(l - 1, n)]) else Null
    }

    ghost predicate BlockOk(l: nat, q: nat)
      requires At(l, q) in at
    {
      var p := at[At(l, q)];
      && p in home && home[p] == At(l, q)
      && p in mem && |mem[p]| == BLOCK_MAX
      && forall i :: 0 <= i < BLOCK_MAX ==> mem[p][i] == Pointer(l, q, i)
    }

    ghost predicate HasParent(l: nat, q: nat)
    {
      l + 1 < levels ==> At(l + 1, q / BLOCK_MAX) in at
    }

    // One root, and a parent for every other block.
    ghost predicate Shaped()
    {
      && (levels > 0 ==> At(levels - 1, 0) in at)
      && (forall l: nat, q: nat :: At(l, q) in at ==> l < levels && (l == levels - 1 ==> q == 0))
      && (forall l: nat, q: nat {:trigger HasParent(l, q)} :: At(l, q) in at ==> HasParent(l, q))
    }

    // Every block is linked from its parent and from nowhere else, and the
    // leaf blocks hold exactly the entries of `contents`.
    ghost predicate Linked()
    {
      && Shaped()
      && (forall l: nat, q: nat {:trigger BlockOk(l, q)} :: At(l, q) in at ==> BlockOk(l, q))
      && (forall n :: n in contents ==> At(0, n / BLOCK_MAX) in at)
      && (forall p :: p in mem ==> p < |mem| && Placed(p))
    }

    // Every allocated block has a place.
    ghost predicate Placed(p: Ptr)
    {
      p in home && home[p] in at && at[home[p]] == p
    }

    // The slots of a block that has a place.
    lemma BlockAt(l: nat, q: nat)
      requires Linked() && At(l, q) in at
      ensures BlockOk(l, q)
    {
      assert BlockOk(l, q);
    }

    // The slot of an index in its leaf block.
    lemma LeafSlot(n: nat)
      requires Linked() && At(0, n / BLOCK_MAX) in at
      ensures BlockOk(0, n / BLOCK_MAX)
      ensures at[At(0, n / BLOCK_MAX)] in mem && |mem[at[At(0, n / BLOCK_MAX)]]| == BLOCK_MAX
      ensures mem[at[At(0, n / BLOCK_MAX)]][n % BLOCK_MAX] == if n in contents then Leaf(contents[n]) else Null
    {
      BlockAt(0, n / BLOCK_MAX);
      assert mem[at[At(0, n / BLOCK_MAX)]][n % BLOCK_MAX] == Pointer(0, n / BLOCK_MAX, n % BLOCK_MAX);
    }

    // A missing block on the path of n leaves no leaf block for n.
    lemma {:induction false} MissingPath(n: nat, l: nat)
      requires Shaped()
      requires l < levels
      requires At(l, Shr(n, l + 1)) !in at
      ensures At(0, n / BLOCK_MAX) !in at
    {
      if l > 0 {
        assert At(l - 1, Shr(n, l)) in at ==> HasParent(l - 1, Shr(n, l));
        MissingPath(n, l - 1);
      } else {
        assert Shr(n, 1) == n / BLOCK_MAX;
      }
    }

    // A place without a block has no blocks and no entries below it.
    lemma NoBlockBelow(l: nat, q: nat)
      requires Linked() && l < levels && At(l, q) !in at
      ensures forall i :: 0 <= i < BLOCK_MAX ==> Pointer(l, q, i) == Null
    {
      forall i | 0 <= i < BLOCK_MAX ensures Pointer(l, q, i) == Null {
        var n := BLOCK_MAX * q + i;
        assert n / BLOCK_MAX == q;
        if l > 0 { assert At(l - 1, n) in at ==> HasParent(l - 1, n); }
      }
    }

    // The root block, NULL for an empty tree.
    ghost function Root(): Option<Ptr>
      requires Shaped()
    {
      if levels == 0 then None else Some(at[At(levels - 1, 0)])
    }

    // The tree after a new root has been put on top.
    ghost function Pushed(): Tree<V>
      requires Shaped()
    {
      var p := |mem|;
      var s := if Root().None? then EmptyBlock() else EmptyBlock()[0 := Child(Root().value)];
      Tree(levels + 1, at[At(levels, 0) := p], home[p := At(levels, 0)], mem[p := s], contents)
    }

    lemma PushedBlock(l: nat, q: nat)
      requires Linked() && At(l, q) in Pushed().at
      ensures Pushed().BlockOk(l, q)
    {
      var t := Pushed();
      if At(l, q) in at { assert BlockOk(l, q); }
      forall i: nat | i < BLOCK_MAX ensures t.mem[t.at[At(l, q)]][i] == t.Pointer(l, q, i) {
        if At(l, q) in at {
          assert t.Pointer(l, q, i) == Pointer(l, q, i);
        } else if l > 0 {
          assert At(l - 1, i) in at ==> i == 0;
        }
      }
    }

    lemma PushedLinked()
      requires Linked()
      ensures Shaped() && Pushed().Linked()
      ensures Pushed().Root() == Some(|mem|)
    {
      var t := Pushed();
      forall l: nat, q: nat {:trigger t.HasParent(l, q)} | At(l, q) in t.at ensures t.HasParent(l, q) {
        assert At(l, q) in at ==> HasParent(l, q);
      }
      forall l: nat, q: nat {:trigger t.BlockOk(l, q)} | At(l, q) in t.at ensures t.BlockOk(l, q) {
        PushedBlock(l, q);
      }
    }

    // The tree after a new empty block has been hung in slot i of the block at (l, q).
    ghost function Hung(l: nat, q: nat, i: nat): Tree<V>
      requires l > 0 && At(l, q) in at && BlockOk(l, q) && i < BLOCK_MAX
    {
      var k := At(l - 1, BLOCK_MAX * q + i);
      var p := |mem|;
      var parent := at[At(l, q)];
      Tree(levels, at[k := p], home[p := k],
           mem[p := EmptyBlock()][parent := mem[parent][i := Child(p)]], contents)
    }

    lemma HungBlock(l: nat, q: nat, i: nat, l': nat, q': nat)
      requires Linked() && l > 0 && At(l, q) in at && BlockOk(l, q) && i < BLOCK_MAX
      requires Pointer(l, q, i) == Null && At(l', q') in Hung(l, q, i).at
      ensures Hung(l, q, i).BlockOk(l', q')
    {
      var t := Hung(l, q, i);
      var k: Place := At(l - 1, BLOCK_MAX * q + i);
      assert k !in at;
      if At(l', q') in at {
        assert BlockOk(l', q');
      } else {
        NoBlockBelow(l', q');
      }
      forall j: nat | j < BLOCK_MAX ensures t.mem[t.at[At(l', q')]][j] == t.Pointer(l', q', j) {
        assert t.Pointer(l', q', j) == if At(l', q') == At(l, q) && j == i then Child(|mem|) else Pointer(l', q', j);
      }
    }

    lemma HungParent(l: nat, q: nat, i: nat, l': nat, q': nat)
      requires Shaped() && l > 0 && At(l, q) in at && BlockOk(l, q) && i < BLOCK_MAX
      requires At(l', q') in Hung(l, q, i).at
      ensures Hung(l, q, i).HasParent(l', q')
    {
      if At(l', q') in at {
        assert HasParent(l', q');
      } else {
        assert q' / BLOCK_MAX == q;
      }
    }

    lemma HungLinked(l: nat, q: nat, i: nat)
      requires Linked() && l > 0 && At(l, q) in at && BlockOk(l, q) && i < BLOCK_MAX
      requires Pointer(l, q, i) == Null
      ensures Hung(l, q, i).Linked()
    {
      var t := Hung(l, q, i);
      forall l': nat, q': nat {:trigger t.HasParent(l', q')} | At(l', q') in t.at ensures t.HasParent(l', q') {
        HungParent(l, q, i, l', q');
      }
      forall l': nat, q': nat {:trigger t.BlockOk(l', q')} | At(l', q') in t.at ensures t.BlockOk(l', q') {
        HungBlock(l, q, i, l', q');
      }
    }

    // The tree after slot n % BLOCK_MAX of the leaf block for n has been overwritten.
    ghost function Stored(n: nat, val: Option<V>): Tree<V>
      requires At(0, n / BLOCK_MAX) in at && BlockOk(0, n / BLOCK_MAX)
    {
      var p := at[At(0, n / BLOCK_MAX)];
      Tree(levels, at, home, mem[p := mem[p][n % BLOCK_MAX := SlotOf(val)]], Written(contents, n, val))
    }

    lemma StoredBlock(n: nat, val: Option<V>, l: nat, q: nat)
      requires Linked() && At(0, n / BLOCK_MAX) in at && BlockOk(0, n / BLOCK_MAX) && At(l, q) in at
      ensures Stored(n, val).BlockOk(l, q)
    {
      var t := Stored(n, val);
      assert BlockOk(l, q);
      forall i: nat | i < BLOCK_MAX ensures t.mem[t.at[At(l, q)]][i] == t.Pointer(l, q, i) {
        assert t.Pointer(l, q, i) == if l == 0 && BLOCK_MAX * q + i == n then SlotOf(val) else Pointer(l, q, i);
      }
    }

    lemma StoredLinked(n: nat, val: Option<V>)
      requires Linked() && At(0, n / BLOCK_MAX) in at && BlockOk(0, n / BLOCK_MAX)
      ensures Stored(n, val).Linked()
    {
      var t := Stored(n, val);
      assert t.mem.Keys == mem.Keys;
      forall l: nat, q: nat {:trigger t.HasParent(l, q)} | At(l, q) in t.at ensures t.HasParent(l, q) {
        assert HasParent(l, q);
      }
      forall l: nat, q: nat {:trigger t.BlockOk(l, q)} | At(l, q) in t.at ensures t.BlockOk(l, q) {
        StoredBlock(n, val, l, q);
      }
    }
  }

  // -------------------------------------------------------------------------
  // Traversal.  sa_doall calls back for every leaf, and for every block once all of
  // its slots have been processed.

  // The visits are, in strictly increasing order, exactly the entries of t below hi.
  ghost predicate Lists<V>(t: Tree<V>, visits: seq<(nat, V)>, hi: nat)
  {
    && (forall a :: 0 <= a < |visits| ==>
          visits[a].0 < hi && visits[a].0 in t.contents && visits[a].1 == t.contents[visits[a].0])
    && (forall a :: 0 < a < |visits| ==> visits[a - 1].0 < visits[a].0)
    && (forall n :: n in t.contents && n < hi ==> (n, t.contents[n]) in visits)
  }

  // Where there is no block there are no entries.
  lemma EmptyRange<V>(t: Tree<V>, l: nat, n: nat)
    requires t.Linked() && 0 < l <= t.levels && At(l - 1, n) !in t.at
    ensures forall m :: m in t.contents && Shl(n, l) <= m ==> m >= Shl(n + 1, l)
  {
    forall m | m in t.contents && Shl(n, l) <= m ensures m >= Shl(n + 1, l) {
      ShrShl(m, n, l);
      ShrShl(m, n + 1, l);
      if Shr(m, l) == n { t.MissingPath(m, l - 1); }
    }
  }

  // The blocks on the path from the root to the block at (k, q).
  ghost predicate OnPath(c: Place, k: nat, q: nat)
  {
    c.l >= k && c.q == Shr(q, c.l - k)
  }

  // The first index after those that the block at c serves.
  ghost function End(c: Place): nat
  {
    Shl(c.q + 1, c.l + 1)
  }

  ghost predicate IsChild(c: Place, parent: Place)
  {
    c.l + 1 == parent.l && c.q / BLOCK_MAX == parent.q
  }

  // Every block that the block at place c points to has been finished.
  ghost predicate After<V>(t: Tree<V>, done: seq<Ptr>, c: Place)
  {
    forall c' {:trigger IsChild(c', c)} :: c' in t.at && IsChild(c', c) ==> t.at[c'] in done
  }

  // Finished are exactly the blocks that end by `hi` and are not on the path to
  // the block at (k, q), each once, and each after the blocks it points to.
  ghost predicate Finishes<V>(t: Tree<V>, done: seq<Ptr>, hi: nat, k: nat, q: nat)
  {
    && (forall a :: 0 <= a < |done| ==>
          t.Placed(done[a]) && End(t.home[done[a]]) <= hi && !OnPath(t.home[done[a]], k, q))
    && (forall a :: 0 <= a < |done| ==>
          t.Placed(done[a]) && After(t, done[..a], t.home[done[a]]) && done[a] !in done[..a])
    && (forall c {:trigger End(c)} :: c in t.at && End(c) <= hi && !OnPath(c, k, q) ==> t.at[c] in done)
  }

  // No block ends in the range of an empty slot, except those on the path.
  lemma NoneEnds<V>(t: Tree<V>, k: nat, q: nat, n: nat, c: Place)
    requires t.Linked() && At(k, q) in t.at && n < BLOCK_MAX && c in t.at
    requires k == 0 || At(k - 1, BLOCK_MAX * q + n) !in t.at
    requires Shl(BLOCK_MAX * q + n, k) < End(c) <= Shl(BLOCK_MAX * q + n + 1, k)
    ensures OnPath(c, k, q)
  {
    var a := BLOCK_MAX * q + n;
    if c.l < k {
      EndInside(c, a, k);
      MissingBlock(t, c, k - 1 - c.l);
    } else {
      EndAbove(c, a, k);
      ShrInside(a, c.l - k);
      assert a / BLOCK_MAX == q;
    }
  }

  lemma {:induction false} ShlAdd(n: nat, j: nat, k: nat)
    ensures Shl(Shl(n, j), k) == Shl(n, j + k)
  {
    if k > 0 { ShlAdd(n, j, k - 1); }
  }

  lemma EndInside(c: Place, a: nat, k: nat)
    requires c.l < k && Shl(a, k) < End(c) <= Shl(a + 1, k)
    ensures Shr(c.q, k - 1 - c.l) == a
  {
    var j := k - 1 - c.l;
    ShlAdd(a, j, c.l + 1);
    ShlAdd(a + 1, j, c.l + 1);
    if c.q < Shl(a, j) { ShlMonotone(c.q + 1, Shl(a, j), c.l + 1); }
    if c.q >= Shl(a + 1, j) { ShlMonotone(Shl(a + 1, j), c.q + 1, c.l + 1); }
    ShrShl(c.q, a, j);
    ShrShl(c.q, a + 1, j);
  }

  lemma EndAbove(c: Place, a: nat, k: nat)
    requires c.l >= k && Shl(a, k) < End(c) <= Shl(a + 1, k)
    ensures Shr(a, c.l - k + 1) == c.q
  {
    var j := c.l + 1 - k;
    var e := Shl(c.q + 1, j);
    ShlAdd(c.q + 1, j, k);
    if e <= a { ShlMonotone(e, a, k); }
    if e > a + 1 { ShlMonotone(a + 1, e, k); }
    assert e == a + 1;
    ShlMonotone(c.q, c.q + 1, j);
    ShrShl(a, c.q, j);
    ShrShl(a, c.q + 1, j);
  }

  // Blocks below a missing block are missing.
  lemma {:induction false} MissingBlock<V>(t: Tree<V>, c: Place, k: nat)
    requires t.Linked() && c.l + k < t.levels && At(c.l + k, Shr(c.q, k)) !in t.at
    ensures c !in t.at
  {
    if k > 0 {
      assert At(c.l + k - 1, Shr(c.q, k - 1)) in t.at ==> t.HasParent(c.l + k - 1, Shr(c.q, k - 1));
      MissingBlock(t, c, k - 1);
    }
  }

  // The steps of sa_doall.  A slot without a child is passed:
  lemma SlotPassed<V>(t: Tree<V>, done: seq<Ptr>, k: nat, q: nat, n: nat)
    requires t.Linked() && At(k, q) in t.at && n < BLOCK_MAX
    requires k == 0 || At(k - 1, BLOCK_MAX * q + n) !in t.at
    requires Finishes(t, done, Shl(BLOCK_MAX * q + n, k), k, q)
    ensures Finishes(t, done, Shl(BLOCK_MAX * q + n + 1, k), k, q)
  {
    hide Tree.Linked;
    ShlMonotone(BLOCK_MAX * q + n, BLOCK_MAX * q + n + 1, k);
    forall c | c in t.at && End(c) <= Shl(BLOCK_MAX * q + n + 1, k) && !OnPath(c, k, q)
      ensures t.at[c] in done
    {
      if End(c) > Shl(BLOCK_MAX * q + n, k) { NoneEnds(t, k, q, n, c); }
    }
  }

  lemma SlotListed<V>(t: Tree<V>, visits: seq<(nat, V)>, k: nat, n: nat)
    requires t.Linked() && k <= t.levels && (k == 0 || At(k - 1, n) !in t.at)
    requires Lists(t, visits, Shl(n, k))
    ensures Lists(t, if k == 0 && n in t.contents then visits + [(n, t.contents[n])] else visits, Shl(n + 1, k))
  {
    hide Tree.Linked;
    if k == 0 {
      LeafListed(t, visits, n);
    } else {
      ShlMonotone(n, n + 1, k);
      EmptyRange(t, k, n);
      hide Shl;
    }
  }

  lemma LeafListed<V>(t: Tree<V>, visits: seq<(nat, V)>, n: nat)
    requires Lists(t, visits, n)
    ensures Lists(t, if n in t.contents then visits + [(n, t.contents[n])] else visits, n + 1)
  {
    if n in t.contents {
      var e := (n, t.contents[n]);
      forall m | m in t.contents && m < n + 1 ensures (m, t.contents[m]) in visits + [e] {
        assert m == n || (m, t.contents[m]) in visits;
      }
    }
  }

  // ... a child is entered:
  lemma Entered<V>(t: Tree<V>, done: seq<Ptr>, k: nat, q: nat, n: nat)
    requires k > 0 && n < BLOCK_MAX
    requires Finishes(t, done, Shl(BLOCK_MAX * q + n, k), k, q)
    ensures Finishes(t, done, Shl(BLOCK_MAX * q + n, k), k - 1, BLOCK_MAX * q + n)
  {
    var a := BLOCK_MAX * q + n;
    assert a / BLOCK_MAX == q;
    forall c: Place ensures OnPath(c, k - 1, a) <==> c == At(k - 1, a) || OnPath(c, k, q) {
      if c.l >= k { ShrInside(a, c.l - k); }
    }
    ShlMonotone(a, a + 1, k);
    assert End(At(k - 1, a)) == Shl(a + 1, k);
  }

  // ... and a block all of whose slots have been passed is finished.
  lemma Left<V>(t: Tree<V>, done: seq<Ptr>, k: nat, q: nat)
    requires t.Linked() && At(k, q) in t.at
    requires Finishes(t, done, End(At(k, q)), k, q)
    ensures Finishes(t, done + [t.at[At(k, q)]], End(At(k, q)), k + 1, q / BLOCK_MAX)
  {
    var p := t.at[At(k, q)];
    var done' := done + [p];
    assert t.BlockOk(k, q);
    forall c: Place ensures OnPath(c, k, q) <==> c == At(k, q) || OnPath(c, k + 1, q / BLOCK_MAX) {
      if c.l > k { ShrInside(q, c.l - k - 1); }
    }
    assert !OnPath(At(k, q), k + 1, q / BLOCK_MAX) && OnPath(At(k, q), k, q);
    forall c | c in t.at && IsChild(c, At(k, q)) ensures t.at[c] in done {
      ShlMonotone(c.q + 1, BLOCK_MAX * (q + 1), c.l + 1);
      ShlInside(q + 1, c.l + 1);
      assert End(c) <= End(At(k, q));
    }
    forall a | 0 <= a < |done'|
      ensures t.Placed(done'[a]) && After(t, done'[..a], t.home[done'[a]]) && done'[a] !in done'[..a]
    {
      assert done'[..a] == if a < |done| then done[..a] else done;
    }
  }

  // The stack of sa_doall at depth l in the block (levels - 1 - l, q): the blocks on
  // the path to it, each with the slot that comes next.
  ghost predicate FrameOk<V>(t: Tree<V>, i: seq<nat>, blocks: seq<Option<Ptr>>, l: nat, q: nat, d: nat)
    requires d <= l < t.levels && l < |i| == |blocks|
  {
    var c := At(t.levels - 1 - d, Shr(q, l - d));
    && c in t.at && blocks[d] == Some(t.at[c])
    && (d < l ==> i[d] == Shr(q, l - 1 - d) % BLOCK_MAX + 1)
  }

  ghost predicate StackOk<V>(t: Tree<V>, i: seq<nat>, blocks: seq<Option<Ptr>>, l: nat, q: nat)
  {
    && l < t.levels <= MAX_LEVELS == |i| == |blocks|
    && i[l] <= BLOCK_MAX && Shr(q, l) == 0
    && forall d :: 0 <= d <= l ==> FrameOk(t, i, blocks, l, q, d)
  }

  lemma StackPop<V>(t: Tree<V>, i: seq<nat>, blocks: seq<Option<Ptr>>, l: nat, q: nat)
    requires StackOk(t, i, blocks, l, q) && l > 0
    ensures StackOk(t, i, blocks, l - 1, q / BLOCK_MAX)
    ensures BLOCK_MAX * (q / BLOCK_MAX) + i[l - 1] == q + 1
  {
    assert FrameOk(t, i, blocks, l, q, l - 1);
    ShrInside(q, l - 1);
    forall d {:trigger FrameOk(t, i, blocks, l - 1, q / BLOCK_MAX, d)} | 0 <= d < l
      ensures FrameOk(t, i, blocks, l - 1, q / BLOCK_MAX, d)
    {
      assert FrameOk(t, i, blocks, l, q, d);
      ShrInside(q, l - 1 - d);
      if d < l - 1 { ShrInside(q, l - 2 - d); }
    }
  }

  lemma StackPush<V>(t: Tree<V>, i: seq<nat>, blocks: seq<Option<Ptr>>, l: nat, q: nat, n: nat)
    requires StackOk(t, i, blocks, l, q) && l + 1 < t.levels && n < BLOCK_MAX
    requires At(t.levels - 2 - l, BLOCK_MAX * q + n) in t.at
    ensures StackOk(t, i[l := n + 1][l + 1 := 0],
                    blocks[l + 1 := Some(t.at[At(t.levels - 2 - l, BLOCK_MAX * q + n)])], l + 1, BLOCK_MAX * q + n)
    ensures BLOCK_MAX * (BLOCK_MAX * q + n) < INDEX_LIMIT
  {
    var q' := BLOCK_MAX * q + n;
    assert q' / BLOCK_MAX == q;
    var i' := i[l := n + 1][l + 1 := 0];
    var blocks' := blocks[l + 1 := Some(t.at[At(t.levels - 2 - l, q')])];
    ShrInside(q', l);
    forall d {:trigger FrameOk(t, i', blocks', l + 1, q', d)} | 0 <= d <= l + 1
      ensures FrameOk(t, i', blocks', l + 1, q', d)
    {
      if d <= l {
        assert FrameOk(t, i, blocks, l, q, d);
        ShrInside(q', l - d);
        if d < l { ShrInside(q', l - 1 - d); }
      }
    }
    ShrShl(q', 1, l + 1);
    PowBound(l + 2);
  }

  lemma PowBound(k: nat)
    requires k <= MAX_LEVELS
    ensures Shl(1, k) <= INDEX_LIMIT
    decreases MAX_LEVELS - k
  {
    if k < MAX_LEVELS {
      PowBound(k + 1);
    } else {
      assert Shl(1, 4) == 0x1_0000;
      assert Shl(1, 8) == 0x1_0000_0000;
      assert Shl(1, 12) == 0x1_0000_0000_0000;
    }
  }

  // A block at depth l serves indices below BLOCK_MAX^levels.
  lemma EndBound(q: nat, l: nat, k: nat)
    requires Shr(q, l) == 0
    ensures Shl(q + 1, k) <= Shl(1, l + k)
  {
    ShrShl(q, 1, l);
    ShlMonotone(q + 1, Shl(1, l), k);
    ShlAdd(1, l, k);
  }

  // The callbacks of a traversal that has passed the slots below slot `a` of level k
  // and is inside the block at (k, q).
  ghost predicate Passed<V>(t: Tree<V>, visits: seq<(nat, V)>, done: seq<Ptr>, a: nat, k: nat, q: nat)
  {
    Lists(t, visits, Shl(a, k)) && Finishes(t, done, Shl(a, k), k, q)
  }

  lemma PassStart<V>(t: Tree<V>)
    requires t.Linked()
    ensures t.levels > 0 ==> Passed(t, [], [], 0, t.levels - 1, 0)
    ensures t.levels == 0 ==> Passed(t, [], [], 1, 0, 0)
  {
    forall k: nat ensures Shl(0, k) == 0 {
      ShrShl(0, 0, k);
    }
    forall c | c in t.at ensures End(c) > 0 { ShlMonotone(0, c.q + 1, c.l + 1); }
  }

  lemma PassBlock<V>(t: Tree<V>, visits: seq<(nat, V)>, done: seq<Ptr>, k: nat, q: nat)
    requires t.Linked() && At(k, q) in t.at
    requires Passed(t, visits, done, BLOCK_MAX * q + BLOCK_MAX, k, q)
    ensures Passed(t, visits, done + [t.at[At(k, q)]], q + 1, k + 1, q / BLOCK_MAX)
  {
    hide Lists, Finishes;
    ShlInside(q + 1, k);
    Left(t, done, k, q);
  }

  lemma PassSlot<V>(t: Tree<V>, visits: seq<(nat, V)>, done: seq<Ptr>, k: nat, q: nat, j: nat)
    requires t.Linked() && At(k, q) in t.at && j < BLOCK_MAX
    requires k == 0 || At(k - 1, BLOCK_MAX * q + j) !in t.at
    requires Passed(t, visits, done, BLOCK_MAX * q + j, k, q)
    ensures var n := BLOCK_MAX * q + j;
            Passed(t, if k == 0 && n in t.contents then visits + [(n, t.contents[n])] else visits, done, n + 1, k, q)
  {
    hide Lists, Finishes;
    SlotPassed(t, done, k, q, j);
    SlotListed(t, visits, k, BLOCK_MAX * q + j);
  }

  lemma PassChild<V>(t: Tree<V>, visits: seq<(nat, V)>, done: seq<Ptr>, k: nat, q: nat, j: nat)
    requires k > 0 && j < BLOCK_MAX && Passed(t, visits, done, BLOCK_MAX * q + j, k, q)
    ensures Passed(t, visits, done, BLOCK_MAX * (BLOCK_MAX * q + j), k - 1, BLOCK_MAX * q + j)
  {
    Entered(t, done, k, q, j);
    ShlInside(BLOCK_MAX * q + j, k - 1);
  }

  // The slots still to pass bound the iterations still to come; within the same
  // slot, blocks are left before others are entered.
  ghost function Ahead(levels: nat, i: seq<nat>, idx: nat, l: int): int
    requires l < |i|
  {
    if l < 0 || levels <= l then 0 else Shl(1, levels) - Shl(BLOCK_MAX * (idx / BLOCK_MAX) + i[l], levels - 1 - l)
  }

  ghost function Pending(levels: nat, i: seq<nat>, l: int): int
    requires l < |i|
  {
    if l < 0 then 0
    else if i[l] >= BLOCK_MAX then levels + l + 1
    else if levels == 0 then 1 + BLOCK_MAX - i[l] else levels - l
  }

  lemma StackTop<V>(t: Tree<V>, i: seq<nat>, blocks: seq<Option<Ptr>>, l: nat, idx: nat)
    requires StackOk(t, i, blocks, l, idx / BLOCK_MAX)
    ensures l < t.levels <= |i| == |blocks| && i[l] <= BLOCK_MAX && (l == 0 ==> idx / BLOCK_MAX == 0)
    ensures var c := At(t.levels - 1 - l, idx / BLOCK_MAX); c in t.at && blocks[l] == Some(t.at[c])
    ensures Ahead(t.levels, i, idx, l) >= 0
  {
    var q, k := idx / BLOCK_MAX, t.levels - 1 - l;
    assert FrameOk(t, i, blocks, l, q, l);
    EndBound(q, l, k + 1);
    ShlInside(q + 1, k);
    ShlMonotone(BLOCK_MAX * q + i[l], BLOCK_MAX * (q + 1), k);
  }

  lemma StackNext<V>(t: Tree<V>, i: seq<nat>, blocks: seq<Option<Ptr>>, l: nat, idx: nat, idx': nat)
    requires StackOk(t, i, blocks, l, idx / BLOCK_MAX) && i[l] < BLOCK_MAX && idx' / BLOCK_MAX == idx / BLOCK_MAX
    ensures StackOk(t, i[l := i[l] + 1], blocks, l, idx' / BLOCK_MAX)
    ensures Ahead(t.levels, i[l := i[l] + 1], idx', l) < Ahead(t.levels, i, idx, l)
  {
    var q := idx / BLOCK_MAX;
    var i' := i[l := i[l] + 1];
    forall d {:trigger FrameOk(t, i', blocks, l, q, d)} | 0 <= d <= l ensures FrameOk(t, i', blocks, l, q, d) {
      assert FrameOk(t, i, blocks, l, q, d);
    }
    ShlMonotone(BLOCK_MAX * q + i[l], BLOCK_MAX * q + i[l] + 1, t.levels - 1 - l);
  }

  // The entries of m, each once, in increasing order of their indices.
  ghost predicate IsListing<V>(m: map<nat, V>, visits: seq<(nat, V)>)
  {
    && (forall a :: 0 <= a < |visits| ==> visits[a].0 in m && visits[a].1 == m[visits[a].0])
    && (forall a, b :: 0 <= a < b < |visits| ==> visits[a].0 < visits[b].0)
    && (forall n :: n in m ==> (n, m[n]) in visits)
  }

  // The blocks of the memory, each once, and each after the blocks it points to.
  ghost predicate FreesAll<V>(mem: map<Ptr, seq<Slot<V>>>, done: seq<Ptr>)
  {
    && (forall p :: p in mem <==> p in done)
    && (forall a, b :: 0 <= a < b < |done| ==> done[a] != done[b])
    && (forall a, i :: 0 <= a < |done| && done[a] in mem && 0 <= i < |mem[done[a]]| && mem[done[a]][i].Child? ==>
          mem[done[a]][i].node in done[..a])
  }

  lemma {:induction false} VisitsSorted<V>(visits: seq<(nat, V)>, a: nat, b: nat)
    requires forall j :: 0 < j < |visits| ==> visits[j - 1].0 < visits[j].0
    requires a < b < |visits|
    ensures visits[a].0 < visits[b].0
  {
    if a + 1 < b { VisitsSorted(visits, a, b - 1); }
  }

  lemma ListsAll<V>(t: Tree<V>, visits: seq<(nat, V)>, hi: nat)
    requires Lists(t, visits, hi) && forall n :: n in t.contents ==> n < hi
    ensures IsListing(t.contents, visits)
  {
    forall a, b | 0 <= a < b < |visits| ensures visits[a].0 < visits[b].0 { VisitsSorted(visits, a, b); }
  }

  lemma FinishesAll<V>(t: Tree<V>, done: seq<Ptr>)
    requires t.Linked() && Finishes(t, done, Shl(1, t.levels), t.levels, 0)
    ensures FreesAll(t.mem, done)
  {
    forall p | p in t.mem ensures p in done {
      assert t.Placed(p);
      BlockEnds(t, t.home[p]);
    }
    forall a | 0 <= a < |done| ensures done[a] in t.mem { PlacedOk(t, done[a]); }
    forall a, i | 0 <= a < |done| && done[a] in t.mem && 0 <= i < |t.mem[done[a]]| && t.mem[done[a]][i].Child?
      ensures t.mem[done[a]][i].node in done[..a]
    {
      PlacedOk(t, done[a]);
      var c := t.home[done[a]];
      assert t.mem[done[a]][i] == t.Pointer(c.l, c.q, i);
      var c' := At(c.l - 1, BLOCK_MAX * c.q + i);
      assert c'.q / BLOCK_MAX == c.q;
      assert IsChild(c', c);
    }
  }

  lemma PlacedOk<V>(t: Tree<V>, p: Ptr)
    requires t.Linked() && t.Placed(p)
    ensures t.BlockOk(t.home[p].l, t.home[p].q) && p in t.mem
  {
    assert t.BlockOk(t.home[p].l, t.home[p].q);
  }

  // Every block serves indices below BLOCK_MAX^levels and is off the path above the root.
  lemma BlockEnds<V>(t: Tree<V>, c: Place)
    requires t.Linked() && c in t.at
    ensures End(c) <= Shl(1, t.levels) && !OnPath(c, t.levels, 0)
  {
    PathToRoot(t, c, t.levels - 1 - c.l);
    EndBound(c.q, t.levels - 1 - c.l, c.l + 1);
  }

  lemma {:induction false} PathToRoot<V>(t: Tree<V>, c: Place, k: nat)
    requires t.Linked() && c in t.at && c.l + k < t.levels
    ensures At(c.l + k, Shr(c.q, k)) in t.at
    ensures c.l + k == t.levels - 1 ==> Shr(c.q, k) == 0
  {
    if k > 0 {
      PathToRoot(t, c, k - 1);
      assert t.HasParent(c.l + k - 1, Shr(c.q, k - 1));
    }
  }

  lemma PassedAll<V>(t: Tree<V>, visits: seq<(nat, V)>, done: seq<Ptr>)
    requires t.Linked() && Passed(t, visits, done, 1, t.levels, 0)
    requires forall n :: n in t.contents ==> n < Shl(1, t.levels)
    ensures IsListing(t.contents, visits) && FreesAll(t.mem, done)
  {
    hide Lists, Finishes;
    ListsAll(t, visits, Shl(1, t.levels));
    FinishesAll(t, done);
  }

  // The loop state of sa_doall at depth l.
  ghost predicate Walking<V>(
    t: Tree<V>, i: seq<nat>, blocks: seq<Option<Ptr>>, idx: nat, l: nat, visits: seq<(nat, V)>, done: seq<Ptr>)
  {
    var q := idx / BLOCK_MAX;
    StackOk(t, i, blocks, l, q) && Passed(t, visits, done, BLOCK_MAX * q + i[l], t.levels - 1 - l, q)
  }

  lemma WalkStart<V>(t: Tree<V>, i: seq<nat>, blocks: seq<Option<Ptr>>)
    requires t.Linked() && t.levels <= MAX_LEVELS == |i| == |blocks| && i[0] == 0 && blocks[0] == t.Root()
    ensures t.levels > 0 ==> Walking(t, i, blocks, 0, 0, [], [])
    ensures t.levels == 0 ==> Passed(t, [], [], 1, 0, 0)
  {
    PassStart(t);
    if t.levels > 0 { assert FrameOk(t, i, blocks, 0, 0, 0); }
  }

  lemma WalkTop<V>(
    t: Tree<V>, i: seq<nat>, blocks: seq<Option<Ptr>>, idx: nat, l: nat, visits: seq<(nat, V)>, done: seq<Ptr>)
    requires t.Linked() && Walking(t, i, blocks, idx, l, visits, done)
    ensures l < t.levels && |i| == |blocks| == MAX_LEVELS && i[l] <= BLOCK_MAX && Ahead(t.levels, i, idx, l) >= 0
    ensures var c := At(t.levels - 1 - l, idx / BLOCK_MAX); c in t.at && blocks[l] == Some(t.at[c])
    ensures blocks[l].value in t.mem && |t.mem[blocks[l].value]| == BLOCK_MAX
    ensures forall j :: 0 <= j < BLOCK_MAX ==>
              t.mem[blocks[l].value][j] == t.Pointer(t.levels - 1 - l, idx / BLOCK_MAX, j)
  {
    StackTop(t, i, blocks, l, idx);
    assert t.BlockOk(t.levels - 1 - l, idx / BLOCK_MAX);
  }

  lemma WalkPop<V>(
    t: Tree<V>, i: seq<nat>, blocks: seq<Option<Ptr>>, idx: nat, l: nat, visits: seq<(nat, V)>, done: seq<Ptr>)
    requires t.Linked() && Walking(t, i, blocks, idx, l, visits, done) && i[l] == BLOCK_MAX && blocks[l].Some?
    ensures l > 0 ==> Walking(t, i, blocks, idx / BLOCK_MAX, l - 1, visits, done + [blocks[l].value])
                      && Ahead(t.levels, i, idx / BLOCK_MAX, l - 1) == Ahead(t.levels, i, idx, l)
    ensures l == 0 ==> Passed(t, visits, done + [blocks[l].value], 1, t.levels, 0)
  {
    hide Passed, StackOk, Tree.Linked;
    var k, q := t.levels - 1 - l, idx / BLOCK_MAX;
    StackTop(t, i, blocks, l, idx);
    PassBlock(t, visits, done, k, q);
    if l > 0 {
      StackPop(t, i, blocks, l, q);
      ShlInside(q + 1, k);
    }
  }

  lemma WalkNext<V>(
    t: Tree<V>, i: seq<nat>, blocks: seq<Option<Ptr>>, idx: nat, idx': nat, l: nat,
    visits: seq<(nat, V)>, done: seq<Ptr>)
    requires t.Linked() && Walking(t, i, blocks, idx, l, visits, done) && i[l] < BLOCK_MAX
    requires idx' / BLOCK_MAX == idx / BLOCK_MAX
    requires t.levels - 1 > l ==> At(t.levels - 2 - l, BLOCK_MAX * (idx / BLOCK_MAX) + i[l]) !in t.at
    ensures var n := BLOCK_MAX * (idx / BLOCK_MAX) + i[l];
            Walking(t, i[l := i[l] + 1], blocks, idx', l,
                    if l == t.levels - 1 && n in t.contents then visits + [(n, t.contents[n])] else visits, done)
    ensures Ahead(t.levels, i[l := i[l] + 1], idx', l) < Ahead(t.levels, i, idx, l)
  {
    hide Passed, StackOk, Ahead, Tree.Linked;
    StackTop(t, i, blocks, l, idx);
    PassSlot(t, visits, done, t.levels - 1 - l, idx / BLOCK_MAX, i[l]);
    StackNext(t, i, blocks, l, idx, idx');
  }

  lemma WalkPush<V>(
    t: Tree<V>, i: seq<nat>, blocks: seq<Option<Ptr>>, idx: nat, l: nat, visits: seq<(nat, V)>, done: seq<Ptr>)
    requires Walking(t, i, blocks, idx, l, visits, done) && i[l] < BLOCK_MAX && l + 1 < t.levels
    requires At(t.levels - 2 - l, BLOCK_MAX * (idx / BLOCK_MAX) + i[l]) in t.at
    ensures var n := BLOCK_MAX * (idx / BLOCK_MAX) + i[l];
            var i' := i[l := i[l] + 1][l + 1 := 0];
            && BLOCK_MAX * n < INDEX_LIMIT
            && Walking(t, i', blocks[l + 1 := Some(t.at[At(t.levels - 2 - l, n)])], BLOCK_MAX * n, l + 1, visits, done)
            && Ahead(t.levels, i', BLOCK_MAX * n, l + 1) == Ahead(t.levels, i, idx, l)
  {
    var k, q := t.levels - 1 - l, idx / BLOCK_MAX;
    var n := BLOCK_MAX * q + i[l];
    hide Passed;
    PassChild(t, visits, done, k, q, i[l]);
    StackPush(t, i, blocks, l, q, i[l]);
    ShlInside(n, k - 1);
    assert BLOCK_MAX * n / BLOCK_MAX == n;
  }

  function SlotOf<V>(val: Option<V>): Slot<V>
  {
    if val.Some? then Leaf(val.value) else Null
  }

  // A write to a partial map; writing None removes the entry.
  ghost function Written<V>(m: map<nat, V>, n: nat, val: Option<V>): map<nat, V>
  {
    if val.Some? then m[n := val.value] else m - {n}
  }

  class SparseArray<V> {
    var levels: nat
    var top: nat
    var nelem: nat
    var nodes: Option<Ptr>
    var mem: map<Ptr, seq<Slot<V>>>
    ghost var tree: Tree<V>

    ghost function Contents(): map<nat, V>
      reads this
    {
      tree.contents
    }

    ghost predicate Valid()
      reads this
    {
      && tree.Linked()
      && tree.levels == levels && tree.mem == mem && tree.Root() == nodes
      && levels <= MAX_LEVELS
      && (levels == 0 ==> top == 0)
      && Shr(top, levels) == 0
      && (forall n :: n in Contents() ==> n <= top)
      && nelem == |Contents()|
    }

    constructor ()
      ensures Valid()
      ensures Contents() == map[] && levels == 0 && top == 0
    {
      levels, top, nelem, nodes, mem := 0, 0, 0, None, map[];
      tree := Tree(0, map[], map[], map[], map[]);
    }

    method Get(n: nat) returns (r: Option<V>)
      requires Valid()
      ensures r == if n in Contents() then Some(Contents()[n]) else None
    {
      r := None;
      if nelem == 0 {
        assert Contents() == map[];
        return;
      }
      if n <= top {
        assert levels > 0;
        ShrMonotone(n, top, levels);
        var p := nodes;
        var level := levels - 1;
        while p != None && level > 0
          invariant 0 <= level < levels
          invariant p == None ==> At(0, n / BLOCK_MAX) !in tree.at
          invariant p.Some? ==> At(level, Shr(n, level + 1)) in tree.at
          invariant p.Some? ==> p.value == tree.at[At(level, Shr(n, level + 1))]
        {
          var i := Shr(n, level) % BLOCK_MAX;
          assert tree.BlockOk(level, Shr(n, level + 1));
          assert mem[p.value][i] == tree.Pointer(level, Shr(n, level + 1), i);
          assert BLOCK_MAX * Shr(n, level + 1) + i == Shr(n, level);
          match mem[p.value][i] {
            case Null =>
              p := None;
              tree.MissingPath(n, level - 1);
            case Child(m) =>
              p := Some(m);
          }
          level := level - 1;
        }
        if p != None {
          assert tree.BlockOk(0, n / BLOCK_MAX);
          assert mem[p.value][n % BLOCK_MAX] == tree.Pointer(0, n / BLOCK_MAX, n % BLOCK_MAX);
          match mem[p.value][n % BLOCK_MAX] {
            case Null =>
            case Leaf(v) => r := Some(v);
          }
        }
      }
    }

    // Pushes the root down one level: the old root becomes slot 0 of a new root.
    method PushDown()
      requires Valid() && levels < MAX_LEVELS
      modifies this`levels, this`nodes, this`mem, this`tree
      ensures Valid()
      ensures levels == old(levels) + 1 && Contents() == old(Contents())
    {
      hide Tree.Linked, Tree.Shaped;
      tree.PushedLinked();
      ghost var t := tree.Pushed();
      var p := |mem|;
      var block := if nodes.Some? then EmptyBlock()[0 := Child(nodes.value)] else EmptyBlock();
      assert t.mem == mem[p := block] && t.Root() == Some(p) && t.levels == levels + 1;
      mem, nodes, levels, tree := mem[p := block], Some(p), levels + 1, t;
    }

    // Hangs a new empty block in slot i of `parent`, the block at (l, q).
    method AddChild(parent: Ptr, i: nat, ghost l: nat, ghost q: nat) returns (p: Ptr)
      requires Valid() && At(l, q) in tree.at && tree.at[At(l, q)] == parent && l > 0 && i < BLOCK_MAX
      requires tree.BlockOk(l, q) && mem[parent][i] == Null
      modifies this`tree, this`mem
      ensures Valid()
      ensures tree.at == old(tree.at)[At(l - 1, BLOCK_MAX * q + i) := p] && Contents() == old(Contents())
    {
      tree.HungLinked(l, q, i);
      p := |mem|;
      mem := mem[p := EmptyBlock()][parent := mem[parent][i := Child(p)]];
      tree := tree.Hung(l, q, i);
    }

    // Stores a value for posn in p, the leaf block for posn, and keeps the count.
    method Store(p: Ptr, posn: nat, val: Option<V>)
      requires Valid() && posn <= top
      requires At(0, posn / BLOCK_MAX) in tree.at && tree.at[At(0, posn / BLOCK_MAX)] == p
      modifies this`mem, this`nelem, this`tree
      ensures Valid()
      ensures Contents() == Written(old(Contents()), posn, val)
    {
      hide Tree.Linked, Tree.BlockOk, Shr, Written;
      tree.LeafSlot(posn);
      var oldSlot := mem[p][posn % BLOCK_MAX];
      tree.StoredLinked(posn, val);
      ghost var t := tree.Stored(posn, val);
      WrittenSize(Contents(), posn, val);
      WrittenBelow(Contents(), posn, val, top);
      if val == None && oldSlot != Null {
        nelem := nelem - 1;
      } else if val != None && oldSlot == Null {
        nelem := nelem + 1;
      }
      mem, tree := mem[p := mem[p][posn % BLOCK_MAX := SlotOf(val)]], t;
    }

    // ossl_sa_set.  `memory` is the number of blocks that can still be allocated.
    method Set(posn: nat, val: Option<V>, memory: nat) returns (ok: bool)
      requires Valid() && posn < INDEX_LIMIT
      modifies this
      ensures Valid()
      ensures Contents() == if ok then Written(old(Contents()), posn, val) else old(Contents())
      ensures memory >= 2 * MAX_LEVELS ==> ok
      ensures old(levels) <= levels <= Max(old(levels), Height(posn))
      ensures ok ==> levels == Max(old(levels), Height(posn))
      ensures top == if levels == Max(old(levels), Height(posn)) then Max(old(top), posn) else old(top)
      ensures ok && (old(levels) == 0 || old(levels) == Height(old(top))) ==> levels == Height(top)
    {
      hide Tree.Linked;
      IndexHeight(posn);
      var level := 1;
      var n := posn / BLOCK_MAX;
      while level < MAX_LEVELS && n != 0
        invariant 1 <= level <= Height(posn) && n == Shr(posn, level)
      {
        n := n / BLOCK_MAX;
        level := level + 1;
      }
      assert level == Height(posn);
      ghost var height := Max(levels, level);
      var left: nat := memory;
      while levels < level
        invariant Valid() && levels <= height && old(levels) <= levels
        invariant levels < level || levels == height
        invariant top == old(top) && Contents() == old(Contents())
        invariant left + levels == memory + old(levels)
      {
        if left == 0 { return false; }
        PushDown();
        left := left - 1;
      }
      assert Shr(posn, levels) == 0 by { ShrZeroUp(posn, level, levels); }
      if top < posn { top := posn; }
      assert levels == height;
      if old(levels) == 0 || old(levels) == Height(old(top)) {
        HeightMonotone(old(top), top);
        HeightMonotone(posn, top);
      }
      ok := StoreBelow(posn, val, left);
    }

    // The descent of ossl_sa_set: finds or allocates the leaf block and stores the value.
    method StoreBelow(posn: nat, val: Option<V>, memory: nat) returns (ok: bool)
      requires Valid() && posn <= top && levels > 0
      modifies this`mem, this`nelem, this`tree
      ensures Valid()
      ensures Contents() == if ok then Written(old(Contents()), posn, val) else old(Contents())
      ensures memory + 1 >= levels ==> ok
    {
      var p := nodes.value;
      var level := levels - 1;
      var left: nat := memory;
      assert Shr(posn, levels) == 0 by { ShrMonotone(posn, top, levels); }
      while level > 0
        invariant Valid() && 0 <= level < levels
        invariant At(level, Shr(posn, level + 1)) in tree.at && p == tree.at[At(level, Shr(posn, level + 1))]
        invariant Contents() == old(Contents())
        invariant left + levels >= memory + level + 1
        decreases level
      {
        var i := Shr(posn, level) % BLOCK_MAX;
        tree.BlockAt(level, Shr(posn, level + 1));
        assert mem[p][i] == tree.Pointer(level, Shr(posn, level + 1), i);
        assert BLOCK_MAX * Shr(posn, level + 1) + i == Shr(posn, level);
        match mem[p][i] {
          case Null =>
            if left == 0 { return false; }
            p := AddChild(p, i, level, Shr(posn, level + 1));
            left := left - 1;
          case Child(m) =>
            p := m;
        }
        level := level - 1;
      }
      assert Shr(posn, 1) == posn / BLOCK_MAX;
      Store(p, posn, val);
      ok := true;
    }

    // sa_doall: the leaves visited and the blocks finished, in order.
    method DoAll() returns (visits: seq<(nat, V)>, done: seq<Ptr>)
      requires Valid()
      ensures IsListing(Contents(), visits)
      ensures FreesAll(mem, done)
    {
      hide Passed, Walking, IsListing, FreesAll, Tree.Linked, Shl;
      var i: seq<nat> := seq(MAX_LEVELS, _ => 0);
      var blocks: seq<Option<Ptr>> := seq(MAX_LEVELS, _ => None)[0 := nodes];
      var idx: nat := 0;
      var l := 0;
      visits, done := [], [];
      WalkStart(tree, i, blocks);
      while l >= 0
        invariant -1 <= l && |i| == |blocks| == MAX_LEVELS
        invariant l == -1 ==> Passed(tree, visits, done, 1, levels, 0)
        invariant l >= 0 && levels == 0 ==>
                    l == 0 && i[0] <= BLOCK_MAX && blocks[0] == None && Passed(tree, visits, done, 1, 0, 0)
        invariant l >= 0 && levels > 0 ==> l < levels && Walking(tree, i, blocks, idx, l, visits, done)
        decreases Ahead(levels, i, idx, l), Pending(levels, i, l)
      {
        var n, p := i[l], blocks[l];
        ghost var k, q := levels - 1 - l, idx / BLOCK_MAX;
        if levels > 0 { WalkTop(tree, i, blocks, idx, l, visits, done); }
        if n >= BLOCK_MAX {
          if p.Some? {
            WalkPop(tree, i, blocks, idx, l, visits, done);
            done := done + [p.value];
          }
          l := l - 1;
          idx := idx / BLOCK_MAX;
        } else if p.None? || mem[p.value][n] == Null {
          if p.Some? {
            assert tree.Pointer(k, q, n) == Null;
            WalkNext(tree, i, blocks, idx, idx, l, visits, done);
          }
          i := i[l := n + 1];
        } else {
          assert tree.Pointer(k, q, n) != Null;
          var idx' := idx / BLOCK_MAX * BLOCK_MAX + n;
          if l < levels - 1 {
            WalkPush(tree, i, blocks, idx, l, visits, done);
            i := i[l := n + 1];
            l := l + 1;
            i := i[l := 0];
            blocks := blocks[l := Some(mem[p.value][n].node)];
            idx := idx' * BLOCK_MAX % INDEX_LIMIT;
          } else {
            WalkNext(tree, i, blocks, idx, idx', l, visits, done);
            i := i[l := n + 1];
            idx := idx';
            visits := visits + [(idx, mem[p.value][n].val)];
          }
        }
      }
      ShrShl(top, 1, levels);
      PassedAll(tree, visits, done);
    }

  }

  function Max(a: nat, b: nat): nat { if a < b then b else a }

  lemma WrittenSize<V>(m: map<nat, V>, n: nat, val: Option<V>)
    ensures |Written(m, n, val)| == |m| + (if val.Some? && n !in m then 1 else if val.None? && n in m then -1 else 0)
  {
    var w := Written(m, n, val);
    if val.Some? {
      assert w.Keys == m.Keys + {n};
    } else {
      assert w.Keys == m.Keys - {n};
    }
  }

  lemma WrittenBelow<V>(m: map<nat, V>, n: nat, val: Option<V>, top: nat)
    requires n <= top && forall k :: k in m ==> k <= top
    ensures forall k :: k in Written(m, n, val) ==> k <= top
  {
  }

  // -------------------------------------------------------------------------
  // Whole runs.  The map that a sequence of writes leaves behind.

  ghost function Replay<V>(writes: seq<(nat, Option<V>)>): map<nat, V>
  {
    if writes == [] then map[]
    else var w := writes[|writes| - 1]; Written(Replay(writes[..|writes| - 1]), w.0, w.1)
  }

  // The largest index written, by a value or by NULL.
  ghost function Largest<V>(writes: seq<(nat, Option<V>)>): (m: nat)
    ensures forall j :: 0 <= j < |writes| ==> writes[j].0 <= m
    ensures writes != [] ==> exists j :: 0 <= j < |writes| && writes[j].0 == m
  {
    if writes == [] then 0
    else
      assert forall j :: 0 <= j < |writes| - 1 ==> writes[..|writes| - 1][j] == writes[j];
      Max(Largest(writes[..|writes| - 1]), writes[|writes| - 1].0)
  }

  // Write j is the last one at its index.
  ghost predicate IsLast<V>(writes: seq<(nat, Option<V>)>, j: int)
  {
    0 <= j < |writes| && forall k :: j < k < |writes| ==> writes[k].0 != writes[j].0
  }

  // A write elsewhere at the end does not change which writes are last.
  lemma LastOfPrefix<V>(writes: seq<(nat, Option<V>)>, j: nat)
    requires j < |writes| - 1 && writes[j].0 != writes[|writes| - 1].0
    ensures IsLast(writes[..|writes| - 1], j) <==> IsLast(writes, j)
  {
    var before := writes[..|writes| - 1];
    if IsLast(writes, j) {
      forall k | j < k < |before| ensures before[k].0 != before[j].0 { assert before[k] == writes[k]; }
    }
    if IsLast(before, j) {
      forall k | j < k < |writes| ensures writes[k].0 != writes[j].0 {
        if k < |before| { assert before[k] == writes[k]; }
      }
    }
  }

  // An index holds v exactly when the last write there was v.
  lemma {:induction false} ReplayIsLastWrite<V>(writes: seq<(nat, Option<V>)>, n: nat, v: V)
    ensures n in Replay(writes) && Replay(writes)[n] == v <==>
            exists j :: IsLast(writes, j) && writes[j] == (n, Some(v))
  {
    if writes == [] { return; }
    var last := |writes| - 1;
    var before := writes[..last];
    if writes[last].0 == n {
      assert IsLast(writes, last);
      return;
    }
    ReplayIsLastWrite(before, n, v);
    hide IsLast;
    forall j | IsLast(writes, j) && writes[j] == (n, Some(v)) ensures IsLast(before, j) && before[j] == writes[j] {
      IsLastRange(writes, j);
      LastOfPrefix(writes, j);
    }
    forall j | IsLast(before, j) && before[j] == (n, Some(v)) ensures IsLast(writes, j) && before[j] == writes[j] {
      IsLastRange(before, j);
      LastOfPrefix(writes, j);
    }
  }

  lemma IsLastRange<V>(writes: seq<(nat, Option<V>)>, j: int)
    requires IsLast(writes, j)
    ensures 0 <= j < |writes|
  {
  }

  // The height after a sequence of writes, if memory does not run out.
  ghost function TreeHeight<V>(writes: seq<(nat, Option<V>)>): nat
  {
    if writes == [] then 0 else Height(Largest(writes))
  }

  // The writes that add a value, and the largest index of one.
  ghost function Additions<V>(writes: seq<(nat, Option<V>)>): (a: seq<(nat, Option<V>)>)
    ensures forall w :: w in a ==> w in writes && w.1.Some?
    ensures forall w :: w in writes && w.1.Some? ==> w in a
  {
    if writes == [] then []
    else
      var before, w := writes[..|writes| - 1], writes[|writes| - 1];
      assert writes == before + [w];
      if w.1.Some? then Additions(before) + [w] else Additions(before)
  }

  // The height that the design text gives: by the largest index used to add a value, and no root if there is none.
  ghost function DesignHeight<V>(writes: seq<(nat, Option<V>)>): nat
  {
    TreeHeight(Additions(writes))
  }

  // A NULL written at an index that needs more levels than the design text gives.
  ghost predicate Overgrows<V>(writes: seq<(nat, Option<V>)>, w: (nat, Option<V>))
  {
    w in writes && w.1.None? && Height(w.0) > DesignHeight(writes)
  }

  lemma LargestIn<V>(writes: seq<(nat, Option<V>)>, w: (nat, Option<V>))
    requires w in writes
    ensures w.0 <= Largest(writes)
  {
  }

  lemma LargestWrite<V>(writes: seq<(nat, Option<V>)>) returns (w: (nat, Option<V>))
    requires writes != []
    ensures w in writes && w.0 == Largest(writes)
  {
    var j :| 0 <= j < |writes| && writes[j].0 == Largest(writes);
    w := writes[j];
  }

  // The tree has the height of the design text exactly if no NULL was written at an index that needs more levels;
  // where nothing was added, that means that nothing was written.
  lemma HeightAsDesigned<V>(writes: seq<(nat, Option<V>)>)
    ensures TreeHeight(writes) == DesignHeight(writes) <==> !exists w :: Overgrows(writes, w)
    ensures Additions(writes) == [] ==> (TreeHeight(writes) == DesignHeight(writes) <==> writes == [])
  {
    hide Height, Largest;
    if writes == [] { return; }
    var a := Additions(writes);
    var top := LargestWrite(writes);
    if a != [] {
      var added := LargestWrite(a);
      LargestIn(writes, added);
      HeightMonotone(added.0, top.0);
    }
    forall w | Overgrows(writes, w) ensures TreeHeight(writes) > DesignHeight(writes) {
      LargestIn(writes, w);
      HeightMonotone(w.0, top.0);
    }
    if top.1.Some? {
      assert top in a;
      LargestIn(a, top);
    } else if TreeHeight(writes) != DesignHeight(writes) {
      assert Overgrows(writes, top);
    }
  }

  // An addition at 0 and a NULL at 16: one level by the design text, two in the tree.
  lemma NullGrowsTree<V>(v: V)
    ensures var writes := [(0, Some(v)), (16, None)]; DesignHeight(writes) == 1 && TreeHeight(writes) == 2
  {
    var first: seq<(nat, Option<V>)> := [(0, Some(v))];
    var writes: seq<(nat, Option<V>)> := [(0, Some(v)), (16, None)];
    assert writes[..1] == first && first[..0] == [];
    assert Largest(first) == 0 && Largest(writes) == 16;
    assert Additions(writes) == Additions(first) == first;
    assert Shr(0, 1) == 0 && Shr(16, 1) == 1 && Shr(16, 2) == 0;
  }

  // One more write makes the tree as high as its index needs.
  lemma TreeHeightMore<V>(writes: seq<(nat, Option<V>)>, w: (nat, Option<V>))
    ensures TreeHeight(writes + [w]) == Max(TreeHeight(writes), Height(w.0))
  {
    assert (writes + [w])[..|writes|] == writes;
    var before := Largest(writes);
    if writes != [] {
      HeightMonotone(before, Max(before, w.0));
      HeightMonotone(w.0, Max(before, w.0));
    }
  }

  // The writes that returned success.
  ghost function Succeeded<V>(writes: seq<(nat, Option<V>)>, done: seq<bool>): (r: seq<(nat, Option<V>)>)
    requires |done| == |writes|
    ensures (forall j :: 0 <= j < |done| ==> done[j]) ==> r == writes
  {
    if writes == [] then []
    else
      var last := |writes| - 1;
      var before := Succeeded(writes[..last], done[..last]);
      assert writes == writes[..last] + [writes[last]];
      assert forall j :: 0 <= j < last ==> done[..last][j] == done[j];
      if done[last] then before + [writes[last]] else before
  }

  lemma SucceededMore<V>(writes: seq<(nat, Option<V>)>, done: seq<bool>, w: (nat, Option<V>), ok: bool)
    requires |done| == |writes|
    ensures Succeeded(writes + [w], done + [ok]) == Succeeded(writes, done) + if ok then [w] else []
  {
    assert (writes + [w])[..|writes|] == writes && (done + [ok])[..|done|] == done;
  }

  lemma ReplayMore<V>(writes: seq<(nat, Option<V>)>, w: (nat, Option<V>))
    ensures Replay(writes + [w]) == Written(Replay(writes), w.0, w.1)
  {
    assert (writes + [w])[..|writes|] == writes;
  }

  // Any sequence of writes to a new array, each with the memory it finds: the array is the plain map of the last writes
  // that succeeded.  Its height is at least what these need and at most what all writes need.  If none failed it is the
  // least that fits the largest index written, which is the design text's unless a NULL overgrew it.
  method RunWrites<V>(writes: seq<(nat, Option<V>)>, memory: seq<nat>) returns (sa: SparseArray<V>, done: seq<bool>)
    requires |memory| == |writes| && forall j :: 0 <= j < |writes| ==> writes[j].0 < INDEX_LIMIT
    ensures fresh(sa) && sa.Valid()
    ensures |done| == |writes| && forall j :: 0 <= j < |writes| && memory[j] >= 2 * MAX_LEVELS ==> done[j]
    ensures sa.Contents() == Replay(Succeeded(writes, done))
    ensures TreeHeight(Succeeded(writes, done)) <= sa.levels <= TreeHeight(writes)
    ensures (forall j :: 0 <= j < |done| ==> done[j]) ==>
              && sa.levels == TreeHeight(writes)
              && (sa.levels == DesignHeight(writes) <==> !exists w :: Overgrows(writes, w))
  {
    hide Tree.Linked, Overgrows, DesignHeight, Succeeded, Replay, TreeHeight, Height;
    EmptyRun<V>();
    sa := new SparseArray();
    done := [];
    for j := 0 to |writes|
      invariant |done| == j && forall k :: 0 <= k < j && memory[k] >= 2 * MAX_LEVELS ==> done[k]
      invariant fresh(sa) && sa.Valid() && sa.Contents() == Replay(Succeeded(writes[..j], done))
      invariant TreeHeight(Succeeded(writes[..j], done)) <= sa.levels <= TreeHeight(writes[..j])
    {
      var ok := sa.Set(writes[j].0, writes[j].1, memory[j]);
      WriteMore(writes[..j], done, writes[j], ok);
      assert writes[..j + 1] == writes[..j] + [writes[j]];
      done := done + [ok];
    }
    assert writes[..|writes|] == writes;
    HeightAsDesigned(writes);
  }

  lemma EmptyRun<V>()
    ensures Replay<V>([]) == map[] && Succeeded<V>([], []) == [] && TreeHeight<V>([]) == 0
  {
  }

  lemma WriteMore<V>(writes: seq<(nat, Option<V>)>, done: seq<bool>, w: (nat, Option<V>), ok: bool)
    requires |done| == |writes|
    ensures var before, after := Succeeded(writes, done), Succeeded(writes + [w], done + [ok]);
            && TreeHeight(writes + [w]) == Max(TreeHeight(writes), Height(w.0))
            && Replay(after) == (if ok then Written(Replay(before), w.0, w.1) else Replay(before))
            && TreeHeight(after) == if ok then Max(TreeHeight(before), Height(w.0)) else TreeHeight(before)
  {
    hide *;
    var before := Succeeded(writes, done);
    TreeHeightMore(writes, w);
    SucceededMore(writes, done, w, ok);
    if ok {
      ReplayMore(before, w);
      TreeHeightMore(before, w);
    } else {
      assert before + [] == before;
    }
  }
}
