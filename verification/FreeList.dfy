/** The free list of the arena: an index tree holding the first and the last byte of every
    free block, and eight lists that sort the blocks by size. */
module FreeLists {
  import opened Options
  import opened Regions

  // ---------------------------------------------------------------- free bytes as ranges

  datatype Block = Block(start: int, size: int) {
    function Last(): int { start + size - 1 }
  }

  /** The range of m that ends right before byte i. */
  ghost function LeftOf(m: Regions, i: int): (r: Option<int>)
    ensures r.Some? ==> r.value in m && r.value + m[r.value] == i
    ensures r.None? ==> forall s :: s in m ==> s + m[s] != i
  {
    if exists s :: s in m && s + m[s] == i then
      var s :| s in m && s + m[s] == i; Some(s)
    else None
  }

  /** The ranges of m that do not touch the n bytes at i. */
  ghost function Bystanders(m: Regions, i: int, n: int): Regions {
    var left := LeftOf(m, i);
    (if left.Some? then m - {left.value} else m) - {i + n}
  }

  /** The block that the n bytes at i become part of. A block starting at i + n is joined on the
      right; a block ending at i is joined only when there is none on the right. */
  ghost function Joined(m: Regions, i: int, n: int): Block {
    var left := LeftOf(m, i);
    if i + n in m then Block(i, n + m[i + n])
    else if left.Some? then Block(left.value, m[left.value] + n)
    else Block(i, n)
  }

  /** The free bytes after the n bytes at i are given back. */
  ghost function Release(m: Regions, i: int, n: int): Regions {
    var b := Joined(m, i, n);
    Bystanders(m, i, n)[b.start := b.size]
  }

  /** The block forgotten by Release(m, i, n): the left neighbour when both neighbours are free. */
  ghost function Forgotten(m: Regions, i: int, n: int): Regions {
    var left := LeftOf(m, i);
    if i + n in m && left.Some? then map[left.value := m[left.value]] else map[]
  }

  /** The free bytes after the first n bytes of the block at s are taken. */
  ghost function Carve(m: Regions, s: int, n: int): Regions
    requires s in m
  {
    if m[s] == n then m - {s} else (m - {s})[s + n := m[s] - n]
  }

  // ---------------------------------------------------------------- conservation

  /** Giving back n bytes raises the free total by n, less the block that is forgotten. */
  lemma ReleaseTotal(m: Regions, i: int, n: int)
    requires Disjoint(m) && n > 0 && Clear(m, i, n)
    ensures Total(Release(m, i, n)) + Total(Forgotten(m, i, n)) == Total(m) + n
  {
    hide LeftOf;
    var left, kept, b := LeftOf(m, i), Bystanders(m, i, n), Joined(m, i, n);
    var m1 := if left.Some? then m - {left.value} else m;
    if left.Some? {
      TotalRemove(m, left.value);
      TotalInsert(map[], left.value, m[left.value]);
      assert map[][left.value := m[left.value]] == map[left.value := m[left.value]];
    }
    if i + n in m {
      TotalRemove(m1, i + n);
    } else {
      assert kept == m1;
    }
    TotalInsert(kept, b.start, b.size);
  }

  /** Taking n bytes lowers the free total by n. */
  lemma CarveTotal(m: Regions, s: int, n: int)
    requires Disjoint(m) && s in m && 0 < n <= m[s]
    ensures Total(Carve(m, s, n)) == Total(m) - n
  {
    hide Total;
    TotalRemove(m, s);
    if n < m[s] {
      TotalInsert(m - {s}, s + n, m[s] - n);
    }
  }

  // ---------------------------------------------------------------- which bytes are free

  /** Giving back n bytes makes exactly them free, except that a left neighbour is lost when both neighbours are
      free. */
  lemma ReleaseBytes(m: Regions, i: int, n: int, b: int)
    requires Disjoint(m) && n > 0 && Clear(m, i, n)
    ensures Covers(Release(m, i, n), b) <==>
      && (i <= b < i + n || Covers(m, b))
      && !(i + n in m && exists s :: s in m && s + m[s] == i && s <= b < i)
  {
    hide LeftOf;
    var m', j, left := Release(m, i, n), Joined(m, i, n), LeftOf(m, i);
    if j.start <= b < j.start + j.size {
      assert j.start in m' && m'[j.start] == j.size;
    }
    if s :| s in m && s <= b < s + m[s] && s != i + n && (left.Some? ==> s != left.value) {
      assert s in m' && m'[s] == m[s];
    }
  }

  /** Taking the first n bytes of a block takes exactly them. */
  lemma CarveBytes(m: Regions, s: int, n: int, b: int)
    requires Disjoint(m) && s in m && 0 < n <= m[s]
    ensures Covers(Carve(m, s, n), b) <==> Covers(m, b) && !(s <= b < s + n)
  {
    var m' := Carve(m, s, n);
    if n < m[s] {
      assert s + n in m' && m'[s + n] == m[s] - n;
    }
    if t :| t in m && t <= b < t + m[t] && t != s {
      assert t in m' && m'[t] == m[t];
    }
  }

  // ---------------------------------------------------------------- size classes

  const UNLISTED := 8

  /** The list a block of n bytes is kept in; a block of exactly 4096 bytes is kept in none. */
  function SizeClass(n: int): (c: int)
  {
    if n < 64 then 0
    else if n < 128 then 1
    else if n < 256 then 2
    else if n < 512 then 3
    else if n < 1024 then 4
    else if n < 2048 then 5
    else if n < 4096 then 6
    else if n > 4096 then 7
    else UNLISTED
  }

  /** The bounds of the lists. */
  lemma SizeClasses(n: int)
    ensures SizeClass(n) == 0 <==> n < 64
    ensures SizeClass(n) == 1 <==> 64 <= n < 128
    ensures SizeClass(n) == 2 <==> 128 <= n < 256
    ensures SizeClass(n) == 3 <==> 256 <= n < 512
    ensures SizeClass(n) == 4 <==> 512 <= n < 1024
    ensures SizeClass(n) == 5 <==> 1024 <= n < 2048
    ensures SizeClass(n) == 6 <==> 2048 <= n < 4096
    ensures SizeClass(n) == 7 <==> n > 4096
  {
  }

  /** Sizes kept in list c, for c < 7, stay below this. */
  function Bound(c: int): int
    requires 0 <= c < 7
  {
    [64, 128, 256, 512, 1024, 2048, 4096][c]
  }

  /** No block of size class c has n bytes. */
  ghost predicate NoFit(m: Regions, c: int, n: int) {
    forall s :: s in m && SizeClass(m[s]) == c ==> m[s] < n
  }

  /** The n bytes at s were the start of a block of the lowest size class that has a block of n bytes,
      and exactly they are gone. */
  ghost predicate Taken(m: Regions, s: int, n: int, m': Regions) {
    && s in m && n <= m[s] && m[s] != 4096
    && (forall t :: t in m && SizeClass(m[t]) < SizeClass(m[s]) ==> m[t] < n)
    && m' == Carve(m, s, n)
  }

  /** Below each of the bounds, a block t that is large enough keeps the search below it. */
  lemma TakenLow(m: Regions, s: int, n: int, m': Regions, t: int)
    requires Taken(m, s, n, m') && t in m && n <= m[t]
    ensures (m[t] < 64 ==> m[s] < 64) && (m[t] < 128 ==> m[s] < 128) && (m[t] < 256 ==> m[s] < 256)
    ensures (m[t] < 512 ==> m[s] < 512) && (m[t] < 1024 ==> m[s] < 1024) && (m[t] < 2048 ==> m[s] < 2048)
    ensures m[t] < 4096 ==> m[s] < 4096
  {
    SizeClasses(m[t]);
    SizeClasses(m[s]);
  }

  // ---------------------------------------------------------------- representation

  class ItemPos {
    var actualSize: int
    var parentIndex: int

    constructor (index: int, size: int)
      ensures parentIndex == index && actualSize == size
    {
      parentIndex := index;
      actualSize := size;
    }
  }

  /** The tree's keys are exactly the first and last bytes of the blocks. */
  ghost predicate Indexed(tree: map<int, ItemPos>, at: map<ItemPos, Block>) {
    && (forall k :: k in tree ==> tree[k] in at && (k == at[tree[k]].start || k == at[tree[k]].Last()))
    && (forall o :: o in at ==>
      && at[o].size > 0
      && at[o].start in tree && tree[at[o].start] == o
      && at[o].Last() in tree && tree[at[o].Last()] == o)
  }

  /** No two blocks overlap or touch. */
  ghost predicate Spread(at: map<ItemPos, Block>) {
    forall o, p :: o in at && p in at && o != p ==>
      at[o].start + at[o].size < at[p].start || at[p].start + at[p].size < at[o].start
  }

  ghost predicate NoDuplicates<T>(s: seq<T>) {
    forall i, j :: 0 <= i < j < |s| ==> s[i] != s[j]
  }

  /** Each list holds, once each, exactly the blocks of its size class. */
  ghost predicate Listed(lists: seq<seq<ItemPos>>, at: map<ItemPos, Block>) {
    && |lists| == 8
    && (forall c :: 0 <= c < 8 ==> NoDuplicates(lists[c]))
    && (forall c, j :: 0 <= c < 8 && 0 <= j < |lists[c]| ==> lists[c][j] in at && SizeClass(at[lists[c][j]].size) == c)
    && (forall o :: o in at && SizeClass(at[o].size) != UNLISTED ==> o in lists[SizeClass(at[o].size)])
  }

  ghost predicate Represents(tree: map<int, ItemPos>, lists: seq<seq<ItemPos>>, at: map<ItemPos, Block>) {
    Indexed(tree, at) && Spread(at) && Listed(lists, at)
  }

  ghost function FreeOf(tree: map<int, ItemPos>, at: map<ItemPos, Block>): Regions
    requires Indexed(tree, at)
  {
    map k | k in tree && at[tree[k]].start == k :: at[tree[k]].size
  }

  /** Taking block o out of the tree and its list. */
  lemma Detach(tree: map<int, ItemPos>, lists: seq<seq<ItemPos>>, at: map<ItemPos, Block>, o: ItemPos,
               lists': seq<seq<ItemPos>>)
    requires Represents(tree, lists, at)
    requires o in at
    requires Delisted(lists, at[o].size, o, lists')
    ensures var tree' := tree - {at[o].start, at[o].Last()};
      && Represents(tree', lists', at - {o})
      && FreeOf(tree', at - {o}) == FreeOf(tree, at) - {at[o].start}
  {
    DetachIndexed(tree, at, o);
    DetachListed(lists, at, o, lists');
  }

  lemma DetachIndexed(tree: map<int, ItemPos>, at: map<ItemPos, Block>, o: ItemPos)
    requires Indexed(tree, at) && Spread(at)
    requires o in at
    ensures var tree' := tree - {at[o].start, at[o].Last()};
      && Indexed(tree', at - {o})
      && FreeOf(tree', at - {o}) == FreeOf(tree, at) - {at[o].start}
  {
    var tree' := tree - {at[o].start, at[o].Last()};
    assert Indexed(tree', at - {o});
    assert FreeOf(tree', at - {o}) == FreeOf(tree, at) - {at[o].start};
  }

  /** v is gone from the list of size class n; the other lists, and the order, are kept. */
  ghost predicate Delisted(lists: seq<seq<ItemPos>>, n: int, v: ItemPos, lists': seq<seq<ItemPos>>) {
    var c := SizeClass(n);
    && |lists| == |lists'| == 8
    && (forall d :: 0 <= d < 8 && d != c ==> lists'[d] == lists[d])
    && (c != UNLISTED ==>
      if v in lists[c] then
        exists pos :: 0 <= pos < |lists[c]| && lists[c][pos] == v && lists'[c] == Without(lists[c], pos)
      else lists'[c] == lists[c])
  }

  function Without<T>(s: seq<T>, pos: int): seq<T>
    requires 0 <= pos < |s|
  {
    s[..pos] + s[pos + 1..]
  }

  lemma WithoutContents<T>(s: seq<T>, pos: int)
    requires 0 <= pos < |s| && NoDuplicates(s)
    ensures NoDuplicates(Without(s, pos))
    ensures s[pos] !in Without(s, pos)
    ensures forall x :: x in s && x != s[pos] ==> x in Without(s, pos)
    ensures forall j :: 0 <= j < |Without(s, pos)| ==> Without(s, pos)[j] in s
  {
    var w := Without(s, pos);
    forall x | x in s && x != s[pos] ensures x in w {
      var j :| 0 <= j < |s| && s[j] == x;
      assert x == if j < pos then w[j] else w[j - 1];
    }
  }

  lemma DetachListed(lists: seq<seq<ItemPos>>, at: map<ItemPos, Block>, o: ItemPos, lists': seq<seq<ItemPos>>)
    requires Listed(lists, at)
    requires o in at
    requires Delisted(lists, at[o].size, o, lists')
    ensures Listed(lists', at - {o})
  {
    var c := SizeClass(at[o].size);
    if c != UNLISTED {
      var pos :| 0 <= pos < |lists[c]| && lists[c][pos] == o && lists'[c] == Without(lists[c], pos);
      WithoutContents(lists[c], pos);
    }
  }

  /** v is at the end of the list of size class n. */
  ghost predicate Enlisted(lists: seq<seq<ItemPos>>, n: int, v: ItemPos, lists': seq<seq<ItemPos>>) {
    var c := SizeClass(n);
    && |lists| == |lists'| == 8
    && (forall d :: 0 <= d < 8 && d != c ==> lists'[d] == lists[d])
    && (c != UNLISTED ==> lists'[c] == lists[c] + [v])
  }

  /** Putting a new block o, clear of the others, into the tree and its list. */
  lemma Attach(tree: map<int, ItemPos>, lists: seq<seq<ItemPos>>, at: map<ItemPos, Block>, o: ItemPos, b: Block,
               lists': seq<seq<ItemPos>>)
    requires Represents(tree, lists, at)
    requires o !in at && b.size > 0
    requires Clear(FreeOf(tree, at), b.start - 1, b.size + 2)
    requires Enlisted(lists, b.size, o, lists')
    ensures var tree' := tree[b.start := o][b.Last() := o];
      && Represents(tree', lists', at[o := b])
      && FreeOf(tree', at[o := b]) == FreeOf(tree, at)[b.start := b.size]
  {
    AttachIndexed(tree, at, o, b);
    AttachListed(lists, at, o, b, lists');
  }

  lemma AttachIndexed(tree: map<int, ItemPos>, at: map<ItemPos, Block>, o: ItemPos, b: Block)
    requires Indexed(tree, at) && Spread(at)
    requires o !in at && b.size > 0
    requires Clear(FreeOf(tree, at), b.start - 1, b.size + 2)
    ensures var tree' := tree[b.start := o][b.Last() := o];
      && Indexed(tree', at[o := b]) && Spread(at[o := b])
      && FreeOf(tree', at[o := b]) == FreeOf(tree, at)[b.start := b.size]
  {
    var m := FreeOf(tree, at);
    forall p | p in at
      ensures at[p].start + at[p].size < b.start || b.start + b.size < at[p].start
    {
      assert m[at[p].start] == at[p].size;
    }
    AttachKeys(tree, at, o, b);
    AttachFree(tree, at, o, b);
  }

  lemma AttachKeys(tree: map<int, ItemPos>, at: map<ItemPos, Block>, o: ItemPos, b: Block)
    requires Indexed(tree, at)
    requires o !in at && b.size > 0
    requires forall p :: p in at ==> at[p].start + at[p].size < b.start || b.start + b.size < at[p].start
    ensures forall k :: k in tree ==> k < b.start || b.Last() < k
    ensures Indexed(tree[b.start := o][b.Last() := o], at[o := b])
  {
    forall k | k in tree
      ensures k < b.start || b.Last() < k
    {
      assert tree[k] in at;
    }
    var tree', at' := tree[b.start := o][b.Last() := o], at[o := b];
    forall p | p in at'
      ensures at'[p].start in tree' && tree'[at'[p].start] == p
      ensures at'[p].Last() in tree' && tree'[at'[p].Last()] == p
    {
      if p != o {
        assert at'[p] == at[p];
        assert at[p].start in tree && at[p].Last() in tree;
      }
    }
  }

  lemma IndexedKeys(tree: map<int, ItemPos>, at: map<ItemPos, Block>)
    requires Indexed(tree, at)
    ensures forall k :: k in tree ==> tree[k] in at
  {
  }

  lemma AttachFree(tree: map<int, ItemPos>, at: map<ItemPos, Block>, o: ItemPos, b: Block)
    requires Indexed(tree, at)
    requires o !in at && b.size > 0
    requires forall k :: k in tree ==> k < b.start || b.Last() < k
    requires Indexed(tree[b.start := o][b.Last() := o], at[o := b])
    ensures FreeOf(tree[b.start := o][b.Last() := o], at[o := b]) == FreeOf(tree, at)[b.start := b.size]
  {
    hide Indexed;
    IndexedKeys(tree, at);
    var tree' := tree[b.start := o][b.Last() := o];
    var l, r := FreeOf(tree', at[o := b]), FreeOf(tree, at)[b.start := b.size];
    assert b.start !in tree && b.Last() !in tree;
    forall k ensures k in l <==> k in r {
      assert k in tree ==> tree'[k] == tree[k] != o;
    }
  }

  lemma AttachListed(lists: seq<seq<ItemPos>>, at: map<ItemPos, Block>, o: ItemPos, b: Block, lists': seq<seq<ItemPos>>)
    requires Listed(lists, at)
    requires o !in at
    requires Enlisted(lists, b.size, o, lists')
    ensures Listed(lists', at[o := b])
  {
    var c := SizeClass(b.size);
    if c != UNLISTED {
      assert o !in lists[c];
      assert lists'[c][|lists[c]|] == o;
      forall p | p in at && SizeClass(at[p].size) == c ensures p in lists'[c] {
        assert p in lists[c];
      }
    }
  }

  /** The free ranges neither overlap nor touch. */
  lemma FreeApart(tree: map<int, ItemPos>, lists: seq<seq<ItemPos>>, at: map<ItemPos, Block>)
    requires Represents(tree, lists, at)
    ensures Apart(FreeOf(tree, at))
  {
  }

  /** Once the neighbours are taken out, the block that Release puts back touches nothing. */
  lemma ReleaseClear(m: Regions, i: int, n: int)
    requires Apart(m) && n > 0 && Clear(m, i, n)
    ensures var left := LeftOf(m, i);
      left.Some? ==> left.value != i + n
    ensures var b := Joined(m, i, n);
      Clear(Bystanders(m, i, n), b.start - 1, b.size + 2)
  {
  }

  lemma ClearFewer(m: Regions, ks: set<int>, i: int, n: int)
    requires Clear(m, i, n)
    ensures Clear(m - ks, i, n)
  {
  }

  /** Giving back the tail of a block that was just taken out joins it to nothing. */
  lemma CarveByRelease(m: Regions, s: int, n: int)
    requires Apart(m) && s in m && 0 < n < m[s]
    ensures Clear(m - {s}, s + n, m[s] - n)
    ensures Release(m - {s}, s + n, m[s] - n) == Carve(m, s, n)
  {
    var rest := m - {s};
    assert s + m[s] !in rest;
    assert LeftOf(rest, s + n).None?;
    assert Bystanders(rest, s + n, m[s] - n) == rest;
  }

  /** Block o gives up its first n bytes and stays in its list. */
  ghost predicate Shrunk(tree: map<int, ItemPos>, at: map<ItemPos, Block>, o: ItemPos, n: int,
                         tree': map<int, ItemPos>, at': map<ItemPos, Block>)
    requires o in at
  {
    && tree' == (tree - {at[o].start})[at[o].start + n := o]
    && at' == at[o := Block(at[o].start + n, at[o].size - n)]
  }

  lemma Shrink(tree: map<int, ItemPos>, lists: seq<seq<ItemPos>>, at: map<ItemPos, Block>, o: ItemPos, n: int,
               tree': map<int, ItemPos>, at': map<ItemPos, Block>)
    requires Represents(tree, lists, at)
    requires o in at && 0 < n < at[o].size && SizeClass(at[o].size - n) == SizeClass(at[o].size)
    requires Shrunk(tree, at, o, n, tree', at')
    ensures Represents(tree', lists, at')
    ensures FreeOf(tree', at') == Carve(FreeOf(tree, at), at[o].start, n)
  {
    ShrinkIndexed(tree, at, o, n, tree', at');
    ShrinkListed(lists, at, o, n, at');
  }

  /** Shrinking is taking the block out and putting its tail back. */
  lemma ShrinkIndexed(tree: map<int, ItemPos>, at: map<ItemPos, Block>, o: ItemPos, n: int,
                      tree': map<int, ItemPos>, at': map<ItemPos, Block>)
    requires Indexed(tree, at) && Spread(at)
    requires o in at && 0 < n < at[o].size
    requires Shrunk(tree, at, o, n, tree', at')
    ensures Indexed(tree', at') && Spread(at')
    ensures FreeOf(tree', at') == Carve(FreeOf(tree, at), at[o].start, n)
  {
    hide Clear; hide Indexed; hide Spread; hide FreeOf;
    var b := Block(at[o].start + n, at[o].size - n);
    var tree0: map<int, ItemPos> := tree - {at[o].start, at[o].Last()};
    var at0: map<ItemPos, Block> := at - {o};
    IndexedAt(tree, at, o);
    SpreadFewer(at, o);
    DetachIndexed(tree, at, o);
    DetachClear(tree, at, o, n);
    AttachIndexed(tree0, at0, o, b);
    assert tree' == tree0[b.start := o][b.Last() := o];
    assert at' == at0[o := b];
  }

  lemma IndexedAt(tree: map<int, ItemPos>, at: map<ItemPos, Block>, o: ItemPos)
    requires Indexed(tree, at) && o in at
    ensures at[o].start in tree && tree[at[o].start] == o
    ensures at[o].Last() in tree && tree[at[o].Last()] == o
    ensures at[o].start in FreeOf(tree, at) && FreeOf(tree, at)[at[o].start] == at[o].size > 0
  {
  }

  lemma SpreadFewer(at: map<ItemPos, Block>, o: ItemPos)
    requires Spread(at)
    ensures Spread(at - {o})
  {
  }

  lemma DetachClear(tree: map<int, ItemPos>, at: map<ItemPos, Block>, o: ItemPos, n: int)
    requires Indexed(tree, at) && Spread(at)
    requires o in at && 0 < n < at[o].size
    requires Indexed(tree - {at[o].start, at[o].Last()}, at - {o})
    ensures Clear(FreeOf(tree - {at[o].start, at[o].Last()}, at - {o}), at[o].start + n - 1, at[o].size - n + 2)
  {
  }

  lemma ShrinkListed(lists: seq<seq<ItemPos>>, at: map<ItemPos, Block>, o: ItemPos, n: int, at': map<ItemPos, Block>)
    requires Listed(lists, at)
    requires o in at && SizeClass(at[o].size - n) == SizeClass(at[o].size)
    requires at' == at[o := Block(at[o].start + n, at[o].size - n)]
    ensures Listed(lists, at')
  {
  }

  /** A list without a block of n bytes means no free range of its class has n bytes. */
  lemma ScanComplete(tree: map<int, ItemPos>, lists: seq<seq<ItemPos>>, at: map<ItemPos, Block>, c: int, n: int)
    requires Represents(tree, lists, at) && 0 <= c < 8
    requires forall y :: 0 <= y < |lists[c]| ==> at[lists[c][y]].size < n
    ensures NoFit(FreeOf(tree, at), c, n)
  {
    var m := FreeOf(tree, at);
    forall s | s in m && SizeClass(m[s]) == c ensures m[s] < n {
      assert tree[s] in lists[c];
    }
  }

  /** The tree entry just before a clear range is the last byte of its left neighbour. */
  lemma LookupLeft(tree: map<int, ItemPos>, lists: seq<seq<ItemPos>>, at: map<ItemPos, Block>, i: int, n: int)
    requires Represents(tree, lists, at)
    requires n > 0 && Clear(FreeOf(tree, at), i, n)
    ensures var left := LeftOf(FreeOf(tree, at), i);
      if i - 1 in tree then
        var v := tree[i - 1];
        v in at && left == Some(at[v].start) && at[v].size == FreeOf(tree, at)[at[v].start]
      else left.None?
  {
    var m := FreeOf(tree, at);
    if i - 1 in tree {
      var b := at[tree[i - 1]];
      assert m[b.start] == b.size;
      assert LeftOf(m, i).Some?;
    }
  }

  /** The tree entry just after a clear range is the first byte of its right neighbour. */
  lemma LookupRight(tree: map<int, ItemPos>, lists: seq<seq<ItemPos>>, at: map<ItemPos, Block>, i: int, n: int)
    requires Represents(tree, lists, at)
    requires n > 0 && Clear(FreeOf(tree, at), i, n)
    ensures i + n in tree <==> i + n in FreeOf(tree, at)
    ensures i + n in tree ==>
      var v := tree[i + n];
      v in at && at[v] == Block(i + n, FreeOf(tree, at)[i + n])
  {
    var m := FreeOf(tree, at);
    if i + n in tree {
      var b := at[tree[i + n]];
      assert m[b.start] == b.size;
    }
  }

  /** Position x of the list holds the first block of n bytes. */
  ghost predicate FirstFit(list: seq<ItemPos>, at: map<ItemPos, Block>, x: int, n: int) {
    && 0 <= x < |list| && list[x] in at && n <= at[list[x]].size
    && forall y :: 0 <= y < x ==> list[y] in at && at[list[y]].size < n
  }

  // ---------------------------------------------------------------- the free list

  class FreeList {
    var sizeList: seq<seq<ItemPos>>
    var indexTree: map<int, ItemPos>
    ghost var at: map<ItemPos, Block>

    ghost predicate Synced()
      reads this, at.Keys
    {
      forall o :: o in at ==> at[o] == Block(o.parentIndex, o.actualSize)
    }

    ghost predicate Valid()
      reads this, at.Keys
    {
      Represents(indexTree, sizeList, at) && Synced()
    }

    /** The free blocks, as ranges. */
    ghost function Free(): Regions
      reads this, at.Keys
      requires Valid()
    {
      FreeOf(indexTree, at)
    }

    constructor ()
      ensures Valid() && Free() == map[]
      ensures at == map[]
    {
      sizeList := [[], [], [], [], [], [], [], []];
      indexTree := map[];
      at := map[];
    }

    method RemoveFromSizeList(v: ItemPos)
      requires |sizeList| == 8
      modifies this`sizeList
      ensures Delisted(old(sizeList), v.actualSize, v, sizeList)
      ensures |sizeList| == 8 && forall c :: 0 <= c < 8 ==>
        if c == SizeClass(v.actualSize) && v in old(sizeList[c]) then
          exists i :: 0 <= i < |old(sizeList[c])| && old(sizeList[c])[i] == v
            && sizeList[c] == old(sizeList[c])[..i] + old(sizeList[c])[i + 1..]
        else sizeList[c] == old(sizeList[c])
    {
      var c := SizeClass(v.actualSize);
      if c != UNLISTED {
        var pos := ListPos(v, sizeList[c]);
        if pos != -1 {
          sizeList := sizeList[c := Without(sizeList[c], pos)];
        }
      }
    }

    method PutIntoSizeList(item: ItemPos)
      requires |sizeList| == 8
      modifies this`sizeList
      ensures Enlisted(old(sizeList), item.actualSize, item, sizeList)
      ensures |sizeList| == 8 && forall c :: 0 <= c < 8 ==>
        sizeList[c] == old(sizeList[c]) + if c == SizeClass(item.actualSize) then [item] else []
    {
      var c := SizeClass(item.actualSize);
      if c != UNLISTED {
        sizeList := sizeList[c := sizeList[c] + [item]];
      }
    }

    static method ListPos(v: ItemPos, arr: seq<ItemPos>) returns (r: int)
      ensures -1 <= r < |arr|
      ensures r == -1 <==> v !in arr
      ensures r != -1 ==> arr[r] == v && v !in arr[..r]
    {
      var x := 0;
      while x < |arr|
        invariant 0 <= x <= |arr|
        invariant v !in arr[..x]
      {
        if v == arr[x] {
          return x;
        }
        x := x + 1;
      }
      return -1;
    }

    /** Removes both tree entries of v and its list entry. */
    method Unlink(v: ItemPos)
      requires Valid() && v in at
      modifies this
      ensures Valid() && at == old(at) - {v}
      ensures Block(v.parentIndex, v.actualSize) == old(at)[v]
      ensures Free() == old(Free()) - {v.parentIndex}
    {
      hide Spread; hide FreeOf;
      ghost var tree, lists := indexTree, sizeList;
      indexTree := indexTree - {v.parentIndex};
      indexTree := indexTree - {v.parentIndex + v.actualSize - 1};
      RemoveFromSizeList(v);
      assert indexTree == tree - {at[v].start, at[v].Last()};
      Detach(tree, lists, at, v, sizeList);
      at := at - {v};
    }

    /** Adds both tree entries of a new item and its list entry. */
    method Link(item: ItemPos)
      requires Valid() && item !in at && item.actualSize > 0
      requires Clear(Free(), item.parentIndex - 1, item.actualSize + 2)
      modifies this
      ensures Valid() && at == old(at)[item := Block(item.parentIndex, item.actualSize)]
      ensures Free() == old(Free())[item.parentIndex := item.actualSize]
    {
      hide Indexed; hide Spread; hide FreeOf; hide Clear;
      ghost var tree, lists, b := indexTree, sizeList, Block(item.parentIndex, item.actualSize);
      indexTree := indexTree[item.parentIndex := item];
      indexTree := indexTree[item.parentIndex + item.actualSize - 1 := item];
      PutIntoSizeList(item);
      Attach(tree, lists, at, item, b, sizeList);
      at := at[item := b];
    }

    method Add(index: int, size: int)
      requires Valid()
      requires size > 0 && Clear(Free(), index, size)
      modifies this
      ensures Valid() && fresh(at.Keys - old(at.Keys))
      ensures Free() == Release(old(Free()), index, size)
    {
      hide Represents; hide FreeOf; hide Clear; hide LeftOf; hide Apart; hide Synced;
      ghost var m := Free();
      FreeApart(indexTree, sizeList, at);
      ReleaseClear(m, index, size);
      LookupLeft(indexTree, sizeList, at, index, size);
      var item := new ItemPos(index, size);
      if index - 1 in indexTree {
        var v := indexTree[index - 1];
        Unlink(v);
        item.parentIndex := v.parentIndex;
        item.actualSize := v.actualSize + size;
        ClearFewer(m, {v.parentIndex}, index, size);
      }
      LookupRight(indexTree, sizeList, at, index, size);
      if index + size in indexTree {
        var v := indexTree[index + size];
        Unlink(v);
        item.parentIndex := index;
        item.actualSize := size + v.actualSize;
      }
      assert Free() == Bystanders(m, index, size);
      Link(item);
    }

    /** Removes both tree entries of the item at position x of list idx, and that list entry. */
    method UnlinkAt(idx: int, x: int)
      requires Valid() && 0 <= idx < 8 && 0 <= x < |sizeList[idx]|
      modifies this
      ensures var v := old(sizeList[idx][x]);
        && Valid() && v in old(at) && at == old(at) - {v}
        && Block(v.parentIndex, v.actualSize) == old(at)[v]
        && Free() == old(Free()) - {v.parentIndex}
    {
      hide Indexed; hide Spread; hide FreeOf;
      ghost var tree, lists := indexTree, sizeList;
      var v := sizeList[idx][x];
      indexTree := indexTree - {v.parentIndex};
      sizeList := sizeList[idx := Without(sizeList[idx], x)];
      indexTree := indexTree - {v.actualSize + v.parentIndex - 1};
      assert indexTree == tree - {at[v].start, at[v].Last()};
      Detach(tree, lists, at, v, sizeList);
      at := at - {v};
    }

    /** Takes the first size bytes of item v, in place: done only when more than 4096 bytes are left. */
    method ShrinkInPlace(v: ItemPos, size: int)
      requires Valid() && v in at && 0 < size && 4096 < v.actualSize - size
      modifies this, v
      ensures Valid() && at.Keys == old(at.Keys)
      ensures Free() == Carve(old(Free()), old(v.parentIndex), size)
    {
      hide Indexed; hide Spread; hide FreeOf; hide Listed;
      ghost var tree, at0 := indexTree, at;
      indexTree := indexTree - {v.parentIndex};
      v.parentIndex := v.parentIndex + size;
      v.actualSize := v.actualSize - size;
      indexTree := indexTree[v.parentIndex := v];
      at := at[v := Block(v.parentIndex, v.actualSize)];
      Shrink(tree, sizeList, at0, v, size, indexTree, at);
    }

    method FindInSizeList(idx: int, size: int, buckSize: int) returns (r: int, found: bool)
      requires Valid() && 0 <= idx < 8 && size > 0
      requires if idx < 7 then Bound(idx) - size <= buckSize else buckSize == 4097
      modifies this, at.Keys
      ensures Valid() && fresh(at.Keys - old(at.Keys))
      ensures found ==>
        var m := old(Free());
        r in m && SizeClass(m[r]) == idx && size <= m[r] && Free() == Carve(m, r, size)
      ensures found ==>
        exists x :: FirstFit(old(sizeList[idx]), old(at), x, size) && old(at)[old(sizeList[idx])[x]].start == r
      ensures !found ==> r == -1 && unchanged(this) && unchanged(at.Keys) && NoFit(Free(), idx, size)
    {
      hide Indexed; hide Spread; hide FreeOf; hide Apart; hide Clear; hide Release;
      ghost var m := Free();
      var x := 0;
      while x < |sizeList[idx]|
        invariant 0 <= x <= |sizeList[idx]|
        invariant unchanged(this) && unchanged(at.Keys)
        invariant forall y :: 0 <= y < x ==> at[sizeList[idx][y]].size < size
      {
        var tmp := sizeList[idx][x];
        if size <= tmp.actualSize {
          assert FirstFit(sizeList[idx], at, x, size);
          IndexedAt(indexTree, at, tmp);
          r := tmp.parentIndex;
          if size == tmp.actualSize {
            UnlinkAt(idx, x);
            return r, true;
          }
          if tmp.actualSize - size >= buckSize {
            ShrinkInPlace(tmp, size);
            return r, true;
          }
          FreeApart(indexTree, sizeList, at);
          CarveByRelease(m, r, size);
          UnlinkAt(idx, x);
          Add(tmp.parentIndex + size, tmp.actualSize - size);
          return r, true;
        }
        x := x + 1;
      }
      ScanComplete(indexTree, sizeList, at, idx, size);
      return -1, false;
    }

    method Find(size: int) returns (r: int)
      requires Valid() && size > 0
      requires forall s :: s in Free() ==> s >= 0
      modifies this, at.Keys
      ensures Valid() && fresh(at.Keys - old(at.Keys))
      ensures r == -1 ==> Free() == old(Free())
      ensures r == -1 <==> forall s :: s in old(Free()) ==> old(Free())[s] == 4096 || old(Free())[s] < size
      ensures r != -1 ==> Taken(old(Free()), r, size, Free())
      ensures r != -1 ==> forall t :: t in old(Free()) && size <= old(Free())[t] ==>
        var taken, other := old(Free())[r], old(Free())[t];
        && (other < 64 ==> taken < 64) && (other < 128 ==> taken < 128) && (other < 256 ==> taken < 256)
        && (other < 512 ==> taken < 512) && (other < 1024 ==> taken < 1024) && (other < 2048 ==> taken < 2048)
        && (other < 4096 ==> taken < 4096)
    {
      hide Represents; hide FreeOf; hide Synced; hide Carve;
      ghost var m := Free();
      var index, buckSize := 0, 0;
      if {
        case size < 64 => index, buckSize := 0, 64;
        case 64 <= size < 128 => index, buckSize := 1, 128;
        case 128 <= size < 256 => index, buckSize := 2, 256;
        case 256 <= size < 512 => index, buckSize := 3, 512;
        case 512 <= size < 1024 => index, buckSize := 4, 1024;
        case 1024 <= size < 2048 => index, buckSize := 5, 2048;
        case 2048 <= size < 4096 => index, buckSize := 6, 4096;
        case size > 4096 => index, buckSize := 7, 4097;
        case size == 4096 =>
      }
      var idx := index;
      while idx < 8
        invariant index <= idx <= 8
        invariant idx < 7 ==> Bound(idx) - size <= buckSize
        invariant idx < 7 && size != 4096 ==> buckSize == Bound(idx)
        invariant size == 4096 && idx < 7 ==> buckSize == 0
        invariant idx == 7 ==> buckSize == 4097
        invariant unchanged(this) && unchanged(at.Keys)
        invariant forall s :: s in m && SizeClass(m[s]) < idx ==> m[s] < size
      {
        var v, found := FindInSizeList(idx, size, buckSize);
        if found {
          assert Taken(m, v, size, Free());
          forall t | t in m && size <= m[t] {
            TakenLow(m, v, size, Free(), t);
          }
          return v;
        }
        if idx < 6 {
          buckSize := buckSize * 2;
        } else {
          buckSize := 4097;
        }
        idx := idx + 1;
      }
      return -1;
    }
  }
}
