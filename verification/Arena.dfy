/** The byte arena of a queue as a value: which bytes belong to which block. */
module Arena {
  import opened Bytes
  import opened Regions
  import opened FreeLists

  const HEADER := 4
  const LEFT_MARGIN := 1
  const MINIMUM_EMPTY_BLOB := 32 + HEADER

  /** What a range of the arena holds: an entry, a block of the free list, or bytes that the free
      list has forgotten. */
  datatype Tile = Live(data: seq<byte>) | Idle(size: int) | Lost(size: int) {
    function Extent(): int {
      match this
      case Live(d) => HEADER + |d|
      case Idle(n) => n
      case Lost(n) => n
    }
  }

  type Tiles = map<int, Tile>

  ghost function Extents(tiles: Tiles): Regions { map s | s in tiles :: tiles[s].Extent() }
  ghost function LiveIn(tiles: Tiles): map<int, seq<byte>> { map s | s in tiles && tiles[s].Live? :: tiles[s].data }
  ghost function IdleIn(tiles: Tiles): Regions { map s | s in tiles && tiles[s].Idle? :: tiles[s].size }
  ghost function LostIn(tiles: Tiles): Regions { map s | s in tiles && tiles[s].Lost? :: tiles[s].size }

  datatype State = State(bytes: seq<byte>, head: int, tail: int, right: int, tiles: Tiles)

  /** An entry as it is laid out in the arena: its length, then its bytes. */
  function Encode(data: seq<byte>): (r: seq<byte>)
    ensures |r| == HEADER + |data|
  {
    Put(|data|, HEADER) + data
  }

  ghost predicate Holds(bytes: seq<byte>, s: int, data: seq<byte>) {
    && 0 <= s && s + HEADER + |data| <= |bytes|
    && |data| < TWO_32
    && bytes[s..s + HEADER + |data|] == Encode(data)
  }

  /** The bytes between head and tail, taking the wrap at the right margin into account. */
  ghost predicate InUse(head: int, tail: int, right: int, b: int) {
    if head <= tail then head <= b < tail
    else LEFT_MARGIN <= b < tail || head <= b < right
  }

  ghost predicate Layout(q: State) {
    && LEFT_MARGIN <= q.head && LEFT_MARGIN <= q.tail
    && if q.head <= q.tail then
         && q.right == q.tail && (q.tail <= |q.bytes| || q.tail == LEFT_MARGIN)
         && (q.head == q.tail ==> q.head == LEFT_MARGIN)
       else
         q.tail + MINIMUM_EMPTY_BLOB <= q.head < q.right <= |q.bytes|
  }

  /** The tiles are disjoint and cover exactly the bytes in use. */
  ghost predicate Tiling(m: Regions, head: int, tail: int, right: int) {
    Disjoint(m) && forall b :: Covers(m, b) <==> InUse(head, tail, right, b)
  }

  ghost predicate Stored(bytes: seq<byte>, tiles: Tiles) {
    forall s :: s in tiles && tiles[s].Live? ==> Holds(bytes, s, tiles[s].data)
  }

  ghost predicate Sound(q: State) {
    Layout(q) && Tiling(Extents(q.tiles), q.head, q.tail, q.right) && Stored(q.bytes, q.tiles)
  }

  // ---------------------------------------------------------------- where tiles lie

  lemma ClearUncovered(m: Regions, k: int, n: int)
    requires Disjoint(m) && n > 0
    requires forall b :: k <= b < k + n ==> !Covers(m, b)
    ensures Clear(m, k, n)
  {
    forall s | s in m ensures s + m[s] <= k || k + n <= s {
      var b := if s <= k then k else s;
      CoversAt(m, s, b);
    }
  }

  /** Every tile lies within one of the two runs of bytes in use. */
  lemma TileBounds(q: State, s: int)
    requires Layout(q) && Tiling(Extents(q.tiles), q.head, q.tail, q.right)
    requires s in q.tiles
    ensures q.tiles[s].Extent() > 0
    ensures var e := s + q.tiles[s].Extent();
      if q.head <= q.tail then q.head <= s && e <= q.tail
      else (LEFT_MARGIN <= s && e <= q.tail) || (q.head <= s && e <= q.right)
  {
    var m := Extents(q.tiles);
    Positive(m, s);
    CoversAt(m, s, s);
    CoversAt(m, s, s + m[s] - 1);
    if q.tail < q.head && s < q.tail {
      CoversAt(m, s, q.tail);
    }
  }

  /** Writing src at k leaves alone whatever is stored elsewhere. */
  lemma HoldsFrame(bytes: seq<byte>, k: int, src: seq<byte>, s: int, data: seq<byte>)
    requires 0 <= k && k + |src| <= |bytes|
    requires Holds(bytes, s, data)
    requires s + HEADER + |data| <= k || k + |src| <= s
    ensures Holds(Overwrite(bytes, k, src), s, data)
  {
    var r := Overwrite(bytes, k, src);
    var e := s + HEADER + |data|;
    assert forall i :: s <= i < e ==> r[i] == bytes[i];
    assert r[s..e] == bytes[s..e];
  }

  lemma HoldsWritten(bytes: seq<byte>, k: int, data: seq<byte>)
    requires 0 <= k && k + HEADER + |data| <= |bytes| && |data| < TWO_32
    ensures Holds(Overwrite(bytes, k, Encode(data)), k, data)
  {
    assert Overwrite(bytes, k, Encode(data))[k..k + HEADER + |data|] == Encode(data);
  }

  /** Placing an entry over bytes that no entry uses. */
  lemma StoreEntry(bytes: seq<byte>, tiles: Tiles, k: int, data: seq<byte>, tiles': Tiles)
    requires Stored(bytes, tiles) && |data| < TWO_32
    requires 0 <= k && k + HEADER + |data| <= |bytes|
    requires forall s :: s in tiles' && tiles'[s].Live? ==>
      if s == k then tiles'[s] == Live(data)
      else s in tiles && tiles[s] == tiles'[s] && (s + tiles[s].Extent() <= k || k + HEADER + |data| <= s)
    ensures Stored(Overwrite(bytes, k, Encode(data)), tiles')
  {
    HoldsWritten(bytes, k, data);
    forall s | s in tiles' && tiles'[s].Live? && s != k
      ensures Holds(Overwrite(bytes, k, Encode(data)), s, tiles'[s].data)
    {
      HoldsFrame(bytes, k, Encode(data), s, tiles[s].data);
    }
  }

  // ---------------------------------------------------------------- writing an entry at the tail

  ghost predicate RoomAtTail(q: State, n: int) {
    if q.head <= q.tail then q.tail + n <= |q.bytes| else q.tail + n + MINIMUM_EMPTY_BLOB <= q.head
  }

  ghost function Appended(q: State, data: seq<byte>): State
    requires 0 <= q.tail && q.tail + HEADER + |data| <= |q.bytes|
  {
    var tail := q.tail + HEADER + |data|;
    State(Overwrite(q.bytes, q.tail, Encode(data)), q.head, tail, if tail > q.head then tail else q.right,
          q.tiles[q.tail := Live(data)])
  }

  lemma AppendTail(q: State, data: seq<byte>)
    requires Sound(q) && |data| < TWO_32 && RoomAtTail(q, HEADER + |data|)
    ensures q.tail + HEADER + |data| <= |q.bytes| && q.tail !in q.tiles
    ensures Sound(Appended(q, data))
    ensures LiveIn(Appended(q, data).tiles) == LiveIn(q.tiles)[q.tail := data]
    ensures IdleIn(Appended(q, data).tiles) == IdleIn(q.tiles)
    ensures LostIn(Appended(q, data).tiles) == LostIn(q.tiles)
  {
    hide Covers; hide Disjoint; hide Holds;
    var n := HEADER + |data|;
    var m := Extents(q.tiles);
    ClearUncovered(m, q.tail, n);
    Insert(m, q.tail, n);
    var q' := Appended(q, data);
    assert Extents(q'.tiles) == m[q.tail := n];
    assert forall s :: s in q.tiles ==> m[s] == q.tiles[s].Extent();
    StoreEntry(q.bytes, q.tiles, q.tail, data, q'.tiles);
    assert Layout(q');
    forall b ensures Covers(m[q.tail := n], b) <==> InUse(q'.head, q'.tail, q'.right, b) {
      assert Covers(m, b) <==> InUse(q.head, q.tail, q.right, b);
    }
  }

  // ---------------------------------------------------------------- writing an entry into a free block

  ghost function FilledTiles(tiles: Tiles, s: int, data: seq<byte>): Tiles
    requires s in tiles
  {
    var n, k := HEADER + |data|, tiles[s].Extent();
    if k == n then tiles[s := Live(data)] else tiles[s := Live(data)][s + n := Idle(k - n)]
  }

  ghost function Filled(q: State, s: int, data: seq<byte>): State
    requires s in q.tiles && 0 <= s && s + HEADER + |data| <= |q.bytes|
  {
    q.(bytes := Overwrite(q.bytes, s, Encode(data)), tiles := FilledTiles(q.tiles, s, data))
  }

  lemma FilledViews(tiles: Tiles, s: int, data: seq<byte>)
    requires Disjoint(Extents(tiles))
    requires s in tiles && tiles[s].Idle? && HEADER + |data| <= tiles[s].size
    ensures var tiles' := FilledTiles(tiles, s, data);
      && LiveIn(tiles') == LiveIn(tiles)[s := data]
      && IdleIn(tiles') == Carve(IdleIn(tiles), s, HEADER + |data|)
      && LostIn(tiles') == LostIn(tiles)
      && Disjoint(Extents(tiles'))
      && (forall b :: Covers(Extents(tiles'), b) <==> Covers(Extents(tiles), b))
  {
    hide Covers; hide Disjoint; hide LiveIn; hide IdleIn; hide LostIn; hide Carve;
    var n, m, tiles' := HEADER + |data|, Extents(tiles), FilledTiles(tiles, s, data);
    if n < tiles[s].size {
      Split(m, s, n);
      assert Extents(tiles') == m[s := n][s + n := m[s] - n];
      assert s + n !in m && s + n !in tiles;
    } else {
      assert Extents(tiles') == m;
    }
    FilledKinds(tiles, s, data);
  }

  lemma FilledKinds(tiles: Tiles, s: int, data: seq<byte>)
    requires s in tiles && tiles[s].Idle? && HEADER + |data| <= tiles[s].size
    requires HEADER + |data| < tiles[s].size ==> s + HEADER + |data| !in tiles
    ensures var tiles' := FilledTiles(tiles, s, data);
      && LiveIn(tiles') == LiveIn(tiles)[s := data]
      && IdleIn(tiles') == Carve(IdleIn(tiles), s, HEADER + |data|)
      && LostIn(tiles') == LostIn(tiles)
  {
  }

  lemma FillIdle(q: State, s: int, data: seq<byte>)
    requires Sound(q) && |data| < TWO_32
    requires s in IdleIn(q.tiles) && HEADER + |data| <= IdleIn(q.tiles)[s]
    ensures 0 <= s && s + HEADER + |data| <= |q.bytes|
    ensures Sound(Filled(q, s, data))
  {
    hide Covers; hide Disjoint; hide Holds;
    TileBounds(q, s);
    FilledViews(q.tiles, s, data);
    Others(q.tiles, s);
    StoreEntry(q.bytes, q.tiles, s, data, FilledTiles(q.tiles, s, data));
    forall b ensures Covers(Extents(FilledTiles(q.tiles, s, data)), b) <==> InUse(q.head, q.tail, q.right, b) {
      assert Covers(Extents(q.tiles), b) <==> InUse(q.head, q.tail, q.right, b);
    }
  }

  /** The other tiles do not meet tile s. */
  lemma Others(tiles: Tiles, s: int)
    requires Disjoint(Extents(tiles)) && s in tiles
    ensures forall t :: t in tiles && t != s ==> t + tiles[t].Extent() <= s || s + tiles[s].Extent() <= t
  {
    var m := Extents(tiles);
    forall t | t in tiles && t != s ensures t + tiles[t].Extent() <= s || s + tiles[s].Extent() <= t {
      assert m[t] == tiles[t].Extent() && m[s] == tiles[s].Extent();
    }
  }

  // ---------------------------------------------------------------- wrapping round and growing

  /** Moving the tail back to the left margin. */
  lemma WrapTail(q: State)
    requires Sound(q) && q.head <= q.tail && LEFT_MARGIN + MINIMUM_EMPTY_BLOB <= q.head
    ensures Sound(q.(tail := LEFT_MARGIN))
  {
    hide Covers; hide Disjoint; hide Holds;
    var q' := q.(tail := LEFT_MARGIN);
    forall b ensures Covers(Extents(q.tiles), b) <==> InUse(q'.head, q'.tail, q'.right, b) {
      assert Covers(Extents(q.tiles), b) <==> InUse(q.head, q.tail, q.right, b);
    }
  }

  lemma HoldsLarger(bytes: seq<byte>, bytes': seq<byte>, right: int, s: int, data: seq<byte>)
    requires Holds(bytes, s, data) && LEFT_MARGIN <= s && s + HEADER + |data| <= right <= |bytes| <= |bytes'|
    requires bytes'[LEFT_MARGIN..right] == bytes[LEFT_MARGIN..right]
    ensures Holds(bytes', s, data)
  {
    var e := s + HEADER + |data|;
    forall i | s <= i < e ensures bytes'[i] == bytes[i] {
      assert bytes'[i] == bytes'[LEFT_MARGIN..right][i - LEFT_MARGIN];
      assert bytes[i] == bytes[LEFT_MARGIN..right][i - LEFT_MARGIN];
    }
    assert bytes'[s..e] == bytes[s..e];
  }

  /** A larger arena with the same bytes up to the right margin. */
  lemma Enlarge(q: State, bytes: seq<byte>)
    requires Sound(q) && |q.bytes| <= |bytes|
    requires LEFT_MARGIN < q.right <= |q.bytes| ==> bytes[LEFT_MARGIN..q.right] == q.bytes[LEFT_MARGIN..q.right]
    ensures Sound(q.(bytes := bytes))
  {
    hide Covers; hide Disjoint; hide Holds; hide Extents;
    forall s | s in q.tiles && q.tiles[s].Live?
      ensures Holds(bytes, s, q.tiles[s].data)
    {
      TileBounds(q, s);
      HoldsLarger(q.bytes, bytes, q.right, s, q.tiles[s].data);
    }
  }

  function Zeros(n: nat): (z: seq<byte>)
    ensures |z| == n && forall i :: 0 <= i < n ==> z[i] == 0
  {
    seq(n, i => 0)
  }

  /** A wrapped queue whose gap is filled by a blob of zeros, so that one run of bytes is left. */
  ghost function Bridged(q: State): State
    requires q.tail + HEADER <= q.head && 0 <= q.tail && q.head <= |q.bytes|
  {
    var blob := Zeros(q.head - q.tail - HEADER);
    State(Overwrite(q.bytes, q.tail, Encode(blob)), LEFT_MARGIN, q.right, q.right, q.tiles[q.tail := Live(blob)])
  }

  lemma Bridge(q: State)
    requires Sound(q) && q.tail < q.head && q.head - q.tail < TWO_32
    ensures q.tail !in q.tiles
    ensures Sound(Bridged(q))
    ensures LiveIn(Bridged(q).tiles) == LiveIn(q.tiles)[q.tail := Zeros(q.head - q.tail - HEADER)]
    ensures IdleIn(Bridged(q).tiles) == IdleIn(q.tiles)
    ensures LostIn(Bridged(q).tiles) == LostIn(q.tiles)
  {
    hide Covers; hide Disjoint; hide Holds;
    var m, n, q' := Extents(q.tiles), q.head - q.tail, Bridged(q);
    ClearUncovered(m, q.tail, n);
    Insert(m, q.tail, n);
    assert Extents(q'.tiles) == m[q.tail := n];
    assert forall s :: s in q.tiles ==> m[s] == q.tiles[s].Extent();
    StoreEntry(q.bytes, q.tiles, q.tail, Zeros(n - HEADER), q'.tiles);
    forall b ensures Covers(m[q.tail := n], b) <==> InUse(q'.head, q'.tail, q'.right, b) {
      assert Covers(m, b) <==> InUse(q.head, q.tail, q.right, b);
    }
  }

  // ---------------------------------------------------------------- writing within an entry

  ghost function Patched(q: State, i: int, k: int, src: seq<byte>): State
    requires i in q.tiles && q.tiles[i].Live? && Holds(q.bytes, i, q.tiles[i].data)
    requires 0 <= k && k + |src| <= |q.tiles[i].data|
  {
    q.(bytes := Overwrite(q.bytes, i + HEADER + k, src),
       tiles := q.tiles[i := Live(Overwrite(q.tiles[i].data, k, src))])
  }

  lemma HoldsPatched(bytes: seq<byte>, i: int, data: seq<byte>, k: int, src: seq<byte>)
    requires Holds(bytes, i, data) && 0 <= k && k + |src| <= |data|
    ensures Holds(Overwrite(bytes, i + HEADER + k, src), i, Overwrite(data, k, src))
  {
    hide Put;
    var e, at := i + HEADER + |data|, i + HEADER + k;
    var bytes', data' := Overwrite(bytes, at, src), Overwrite(data, k, src);
    forall j | i <= j < e ensures bytes'[j] == Encode(data')[j - i] {
      assert bytes[j] == bytes[i..e][j - i] == Encode(data)[j - i];
    }
    assert bytes'[i..e] == Encode(data');
  }

  lemma PatchEntry(q: State, i: int, k: int, src: seq<byte>)
    requires Sound(q) && i in LiveIn(q.tiles) && 0 <= k && k + |src| <= |LiveIn(q.tiles)[i]|
    ensures i in q.tiles && Holds(q.bytes, i, q.tiles[i].data)
    ensures var q' := Patched(q, i, k, src);
      && Sound(q')
      && LiveIn(q'.tiles) == LiveIn(q.tiles)[i := Overwrite(LiveIn(q.tiles)[i], k, src)]
      && IdleIn(q'.tiles) == IdleIn(q.tiles) && LostIn(q'.tiles) == LostIn(q.tiles)
  {
    hide Covers; hide Disjoint; hide Holds; hide Overwrite;
    var q', data := Patched(q, i, k, src), q.tiles[i].data;
    assert Extents(q'.tiles) == Extents(q.tiles);
    Others(q.tiles, i);
    forall s | s in q'.tiles && q'.tiles[s].Live? ensures Holds(q'.bytes, s, q'.tiles[s].data) {
      if s == i {
        HoldsPatched(q.bytes, i, data, k, src);
      } else {
        PatchFrame(q.bytes, i, data, k, src, s, q.tiles[s].data);
      }
    }
  }

  lemma PatchFrame(bytes: seq<byte>, i: int, data: seq<byte>, k: int, src: seq<byte>, s: int, other: seq<byte>)
    requires Holds(bytes, i, data) && Holds(bytes, s, other) && 0 <= k && k + |src| <= |data|
    requires s + HEADER + |other| <= i || i + HEADER + |data| <= s
    ensures Holds(Overwrite(bytes, i + HEADER + k, src), s, other)
  {
    hide Overwrite;
    HoldsFrame(bytes, i + HEADER + k, src, s, other);
  }

  // ---------------------------------------------------------------- deleting an entry

  /** Entry i becomes free and is joined as the free list joins it; a left neighbour that the free
      list forgets is lost. */
  ghost function DeletedTiles(tiles: Tiles, i: int): Tiles
    requires i in tiles
  {
    var n, idle := tiles[i].Extent(), IdleIn(tiles);
    var left := LeftOf(idle, i);
    if i + n in idle then
      var joined := (tiles - {i + n})[i := Idle(n + idle[i + n])];
      if left.Some? then joined[left.value := Lost(idle[left.value])] else joined
    else if left.Some? then (tiles - {i})[left.value := Idle(idle[left.value] + n)]
    else tiles[i := Idle(n)]
  }

  lemma DeletedExtents(tiles: Tiles, i: int)
    requires Disjoint(Extents(tiles)) && i in tiles && tiles[i].Live?
    ensures var m' := Extents(DeletedTiles(tiles, i));
      Disjoint(m') && forall b :: Covers(m', b) <==> Covers(Extents(tiles), b)
    ensures Clear(IdleIn(tiles), i, tiles[i].Extent())
  {
    hide Covers; hide Disjoint; hide LeftOf;
    var m, n, idle := Extents(tiles), tiles[i].Extent(), IdleIn(tiles);
    var left := LeftOf(idle, i);
    Others(tiles, i);
    Neighbours(tiles, i);
    assert m[i] == n;
    assert forall s :: s in idle ==> s in m && m[s] == idle[s];
    var m' := Extents(DeletedTiles(tiles, i));
    if i + n in idle {
      Join(m, i, i + n);
      assert m' == (m - {i + n})[i := n + m[i + n]];
    } else if left.Some? {
      Join(m, left.value, i);
      assert m' == (m - {i})[left.value := m[left.value] + n];
    } else {
      assert m' == m;
    }
  }

  /** The free neighbours of entry i, if any, are two other tiles. */
  lemma Neighbours(tiles: Tiles, i: int)
    requires Disjoint(Extents(tiles)) && i in tiles && tiles[i].Live?
    ensures var n, idle := tiles[i].Extent(), IdleIn(tiles);
      var left := LeftOf(idle, i);
      n > 0 && (left.Some? ==> left.value < i && tiles[left.value] == Idle(idle[left.value]))
  {
    var idle, m := IdleIn(tiles), Extents(tiles);
    assert m[i] == tiles[i].Extent();
    var left := LeftOf(idle, i);
    if left.Some? {
      assert m[left.value] == idle[left.value];
    }
  }

  lemma DeletedViews(tiles: Tiles, i: int)
    requires Disjoint(Extents(tiles)) && i in tiles && tiles[i].Live?
    ensures var tiles', idle, n := DeletedTiles(tiles, i), IdleIn(tiles), tiles[i].Extent();
      && LiveIn(tiles') == LiveIn(tiles) - {i}
      && IdleIn(tiles') == Release(idle, i, n)
      && LostIn(tiles') == LostIn(tiles) + Forgotten(idle, i, n)
  {
    hide Disjoint; hide LeftOf; hide Release; hide Forgotten;
    Neighbours(tiles, i);
    DeletedIdle(tiles, i);
    DeletedLost(tiles, i);
    assert LiveIn(DeletedTiles(tiles, i)) == LiveIn(tiles) - {i};
  }

  lemma DeletedIdle(tiles: Tiles, i: int)
    requires Disjoint(Extents(tiles)) && i in tiles && tiles[i].Live?
    ensures IdleIn(DeletedTiles(tiles, i)) == Release(IdleIn(tiles), i, tiles[i].Extent())
  {
    hide Disjoint; hide LeftOf;
    var n, idle := tiles[i].Extent(), IdleIn(tiles);
    Neighbours(tiles, i);
    if i + n in idle {
      assert IdleIn(DeletedTiles(tiles, i)) == Release(idle, i, n);
    } else {
      assert IdleIn(DeletedTiles(tiles, i)) == Release(idle, i, n);
    }
  }

  lemma DeletedLost(tiles: Tiles, i: int)
    requires Disjoint(Extents(tiles)) && i in tiles && tiles[i].Live?
    ensures LostIn(DeletedTiles(tiles, i)) == LostIn(tiles) + Forgotten(IdleIn(tiles), i, tiles[i].Extent())
  {
    hide Disjoint; hide LeftOf;
    Neighbours(tiles, i);
  }

  lemma DeleteEntry(q: State, i: int)
    requires Sound(q) && i in LiveIn(q.tiles)
    ensures Sound(q.(tiles := DeletedTiles(q.tiles, i)))
  {
    hide Covers; hide Disjoint; hide Holds;
    DeletedExtents(q.tiles, i);
    forall b ensures Covers(Extents(DeletedTiles(q.tiles, i)), b) <==> InUse(q.head, q.tail, q.right, b) {
      assert Covers(Extents(q.tiles), b) <==> InUse(q.head, q.tail, q.right, b);
    }
  }

  // ---------------------------------------------------------------- popping the front entry

  ghost function Popped(q: State): State
    requires q.head in q.tiles
  {
    var head, tiles := q.head + q.tiles[q.head].Extent(), q.tiles - {q.head};
    if head == q.right then
      var tail := if q.tail == q.right then LEFT_MARGIN else q.tail;
      State(q.bytes, LEFT_MARGIN, tail, tail, tiles)
    else q.(head := head, tiles := tiles)
  }

  lemma PopFront(q: State)
    requires Sound(q) && q.head in LiveIn(q.tiles)
    ensures Sound(Popped(q))
    ensures LiveIn(Popped(q).tiles) == LiveIn(q.tiles) - {q.head}
    ensures IdleIn(Popped(q).tiles) == IdleIn(q.tiles)
    ensures LostIn(Popped(q).tiles) == LostIn(q.tiles)
  {
    hide Covers; hide Disjoint; hide Holds;
    var m, q' := Extents(q.tiles), Popped(q);
    TileBounds(q, q.head);
    Remove(m, q.head);
    assert Extents(q'.tiles) == m - {q.head};
    forall b ensures Covers(m - {q.head}, b) <==> InUse(q'.head, q'.tail, q'.right, b) {
      assert Covers(m, b) <==> InUse(q.head, q.tail, q.right, b);
    }
  }

  /** In a queue that is not empty, a tile starts at the head. */
  lemma HeadTile(q: State, s: int)
    requires Sound(q) && s in q.tiles
    ensures q.head in q.tiles
  {
    hide Disjoint; hide Stored;
    TileBounds(q, s);
    assert InUse(q.head, q.tail, q.right, q.head);
    var t :| t in Extents(q.tiles) && t <= q.head < t + Extents(q.tiles)[t];
    TileBounds(q, t);
  }

  // ---------------------------------------------------------------- the entries in queue order

  /** Only entries, no free or lost block. */
  ghost predicate AllLive(tiles: Tiles) {
    forall s :: s in tiles ==> tiles[s].Live?
  }

  /** Entries follow one another without a hole from a up to b. */
  ghost predicate Chain(tiles: Tiles, a: int, b: int)
    decreases b - a
  {
    a == b || (a < b && a in tiles && tiles[a].Live? && Chain(tiles, a + tiles[a].Extent(), b))
  }

  /** The entries met when walking from a up to b. */
  ghost function Walk(tiles: Tiles, a: int, b: int): seq<seq<byte>>
    decreases b - a
  {
    if a < b && a in tiles && tiles[a].Live? then [tiles[a].data] + Walk(tiles, a + tiles[a].Extent(), b) else []
  }

  /** The queue from its head to its tail. */
  ghost function Ring(q: State): seq<seq<byte>> {
    if q.head <= q.tail then Walk(q.tiles, q.head, q.tail)
    else Walk(q.tiles, q.head, q.right) + Walk(q.tiles, LEFT_MARGIN, q.tail)
  }

  /** The newer entries of a wrapped queue, then the older ones, with a blob of zeros between. */
  ghost function Rotated(q: State): seq<seq<byte>>
    requires q.tail + HEADER <= q.head
  {
    Walk(q.tiles, LEFT_MARGIN, q.tail) + [Zeros(q.head - q.tail - HEADER)] + Walk(q.tiles, q.head, q.right)
  }

  /** In a run of bytes in use that holds only entries, they form a chain. */
  lemma {:induction false} TilingChain(q: State, a: int, b: int)
    requires Sound(q) && AllLive(q.tiles)
    requires a <= b && (a == b || a in q.tiles)
    requires if q.head <= q.tail then q.head <= a && b == q.tail
      else (LEFT_MARGIN <= a && b == q.tail) || (q.head <= a && b == q.right)
    ensures Chain(q.tiles, a, b)
    decreases b - a
  {
    hide Disjoint; hide Stored; hide Holds;
    if a < b {
      TileBounds(q, a);
      var e := a + q.tiles[a].Extent();
      if e < b {
        NextTile(q, a);
      }
      TilingChain(q, e, b);
    }
  }

  /** A byte in use right after a tile starts a tile. */
  lemma NextTile(q: State, a: int)
    requires Sound(q) && a in q.tiles
    requires InUse(q.head, q.tail, q.right, a + q.tiles[a].Extent())
    ensures a + q.tiles[a].Extent() in q.tiles
  {
    hide Stored; hide Disjoint;
    var m, e := Extents(q.tiles), a + q.tiles[a].Extent();
    TileBounds(q, a);
    assert Covers(m, e);
    var t :| t in m && t <= e < t + m[t];
    Others(q.tiles, a);
  }

  lemma {:induction false} WalkJoin(tiles: Tiles, a: int, b: int, c: int)
    requires Chain(tiles, a, b) && b <= c
    ensures Walk(tiles, a, c) == Walk(tiles, a, b) + Walk(tiles, b, c)
    decreases b - a
  {
    if a < b {
      WalkJoin(tiles, a + tiles[a].Extent(), b, c);
    }
  }

  lemma {:induction false} WalkFrame(tiles: Tiles, tiles': Tiles, a: int, b: int)
    requires forall s :: a <= s < b ==> (s in tiles <==> s in tiles') && (s in tiles ==> tiles[s] == tiles'[s])
    ensures Walk(tiles, a, b) == Walk(tiles', a, b)
    ensures Chain(tiles, a, b) ==> Chain(tiles', a, b)
    decreases b - a
  {
    if a < b && a in tiles && tiles[a].Live? {
      WalkFrame(tiles, tiles', a + tiles[a].Extent(), b);
    }
  }

  lemma WalkEmpty(tiles: Tiles, a: int)
    ensures Walk(tiles, a, a) == []
  {
  }

  lemma WalkStep(tiles: Tiles, a: int, b: int)
    requires a < b && a in tiles && tiles[a].Live?
    ensures Walk(tiles, a, b) == [tiles[a].data] + Walk(tiles, a + tiles[a].Extent(), b)
  {
  }

  /** A tile starts at the left margin of a wrapped queue, unless nothing was written there yet. */
  lemma LeftTile(q: State)
    requires Sound(q) && q.tail < q.head && LEFT_MARGIN < q.tail
    ensures LEFT_MARGIN in q.tiles
  {
    hide Disjoint; hide Stored;
    assert Covers(Extents(q.tiles), LEFT_MARGIN);
    var t :| t in Extents(q.tiles) && t <= LEFT_MARGIN < t + Extents(q.tiles)[t];
    TileBounds(q, t);
  }

  /** The runs of bytes in use are chains of entries. */
  lemma RunsChain(q: State)
    requires Sound(q) && AllLive(q.tiles)
    ensures if q.head <= q.tail then Chain(q.tiles, q.head, q.tail)
      else Chain(q.tiles, q.head, q.right) && Chain(q.tiles, LEFT_MARGIN, q.tail)
  {
    hide Disjoint; hide Stored; hide AllLive; hide Tiling;
    if q.head != q.tail {
      var s := RunsNotEmpty(q);
      HeadTile(q, s);
    }
    if q.head <= q.tail {
      TilingChain(q, q.head, q.tail);
    } else {
      TilingChain(q, q.head, q.right);
      if LEFT_MARGIN < q.tail {
        LeftTile(q);
      }
      TilingChain(q, LEFT_MARGIN, q.tail);
    }
  }

  lemma RunsNotEmpty(q: State) returns (s: int)
    requires Sound(q) && q.head != q.tail
    ensures s in q.tiles
  {
    assert Covers(Extents(q.tiles), q.head);
    s :| s in Extents(q.tiles);
  }

  /** Pushing at the tail appends to the queue. */
  lemma RingAppend(q: State, data: seq<byte>)
    requires Sound(q) && AllLive(q.tiles) && |data| < TWO_32 && RoomAtTail(q, HEADER + |data|)
    requires 0 <= q.tail && q.tail + HEADER + |data| <= |q.bytes|
    ensures AllLive(Appended(q, data).tiles)
    ensures Ring(Appended(q, data)) == Ring(q) + [data]
  {
    hide Sound; hide RoomAtTail; hide Walk; hide Chain;
    RunsChain(q);
    var tiles', end := Appended(q, data).tiles, q.tail + HEADER + |data|;
    var a := if q.head <= q.tail then q.head else LEFT_MARGIN;
    WalkFrame(q.tiles, tiles', a, q.tail);
    WalkJoin(tiles', a, q.tail, end);
    WalkStep(tiles', q.tail, end);
    WalkEmpty(tiles', end);
    assert Walk(tiles', a, end) == Walk(q.tiles, a, q.tail) + [data];
    if q.tail < q.head {
      assert end < q.head by { RoomBeforeHead(q, data); }
      WalkFrame(q.tiles, tiles', q.head, q.right);
      assert Ring(q) + [data] == Walk(q.tiles, q.head, q.right) + (Walk(q.tiles, LEFT_MARGIN, q.tail) + [data]);
    }
  }

  lemma RoomBeforeHead(q: State, data: seq<byte>)
    requires q.tail < q.head && RoomAtTail(q, HEADER + |data|)
    ensures q.tail + HEADER + |data| < q.head
  {
  }

  /** Filling the gap of a wrapped queue puts the newer entries in front of the older ones. */
  lemma RingBridge(q: State)
    requires Sound(q) && AllLive(q.tiles) && q.tail < q.head
    ensures AllLive(Bridged(q).tiles)
    ensures Ring(Bridged(q)) == Rotated(q)
  {
    hide Tiling; hide Stored; hide Walk; hide Chain;
    RunsChain(q);
    var tiles', blob := Bridged(q).tiles, Zeros(q.head - q.tail - HEADER);
    WalkFrame(q.tiles, tiles', LEFT_MARGIN, q.tail);
    WalkFrame(q.tiles, tiles', q.head, q.right);
    WalkJoin(tiles', LEFT_MARGIN, q.tail, q.right);
    WalkStep(tiles', q.tail, q.right);
  }

  lemma HeadBounds(q: State)
    requires Sound(q) && q.head in q.tiles
    ensures Layout(q) && q.tiles[q.head].Extent() > 0
    ensures q.head + q.tiles[q.head].Extent() <= if q.head <= q.tail then q.tail else q.right
  {
    hide Tiling; hide Stored;
    TileBounds(q, q.head);
  }

  /** Popping takes the front of the queue. */
  lemma RingPop(q: State)
    requires Sound(q) && AllLive(q.tiles) && q.head in q.tiles
    ensures AllLive(Popped(q).tiles)
    ensures Ring(q) == [q.tiles[q.head].data] + Ring(Popped(q))
  {
    hide Sound; hide Chain; hide Walk; hide Tile.Extent;
    HeadBounds(q);
    var q', e := Popped(q), q.head + q.tiles[q.head].Extent();
    var b := if q.head <= q.tail then q.tail else q.right;
    WalkStep(q.tiles, q.head, b);
    WalkFrame(q.tiles, q'.tiles, e, b);
    WalkEmpty(q'.tiles, e);
    WalkEmpty(q'.tiles, LEFT_MARGIN);
    if q.tail < q.head {
      WalkFrame(q.tiles, q'.tiles, LEFT_MARGIN, q.tail);
    }
  }

  // ---------------------------------------------------------------- conservation

  ghost function LiveExtents(tiles: Tiles): Regions { map s | s in tiles && tiles[s].Live? :: HEADER + |tiles[s].data| }

  lemma {:induction false} TotalByKind(tiles: Tiles)
    ensures Total(Extents(tiles)) == Total(LiveExtents(tiles)) + Total(IdleIn(tiles)) + Total(LostIn(tiles))
    decreases |tiles|
  {
    hide Total;
    if s :| s in tiles {
      var rest := tiles - {s};
      TotalByKind(rest);
      TotalDrop(Extents(tiles), Extents(rest), s);
      TotalDrop(LiveExtents(tiles), LiveExtents(rest), s);
      TotalDrop(IdleIn(tiles), IdleIn(rest), s);
      TotalDrop(LostIn(tiles), LostIn(rest), s);
    } else {
      TotalEmpty(Extents(tiles));
      TotalEmpty(LiveExtents(tiles));
      TotalEmpty(IdleIn(tiles));
      TotalEmpty(LostIn(tiles));
    }
  }

  lemma TotalDrop(m: Regions, m': Regions, s: int)
    requires m' == m - {s}
    ensures Total(m) == Total(m') + if s in m then m[s] else 0
  {
    hide Total;
    if s in m {
      TotalRemove(m, s);
    } else {
      assert m - {s} == m;
    }
  }

  /** Live, free and lost bytes together are exactly the bytes in use. */
  lemma Conservation(q: State)
    requires Sound(q)
    ensures Total(LiveExtents(q.tiles)) + Total(IdleIn(q.tiles)) + Total(LostIn(q.tiles))
      == if q.head <= q.tail then q.tail - q.head else (q.tail - LEFT_MARGIN) + (q.right - q.head)
  {
    hide Covers; hide Disjoint; hide Stored;
    var m := Extents(q.tiles);
    TotalByKind(q.tiles);
    assert forall b :: Covers(m, b) <==> InUse(q.head, q.tail, q.right, b);
    if q.head <= q.tail {
      TotalOfRuns(m, q.head, q.head, q.head, q.tail);
    } else {
      TotalOfRuns(m, LEFT_MARGIN, q.tail, q.head, q.right);
    }
  }
}
