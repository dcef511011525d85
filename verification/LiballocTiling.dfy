/** Melting, swallowing, carving and chunk traffic keep every chunk exactly tiled. */
module LiballocTiling {
  import opened Machine
  import opened LiballocModel
  import opened LiballocInvariant

  /** The two states agree on every header field that tiling looks at. */
  ghost predicate SameTiling(s: State, r: State) {
    && r.owner == s.owner && r.chunks == s.chunks && r.top == s.top
    && forall a {:trigger a in r.tags} :: a in s.owner ==>
         && a in r.tags
         && SamePlace(Get(s.tags, a), r.tags[a])
  }

  predicate SamePlace(t: Tag, u: Tag) {
    u.magic == t.magic && u.realSize == t.realSize && u.splitLeft == t.splitLeft && u.splitRight == t.splitRight
  }

  lemma SameTilingTiled(s: State, r: State)
    requires Tiled(s) && SameTiling(s, r)
    ensures Tiled(r)
  {
    forall a | a in r.owner
      ensures TagTiled(r, a)
    {
      assert TagTiled(s, a);
      assert a in r.tags;
    }
    forall c | c in r.chunks
      ensures ChunkOk(r, c)
    {
      assert ChunkOk(s, c);
    }
    forall a, b | a in r.owner && b in r.owner && a < b
      ensures Get(r.tags, a).realSize + a <= b
    {
      assert TagTiled(s, a);
      assert a in r.tags;
    }
  }

  // ----- melt_left

  /** Tag b after the left neighbour of a has swallowed a. */
  function Melted(s: State, a: int, b: int): Tag {
    var t := Get(s.tags, a);
    var u := Get(s.tags, b);
    if b == t.splitLeft then u.(realSize := u.realSize + t.realSize, splitRight := t.splitRight)
    else if b == t.splitRight then u.(splitLeft := t.splitLeft)
    else u
  }

  /** r is s after the left neighbour of a has swallowed a, as far as tiling goes. */
  ghost predicate IsMelted(s: State, r: State, a: int) {
    && r.owner == s.owner - {a} && r.chunks == s.chunks && r.top == s.top
    && forall b {:trigger b in r.tags} :: b in s.owner && b != a ==>
         b in r.tags && r.tags[b] == Melted(s, a, b)
  }

  lemma MeltEffect(s: State, a: int)
    requires Shape(s) && Tiled(s) && a in s.owner && Get(s.tags, a).splitLeft != 0
    ensures a in s.tags && s.tags[a].splitLeft in s.owner && s.tags[a].splitLeft != a
    ensures IsMelted(s, MeltLeft(s, a), a)
  {
    assert TagTiled(s, a);
    var t := s.tags[a];
    assert TagTiled(s, t.splitLeft) && ChunkOk(s, s.owner[a]);
    if t.splitRight != 0 {
      assert TagTiled(s, t.splitRight);
    }
    assert U32(s.tags[t.splitLeft].realSize + t.realSize) == s.tags[t.splitLeft].realSize + t.realSize;
    var r := MeltLeft(s, a);
    forall b | b in s.owner && b != a
      ensures b in r.tags && r.tags[b] == Melted(s, a, b)
    {
      assert TagTiled(s, b);
    }
  }

  lemma MeltTiled(s: State, a: int)
    requires Shape(s) && Tiled(s) && a in s.owner && Get(s.tags, a).splitLeft != 0
    ensures Tiled(MeltLeft(s, a))
  {
    MeltEffect(s, a);
    MeltedTiled(s, MeltLeft(s, a), a);
  }

  lemma MeltedTiled(s: State, r: State, a: int)
    requires Tiled(s) && a in s.owner && Get(s.tags, a).splitLeft != 0 && IsMelted(s, r, a)
    ensures Tiled(r)
  {
    assert TagTiled(s, a);
    forall b | b in r.owner
      ensures TagTiled(r, b)
    {
      MeltedTag(s, r, a, b);
    }
    forall c | c in r.chunks
      ensures ChunkOk(r, c)
    {
      assert ChunkOk(s, c);
    }
    MeltedApart(s, r, a);
  }

  lemma MeltedApart(s: State, r: State, a: int)
    requires Tiled(s) && a in s.owner && Get(s.tags, a).splitLeft != 0 && IsMelted(s, r, a)
    ensures Apart(r)
  {
    assert TagTiled(s, a);
    forall b, c | b in r.owner && c in r.owner && b < c
      ensures Get(r.tags, b).realSize + b <= c
    {
      assert TagTiled(s, b) && TagTiled(s, s.tags[a].splitLeft);
      assert b in r.tags;
    }
  }

  lemma MeltedPlaced(s: State, r: State, a: int, b: int)
    requires Tiled(s) && a in s.owner && Get(s.tags, a).splitLeft != 0 && IsMelted(s, r, a)
    requires b in r.owner
    ensures TagPlaced(r, b)
  {
    assert TagTiled(s, a) && TagTiled(s, b);
    assert b in r.tags;
  }

  lemma MeltedTag(s: State, r: State, a: int, b: int)
    requires Tiled(s) && a in s.owner && Get(s.tags, a).splitLeft != 0 && IsMelted(s, r, a)
    requires b in r.owner
    ensures TagTiled(r, b)
  {
    MeltedPlaced(s, r, a, b);
    assert TagTiled(s, a) && TagTiled(s, b);
    assert b in r.tags && s.tags[a].splitLeft in r.tags;
    var u := r.tags[b];
    if u.splitLeft != 0 {
      assert Abut(r, u.splitLeft, b) by {
        assert u.splitLeft in r.tags;
      }
    }
    if u.splitRight != 0 {
      assert Abut(r, b, u.splitRight) by {
        assert u.splitRight in r.tags;
      }
    }
  }

  // ----- absorb_right

  /** Swallowing to the right is the right neighbour melting to the left. */
  lemma SwallowIsMelt(s: State, a: int)
    requires Shape(s) && Tiled(s) && a in s.owner && Get(s.tags, a).splitRight != 0
    ensures a in s.tags && s.tags[a].splitRight in s.owner && s.tags[a].splitRight != a
    ensures Swallow(s, a) == MeltLeft(s, s.tags[a].splitRight)
  {
    assert TagTiled(s, a);
    assert TagTiled(s, s.tags[a].splitRight);
  }

  // ----- split_tag

  predicate CanCarve(s: State, a: int) {
    && a in s.owner && a in s.tags
    && s.tags[a].size >= 0
    && s.tags[a].size + 2 * HEADER <= s.tags[a].realSize
  }

  function CarvePoint(s: State, a: int): int {
    a + HEADER + Get(s.tags, a).size
  }

  /** Tag b after the tail of a has become a tag of its own. */
  function Carved(s: State, a: int, b: int): Tag {
    var t := Get(s.tags, a);
    var u := Get(s.tags, b);
    var n := CarvePoint(s, a);
    if b == n then
      u.(magic := MAGIC, realSize := t.realSize - HEADER - t.size, next := 0, prev := 0,
         splitLeft := a, splitRight := t.splitRight)
    else if b == a then u.(splitRight := n, realSize := HEADER + t.size)
    else if b == t.splitRight then u.(splitLeft := n)
    else u
  }

  /** r is s after the tail of a has become a tag of its own, as far as tiling goes. */
  ghost predicate IsCarved(s: State, r: State, a: int)
    requires CanCarve(s, a)
  {
    && r.owner == s.owner[CarvePoint(s, a) := s.owner[a]] && r.chunks == s.chunks && r.top == s.top
    && forall b {:trigger b in r.tags} :: b in r.owner ==> b in r.tags && r.tags[b] == Carved(s, a, b)
  }

  lemma CarvePointFresh(s: State, a: int)
    requires Tiled(s) && CanCarve(s, a)
    ensures CarvePoint(s, a) !in s.owner
    ensures KHEAP < CarvePoint(s, a) < TWO32
    ensures s.tags[a].realSize < TWO32
  {
    assert TagTiled(s, a);
    assert ChunkOk(s, s.owner[a]);
    assert CarvePoint(s, a) in s.owner ==> Get(s.tags, a).realSize + a <= CarvePoint(s, a);
  }

  lemma CarveEffect(s: State, a: int)
    requires Shape(s) && Tiled(s) && CanCarve(s, a)
    ensures IsCarved(s, Carve(s, a), a)
  {
    CarvePointFresh(s, a);
    assert TagTiled(s, a);
    var t := s.tags[a];
    var n := CarvePoint(s, a);
    if t.splitRight != 0 {
      assert TagTiled(s, t.splitRight);
    }
    var r := Carve(s, a);
    forall b | b in r.owner
      ensures b in r.tags && r.tags[b] == Carved(s, a, b)
    {
      if b != n {
        assert TagTiled(s, b);
      }
    }
  }

  lemma CarveTiled(s: State, a: int)
    requires Shape(s) && Tiled(s) && CanCarve(s, a)
    ensures Tiled(Carve(s, a))
  {
    CarveEffect(s, a);
    CarvedTiled(s, Carve(s, a), a);
  }

  lemma CarvedTiled(s: State, r: State, a: int)
    requires Tiled(s) && CanCarve(s, a) && IsCarved(s, r, a)
    ensures Tiled(r)
  {
    CarvePointFresh(s, a);
    assert TagTiled(s, a);
    var n := CarvePoint(s, a);
    forall b | b in r.owner
      ensures TagTiled(r, b)
    {
      CarvedTag(s, r, a, b);
    }
    forall c | c in r.chunks
      ensures ChunkOk(r, c)
    {
      assert ChunkOk(s, c);
    }
    forall b, c | b in r.owner && c in r.owner && b < c
      ensures Get(r.tags, b).realSize + b <= c
    {
      assert b in r.tags;
      assert b != n ==> TagTiled(s, b);
      assert c != n ==> TagTiled(s, c);
      assert b < a ==> b + Get(s.tags, b).realSize <= a;
    }
  }

  lemma CarvedPlaced(s: State, r: State, a: int, b: int)
    requires Tiled(s) && CanCarve(s, a) && IsCarved(s, r, a) && b in r.owner
    ensures TagPlaced(r, b)
  {
    CarvePointFresh(s, a);
    assert TagTiled(s, a);
    assert b in r.tags;
    if b != CarvePoint(s, a) {
      assert TagTiled(s, b);
    }
  }

  lemma CarvedTag(s: State, r: State, a: int, b: int)
    requires Tiled(s) && CanCarve(s, a) && IsCarved(s, r, a) && b in r.owner
    ensures TagTiled(r, b)
  {
    CarvedPlaced(s, r, a, b);
    CarvePointFresh(s, a);
    assert TagTiled(s, a);
    var n := CarvePoint(s, a);
    assert n in r.tags && a in r.tags && b in r.tags;
    if b != n {
      assert TagTiled(s, b);
    }
    var u := r.tags[b];
    if u.splitLeft != 0 {
      assert Abut(r, u.splitLeft, b) by {
        assert u.splitLeft in r.tags;
      }
    }
    if u.splitRight != 0 {
      assert Abut(r, b, u.splitRight) by {
        assert u.splitRight in r.tags;
      }
    }
  }

  // ----- chunks come and go

  /** r is s with a fresh one-tag chunk of `len` bytes at the top. */
  ghost predicate IsExtended(s: State, r: State, len: int) {
    && r.owner == s.owner[s.top := s.top] && r.chunks == s.chunks[s.top := len] && r.top == s.top + len
    && s.top in r.tags
    && (var t := r.tags[s.top];
        t.magic == MAGIC && t.realSize == len && t.splitLeft == 0 && t.splitRight == 0)
    && forall b {:trigger b in r.tags} :: b in s.owner ==> b in r.tags && r.tags[b] == Get(s.tags, b)
  }

  lemma BelowTop(s: State, a: int)
    requires Tiled(s) && a in s.owner
    ensures TagTiled(s, a) && KHEAP <= a && a + s.tags[a].realSize <= s.top
  {
    assert TagTiled(s, a) && ChunkOk(s, s.owner[a]);
  }

  lemma NewChunkTiled(s: State, size: int)
    requires Shape(s) && Tiled(s) && s.top + PagesFor(size) * PAGE_SIZE <= TWO32
    ensures s.top !in s.owner
    ensures IsExtended(s, NewChunk(s, size), PagesFor(size) * PAGE_SIZE)
    ensures Tiled(NewChunk(s, size))
  {
    var r := NewChunk(s, size);
    forall b | b in s.owner
      ensures b in r.tags && r.tags[b] == Get(s.tags, b) && b != s.top
    {
      BelowTop(s, b);
    }
    ExtendedTiled(s, r, PagesFor(size));
  }

  lemma ExtendedTiled(s: State, r: State, pages: int)
    requires Tiled(s) && IsExtended(s, r, pages * PAGE_SIZE)
    requires pages >= MIN_PAGES && s.top + pages * PAGE_SIZE <= TWO32
    ensures Tiled(r)
  {
    forall a | a in r.owner
      ensures TagTiled(r, a)
    {
      assert a in r.tags;
      if a != s.top {
        BelowTop(s, a);
        var t := s.tags[a];
        assert t.splitLeft != 0 ==> t.splitLeft in r.tags;
        assert t.splitRight != 0 ==> t.splitRight in r.tags;
        if t.splitLeft != 0 { BelowTop(s, t.splitLeft); }
        if t.splitRight != 0 { BelowTop(s, t.splitRight); }
        assert ChunkOk(s, s.owner[a]);
      }
    }
    forall c | c in r.chunks
      ensures ChunkOk(r, c)
    {
      assert c != s.top ==> ChunkOk(s, c);
    }
    forall c, d | c in r.chunks && d in r.chunks && c < d
      ensures c + r.chunks[c] <= d
    {
      assert c != s.top ==> ChunkOk(s, c);
      assert d != s.top ==> ChunkOk(s, d);
    }
    forall a, b | a in r.owner && b in r.owner && a < b
      ensures Get(r.tags, a).realSize + a <= b
    {
      assert a in r.tags;
      if a != s.top { BelowTop(s, a); }
      if b != s.top { BelowTop(s, b); }
    }
  }

  /** A complete chunk may leave as a whole. */
  lemma ReleaseTiled(s: State, r: State, a: int)
    requires Tiled(s) && a in s.owner && IsWhole(Get(s.tags, a))
    requires r.owner == s.owner - {a} && r.chunks == s.chunks - {a} && r.top == s.top && r.tags == s.tags
    ensures a in s.tags && a in s.chunks && s.chunks[a] == s.tags[a].realSize
    ensures Tiled(r)
  {
    assert TagTiled(s, a);
    forall b | b in r.owner
      ensures TagTiled(r, b)
    {
      assert TagTiled(s, b);
      assert s.owner[b] != a;
    }
    forall c | c in r.chunks
      ensures ChunkOk(r, c)
    {
      assert ChunkOk(s, c);
    }
    forall b, c | b in r.owner && c in r.owner && b < c
      ensures Get(r.tags, b).realSize + b <= c
    {
      assert TagTiled(s, b);
    }
  }
}
