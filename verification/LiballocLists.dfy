/** The free lists stay well-formed under insertion and removal. */
module LiballocLists {
  import opened Machine
  import opened LiballocModel
  import opened LiballocInvariant

  lemma {:induction false} WithoutAt(l: seq<int>, a: int, p: nat)
    requires Distinct(l) && p < |l| && l[p] == a
    ensures Without(l, a) == l[..p] + l[p + 1..]
    ensures a !in Without(l, a)
    ensures forall x :: x in l && x != a ==> x in Without(l, a)
  {
    if l[0] == a {
      assert p == 0;
    } else {
      WithoutAt(l[1..], a, p - 1);
      assert l[1..][..p - 1] == l[1..p];
      assert l[1..][p..] == l[p + 1..];
    }
  }

  // ----- removal

  /** Tag b after a has been unlinked. */
  function Unlinked(tags: map<int, Tag>, a: int, b: int): Tag {
    var t := Get(tags, b);
    var gone := Get(tags, a);
    if b == a then t.(next := 0, prev := 0, index := -1)
    else t.(next := if b == gone.prev then gone.next else t.next,
            prev := if b == gone.next then gone.prev else t.prev)
  }

  /** The links of a free tag are its neighbours in its list. */
  lemma LinksOf(s: State, a: int) returns (p: nat)
    requires Listed(s) && a in s.owner && Get(s.tags, a).index >= 0
    ensures a in s.tags && s.tags[a].index < MAXEXP
    ensures p < |s.lists[s.tags[a].index]| && s.lists[s.tags[a].index][p] == a
    ensures s.tags[a].next == Elem(s.lists[s.tags[a].index], p + 1)
    ensures s.tags[a].prev == Elem(s.lists[s.tags[a].index], p - 1)
    ensures s.tags[a].next != a && s.tags[a].prev != a
    ensures s.tags[a].next != 0 ==> InList(s, s.tags[a].next, s.tags[a].index)
    ensures s.tags[a].prev != 0 ==> InList(s, s.tags[a].prev, s.tags[a].index)
    ensures s.tags[a].prev == s.tags[a].next ==> s.tags[a].prev == 0
    ensures s.heads[s.tags[a].index] == a <==> s.tags[a].prev == 0
  {
    assert TagListed(s, a);
    var k := s.tags[a].index;
    var l := s.lists[k];
    assert ListOk(s.tags, s.owner, s.heads[k], l, k);
    p :| 0 <= p < |l| && l[p] == a;
    assert NodeOk(s.tags, s.owner, l, p, k);
    if p > 0 {
      assert NodeOk(s.tags, s.owner, l, p - 1, k) && TagListed(s, l[p - 1]);
    }
    if p + 1 < |l| {
      assert NodeOk(s.tags, s.owner, l, p + 1, k) && TagListed(s, l[p + 1]);
    }
  }

  predicate InList(s: State, a: int, k: int) {
    a in s.owner && a in s.tags && s.tags[a].index == k
  }

  lemma RemoveEffect(s: State, a: int)
    requires Listed(s) && a in s.owner && Get(s.tags, a).index >= 0
    ensures Get(s.tags, a).index < MAXEXP
    ensures forall b :: b in s.owner ==> b in Remove(s, a).tags && Remove(s, a).tags[b] == Unlinked(s.tags, a, b)
    ensures Remove(s, a).heads ==
      s.heads[s.tags[a].index := if s.tags[a].prev == 0 then s.tags[a].next else s.heads[s.tags[a].index]]
  {
    var _ := LinksOf(s, a);
    forall b | b in s.owner
      ensures b in Remove(s, a).tags && Remove(s, a).tags[b] == Unlinked(s.tags, a, b)
    {
      assert TagListed(s, b);
    }
  }

  /** `tags` is what removing a from its list leaves of the headers. */
  ghost predicate IsUnlinked(s: State, tags: map<int, Tag>, a: int) {
    forall b {:trigger b in tags} :: b in s.owner ==> b in tags && tags[b] == Unlinked(s.tags, a, b)
  }

  lemma RemoveOwnList(s: State, tags: map<int, Tag>, a: int, p: nat)
    requires Listed(s) && a in s.owner && 0 <= Get(s.tags, a).index < MAXEXP
    requires IsUnlinked(s, tags, a)
    requires p < |s.lists[Get(s.tags, a).index]| && s.lists[Get(s.tags, a).index][p] == a
    ensures var k := Get(s.tags, a).index;
      ListOk(tags, s.owner, if s.tags[a].prev == 0 then s.tags[a].next else s.heads[k], Without(s.lists[k], a), k)
  {
    var k := s.tags[a].index;
    var l := s.lists[k];
    assert ListOk(s.tags, s.owner, s.heads[k], l, k);
    assert NodeOk(s.tags, s.owner, l, p, k);
    WithoutAt(l, a, p);
    var l' := l[..p] + l[p + 1..];
    assert l[0] != 0 by {
      assert NodeOk(s.tags, s.owner, l, 0, k) && TagListed(s, l[0]);
    }
    if p > 0 {
      assert NodeOk(s.tags, s.owner, l, p - 1, k) && TagListed(s, l[p - 1]);
    }
    forall i | 0 <= i < |l'|
      ensures NodeOk(tags, s.owner, l', i, k)
    {
      RemoveNode(s, tags, a, p, i);
    }
  }

  lemma RemoveNode(s: State, tags: map<int, Tag>, a: int, p: nat, i: nat)
    requires Listed(s) && a in s.owner && 0 <= Get(s.tags, a).index < MAXEXP
    requires IsUnlinked(s, tags, a)
    requires var l := s.lists[Get(s.tags, a).index]; p < |l| && l[p] == a && i + 1 < |l|
    ensures var k := Get(s.tags, a).index;
      var l := s.lists[k];
      NodeOk(tags, s.owner, l[..p] + l[p + 1..], i, k)
  {
    var k := s.tags[a].index;
    var l := s.lists[k];
    assert ListOk(s.tags, s.owner, s.heads[k], l, k);
    assert NodeOk(s.tags, s.owner, l, p, k);
    var j := if i < p then i else i + 1;
    assert NodeOk(s.tags, s.owner, l, j, k);
    assert l[j] in tags && tags[l[j]] == Unlinked(s.tags, a, l[j]);
    assert l[j] == s.tags[a].prev <==> j == p - 1 by {
      if p > 0 { assert s.tags[a].prev == l[p - 1]; } else { assert TagListed(s, l[j]); }
    }
    assert l[j] == s.tags[a].next <==> j == p + 1 by {
      if p + 1 < |l| { assert s.tags[a].next == l[p + 1]; } else { assert TagListed(s, l[j]); }
    }
  }

  lemma RemoveOtherList(s: State, tags: map<int, Tag>, a: int, j: int)
    requires Listed(s) && a in s.owner && 0 <= Get(s.tags, a).index < MAXEXP
    requires IsUnlinked(s, tags, a)
    requires 0 <= j < MAXEXP && j != Get(s.tags, a).index
    ensures ListOk(tags, s.owner, s.heads[j], s.lists[j], j)
  {
    var _ := LinksOf(s, a);
    var l := s.lists[j];
    assert ListOk(s.tags, s.owner, s.heads[j], l, j);
    forall i | 0 <= i < |l|
      ensures NodeOk(tags, s.owner, l, i, j)
    {
      assert NodeOk(s.tags, s.owner, l, i, j);
      assert TagListed(s, l[i]);
      assert l[i] in tags;
    }
  }

  lemma RemoveListed(s: State, a: int)
    requires Listed(s) && a in s.owner && Get(s.tags, a).index >= 0
    ensures Get(s.tags, a).index < MAXEXP
    ensures Listed(Remove(s, a))
    ensures IsUnlinked(s, Remove(s, a).tags, a)
  {
    RemoveEffect(s, a);
    var r := Remove(s, a);
    var p := LinksOf(s, a);
    var k := s.tags[a].index;
    forall j | 0 <= j < MAXEXP
      ensures ListOk(r.tags, r.owner, r.heads[j], r.lists[j], j)
    {
      if j != k {
        RemoveOtherList(s, r.tags, a, j);
      } else {
        RemoveOwnList(s, r.tags, a, p);
      }
    }
    forall b | b in r.owner
      ensures TagListed(r, b)
    {
      RemoveTagListed(s, a, p, b);
    }
  }

  lemma RemoveTagListed(s: State, a: int, p: nat, b: int)
    requires Listed(s) && a in s.owner && 0 <= Get(s.tags, a).index < MAXEXP && b in s.owner
    requires IsUnlinked(s, Remove(s, a).tags, a)
    requires p < |s.lists[Get(s.tags, a).index]| && s.lists[Get(s.tags, a).index][p] == a
    ensures TagListed(Remove(s, a), b)
  {
    var k := Get(s.tags, a).index;
    var _ := LinksOf(s, a);
    assert TagListed(s, b);
    assert ListOk(s.tags, s.owner, s.heads[k], s.lists[k], k);
    WithoutAt(s.lists[k], a, p);
    assert b in Remove(s, a).tags;
  }

  // ----- insertion

  /** Tag b after a has been pushed onto list k. */
  function Linked(s: State, a: int, k: int, b: int): Tag
    requires Shape(s) && 0 <= k < MAXEXP
  {
    var t := Get(s.tags, b);
    if b == a then t.(index := k, next := if s.heads[k] != 0 then s.heads[k] else t.next)
    else if b == s.heads[k] then t.(prev := a)
    else t
  }

  /** `tags` is what pushing a onto list k leaves of the headers. */
  ghost predicate IsLinked(s: State, tags: map<int, Tag>, a: int, k: int)
    requires Shape(s) && 0 <= k < MAXEXP
  {
    forall b {:trigger b in tags} :: b in s.owner ==> b in tags && tags[b] == Linked(s, a, k, b)
  }

  lemma InsertListed(s: State, a: int, k: int)
    requires Listed(s) && a in s.owner && Get(s.tags, a).index == -1 && 0 <= k < MAXEXP
    ensures Listed(Insert(s, a, k))
    ensures IsLinked(s, Insert(s, a, k).tags, a, k)
  {
    var r := Insert(s, a, k);
    assert TagListed(s, a);
    HeadNotInHand(s, a, k);
    forall b | b in s.owner
      ensures b in r.tags && r.tags[b] == Linked(s, a, k, b)
    {
      assert TagListed(s, b);
    }
    forall j | 0 <= j < MAXEXP
      ensures ListOk(r.tags, r.owner, r.heads[j], r.lists[j], j)
    {
      InsertList(s, r.tags, a, k, j);
    }
    forall b | b in r.owner
      ensures TagListed(r, b)
    {
      assert TagListed(s, b);
      assert b in r.tags;
    }
  }

  lemma HeadNotInHand(s: State, a: int, k: int)
    requires Listed(s) && a in s.owner && Get(s.tags, a).index == -1 && 0 <= k < MAXEXP
    ensures s.heads[k] != a && a !in s.lists[k]
    ensures s.heads[k] != 0 ==> InList(s, s.heads[k], k)
    ensures s.heads[k] == 0 <==> s.lists[k] == []
  {
    assert TagListed(s, a);
    var l := s.lists[k];
    assert ListOk(s.tags, s.owner, s.heads[k], l, k);
    forall i | 0 <= i < |l|
      ensures l[i] != a
    {
      assert NodeOk(s.tags, s.owner, l, i, k);
    }
    if l != [] {
      assert NodeOk(s.tags, s.owner, l, 0, k) && TagListed(s, l[0]);
    }
  }

  lemma InsertList(s: State, tags: map<int, Tag>, a: int, k: int, j: int)
    requires Listed(s) && a in s.owner && Get(s.tags, a).index == -1 && 0 <= k < MAXEXP && 0 <= j < MAXEXP
    requires IsLinked(s, tags, a, k)
    ensures if j == k then ListOk(tags, s.owner, a, [a] + s.lists[k], k)
            else ListOk(tags, s.owner, s.heads[j], s.lists[j], j)
  {
    var l := s.lists[j];
    HeadNotInHand(s, a, k);
    assert TagListed(s, a);
    assert ListOk(s.tags, s.owner, s.heads[j], l, j);
    if j != k {
      forall i | 0 <= i < |l|
        ensures NodeOk(tags, s.owner, l, i, j)
      {
        assert NodeOk(s.tags, s.owner, l, i, j) && TagListed(s, l[i]);
        assert l[i] in tags;
      }
    } else {
      assert a in tags;
      forall i | 0 <= i < |l| + 1
        ensures NodeOk(tags, s.owner, [a] + l, i, j)
      {
        if i > 0 {
          assert NodeOk(s.tags, s.owner, l, i - 1, j);
          assert l[i - 1] in tags;
        }
      }
    }
  }
}
