/** Links that have come apart (base.c, memchange): what becomes of the list of blocks when a block is moved to the end by the
    neighbours that it had before they were given up. */
module ArenaBroken {
  import opened ArenaLinks
  import opened Lists

  /** The next of a record that has been given up does not point back at it. */
  ghost predicate Severed(links: seq<Link>, gone: set<nat>) {
    forall x :: x in gone ==>
      && x < |links| && NIL <= links[x].next < |links|
      && (links[x].next != NIL ==> links[links[x].next].prev != x)
  }

  /** One record has been taken out of the list. */
  ghost predicate TakenOut(links: seq<Link>, new_l: seq<Link>, h: nat) {
    h < |links| && NIL <= links[h].prev < |links| && NIL <= links[h].next < |links| && new_l == Unlinked(links, h)
  }

  /** One more record is given up. */
  lemma SeveredMore(links: seq<Link>, list: seq<nat>, first: int, last: int, i: nat, gone: set<nat>)
    requires Linked(links, list, first, last) && i < |list| && Severed(links, gone)
    requires forall x :: x in gone ==> x !in list
    ensures Joined(links, list, i) && Severed(Unlinked(links, list[i]), gone + {list[i]})
  {
    Neighbours(links, list, first, last, i);
    var h := list[i];
    var r, left, right := Unlinked(links, h), links[h].prev, links[h].next;
    assert r[h] == links[h];
    forall x | x in gone
      ensures r[x] == links[x] && (links[x].next != NIL ==> r[links[x].next].prev != x)
    {
    }
  }

  lemma SeveredTaken(links: seq<Link>, new_l: seq<Link>, list: seq<nat>, first: int, last: int, h: nat, gone: set<nat>)
    requires Linked(links, list, first, last) && h in list && Severed(links, gone) && TakenOut(links, new_l, h)
    requires forall x :: x in gone ==> x !in list
    ensures Severed(new_l, gone + {h})
  {
    SeveredMore(links, list, first, last, PlaceOf(list, h), gone);
  }

  /** The links after block h has been taken out between two records and put behind the last. */
  function Relinked(links: seq<Link>, last: int, h: nat, left: int, right: nat): (r: seq<Link>)
    requires h < |links| && right < |links| && NIL <= left < |links| && 0 <= last < |links|
    ensures |r| == |links|
  {
    var a := links[right := links[right].(prev := left)];
    var b := if left != NIL then a[left := a[left].(next := right)] else a;
    var c := b[h := Link(last, NIL)];
    c[last := c[last].(next := h)]
  }

  /** Between its own neighbours, the block is moved to the end. */
  lemma RelinkedRight(links: seq<Link>, last: int, h: nat, left: int, right: nat)
    requires h < |links| && right < |links| && NIL <= left < |links| && 0 <= last < |links|
    requires links[h] == Link(left, right) && h != last
    ensures Relinked(links, last, h, left, right) == Appended(Unlinked(links, h), last, h)
  {
  }

  /** No list of blocks has these links. */
  ghost predicate Unlisted(links: seq<Link>, first: int, last: int) {
    forall list :: !Linked(links, list, first, last)
  }

  /** One of the two records is no neighbour of block j any more, because it has been given up. */
  ghost predicate Stale(links: seq<Link>, list: seq<nat>, j: nat, left: int, right: nat)
    requires j < |list|
  {
    if left != NIL && left in list then left == Before(list, j) && right !in list && Severed(links, {right})
    else if left == NIL then j == 0 && right !in list && Severed(links, {right})
    else true
  }

  /** A list with the new links starts like the old one, as far as the links are the old ones. */
  lemma {:induction false} SameStart(links: seq<Link>, list: seq<nat>, first: int, last: int, new_l: seq<Link>, other: seq<nat>, end: int,
                                     j: nat, m: nat)
    requires Linked(links, list, first, last) && Linked(new_l, other, first, end) && |new_l| == |links|
    requires m <= j < |list| && forall k :: 0 <= k < j ==> new_l[list[k]].next == links[list[k]].next
    ensures m < |other| && other[m] == list[m]
  {
    if m > 0 {
      SameStart(links, list, first, last, new_l, other, end, j, m - 1);
      Neighbours(links, list, first, last, m - 1);
      Neighbours(new_l, other, first, end, m - 1);
    }
  }

  /** What the new links are. */
  lemma RelinkedAt(links: seq<Link>, last: int, h: nat, left: int, right: nat, x: nat)
    requires h < |links| && right < |links| && NIL <= left < |links| && 0 <= last < |links| && x < |links|
    ensures var r := Relinked(links, last, h, left, right);
            && r[x].next == (if x == last then h else if x == h then NIL else if x == left then right else links[x].next)
            && r[x].prev == (if x == h then last else if x == right then left else links[x].prev)
  {
  }

  /** Block h, relinked between records one of which has been given up: no list has these links. */
  lemma Broken(links: seq<Link>, list: seq<nat>, first: int, last: int, j: nat, left: int, right: nat)
    requires Linked(links, list, first, last) && j < |list| && right < |links| && NIL <= left < |links|
    requires right != list[j] && left != list[j] && Stale(links, list, j, left, right)
    ensures 0 <= last < |links|
    ensures Unlisted(Relinked(links, last, list[j], left, right), if left == NIL then right else first, list[j])
  {
    var h := list[j];
    var r := Relinked(links, last, h, left, right);
    var start := if left == NIL then right else first;
    assert 0 <= last < |links|;
    forall other
      ensures !Linked(r, other, start, h)
    {
      if left != NIL && left !in list {
        BrokenLeft(links, list, first, last, j, left, right, other);
      } else {
        BrokenRight(links, list, first, last, j, left, right, other);
      }
    }
  }

  /** The record on the left has been given up: the old list leads to h, which leads back to the old last block. */
  lemma BrokenLeft(links: seq<Link>, list: seq<nat>, first: int, last: int, j: nat, left: nat, right: nat, other: seq<nat>)
    requires Linked(links, list, first, last) && j < |list| && right < |links| && left < |links| && left !in list
    ensures 0 <= last < |links| && !Linked(Relinked(links, last, list[j], left, right), other, first, list[j])
  {
    var h := list[j];
    assert 0 <= last < |links|;
    var r := Relinked(links, last, h, left, right);
    forall k | 0 <= k < j
      ensures r[list[k]].next == links[list[k]].next
    {
      RelinkedAt(links, last, h, left, right, list[k]);
    }
    RelinkedAt(links, last, h, left, right, h);
    if Linked(r, other, first, h) {
      SameStart(links, list, first, last, r, other, h, j, j);
      if j > 0 {
        SameStart(links, list, first, last, r, other, h, j, j - 1);
      }
      Neighbours(r, other, first, h, j);
    }
  }

  /** The record on the right has been given up: the new links lead to it, and from it to a record that does not lead back. */
  lemma BrokenRight(links: seq<Link>, list: seq<nat>, first: int, last: int, j: nat, left: int, right: nat, other: seq<nat>)
    requires Linked(links, list, first, last) && j < |list| && right < |links| && NIL <= left < |links|
    requires left == Before(list, j) && right !in list && Severed(links, {right})
    ensures 0 <= last < |links|
    ensures !Linked(Relinked(links, last, list[j], left, right), other, if left == NIL then right else first, list[j])
  {
    var h := list[j];
    assert 0 <= last < |links|;
    var r := Relinked(links, last, h, left, right);
    var start := if left == NIL then right else first;
    var y := links[right].next;
    RelinkedAt(links, last, h, left, right, right);
    if y != NIL {
      RelinkedAt(links, last, h, left, right, y);
    }
    if Linked(r, other, start, h) {
      ToTheRight(links, list, first, last, j, left, right, other);
      Neighbours(r, other, start, h, j);
      if y != NIL {
        Neighbours(r, other, start, h, j + 1);
      }
    }
  }

  /** A list with these links has the record on the right where the old one had h. */
  lemma ToTheRight(links: seq<Link>, list: seq<nat>, first: int, last: int, j: nat, left: int, right: nat, other: seq<nat>)
    requires Linked(links, list, first, last) && j < |list| && right < |links| && NIL <= left < |links| && left == Before(list, j)
    requires 0 <= last < |links| && right !in list
    requires Linked(Relinked(links, last, list[j], left, right), other, if left == NIL then right else first, list[j])
    ensures j < |other| && other[j] == right
  {
    var h := list[j];
    var r := Relinked(links, last, h, left, right);
    if j > 0 {
      forall k | 0 <= k < j - 1
        ensures r[list[k]].next == links[list[k]].next
      {
        RelinkedAt(links, last, h, left, right, list[k]);
      }
      SameStart(links, list, first, last, r, other, h, j - 1, j - 1);
      Neighbours(r, other, first, h, j - 1);
      RelinkedAt(links, last, h, left, right, left);
    }
  }
}
