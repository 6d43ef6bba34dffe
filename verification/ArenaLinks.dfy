/** The doubly linked list of memory records (base.c). A record is named by its index in the table, and NIL is no record. */
module ArenaLinks {
  import opened Lists

  datatype Link = Link(prev: int, next: int)

  predicate InTable(n: nat, list: seq<nat>) {
    forall i :: 0 <= i < |list| ==> list[i] < n
  }

  function Before(list: seq<nat>, i: nat): int
    requires i < |list|
  {
    if i == 0 then NIL else list[i - 1]
  }

  function After(list: seq<nat>, i: nat): int
    requires i < |list|
  {
    if i + 1 == |list| then NIL else list[i + 1]
  }

  /** The links of place i of the list. */
  predicate Joined(links: seq<Link>, list: seq<nat>, i: nat)
    requires i < |list| && InTable(|links|, list)
  {
    links[list[i]] == Link(Before(list, i), After(list, i))
  }

  /** The links and the two ends describe this list. */
  predicate Linked(links: seq<Link>, list: seq<nat>, first: int, last: int) {
    && InTable(|links|, list) && Distinct(list)
    && first == (if list == [] then NIL else list[0])
    && last == (if list == [] then NIL else list[|list| - 1])
    && forall i :: 0 <= i < |list| ==> Joined(links, list, i)
  }

  /** The place of a record in the list. */
  ghost function PlaceOf(list: seq<nat>, h: nat): (i: nat)
    requires h in list
    ensures i < |list| && list[i] == h
  {
    var i :| 0 <= i < |list| && list[i] == h; i
  }

  function Without(list: seq<nat>, i: nat): seq<nat>
    requires i < |list|
  {
    list[..i] + list[i + 1..]
  }

  lemma WithoutMembers(list: seq<nat>, i: nat)
    requires i < |list| && Distinct(list)
    ensures forall h :: h in Without(list, i) <==> h in list && h != list[i]
    ensures Distinct(Without(list, i))
  {
    forall h | h in list && h != list[i]
      ensures h in Without(list, i)
    {
      var j := PlaceOf(list, h);
      assert Without(list, i)[if j < i then j else j - 1] == h;
    }
  }

  /** The links after record h has been taken out of the list. */
  function Unlinked(links: seq<Link>, h: nat): (r: seq<Link>)
    requires h < |links| && NIL <= links[h].prev < |links| && NIL <= links[h].next < |links|
    ensures |r| == |links|
  {
    var left, right := links[h].prev, links[h].next;
    var a := if right != NIL then links[right := links[right].(prev := left)] else links;
    if left != NIL then a[left := a[left].(next := right)] else a
  }

  /** The links after record h has been put at the end of the list. */
  function Appended(links: seq<Link>, last: int, h: nat): (r: seq<Link>)
    requires h < |links| && NIL <= last < |links|
    ensures |r| == |links|
  {
    var a := links[h := Link(last, NIL)];
    if last != NIL then a[last := a[last].(next := h)] else a
  }

  /** The neighbours of a record. */
  lemma Neighbours(links: seq<Link>, list: seq<nat>, first: int, last: int, i: nat)
    requires Linked(links, list, first, last) && i < |list|
    ensures links[list[i]].prev == (if i == 0 then NIL else list[i - 1])
    ensures links[list[i]].next == (if i + 1 == |list| then NIL else list[i + 1])
  {
    assert Joined(links, list, i);
  }

  lemma UnlinkedJoined(links: seq<Link>, list: seq<nat>, i: nat, j: nat)
    requires InTable(|links|, list) && Distinct(list) && i < |list| && j < |list| - 1
    requires Joined(links, list, i) && Joined(links, list, if j < i then j else j + 1)
    ensures InTable(|links|, Without(list, i)) && Joined(Unlinked(links, list[i]), Without(list, i), j)
  {
    var w := Without(list, i);
    assert forall k :: 0 <= k < |w| ==> w[k] == list[if k < i then k else k + 1];
  }

  lemma UnlinkedLinked(links: seq<Link>, list: seq<nat>, first: int, last: int, i: nat)
    requires Linked(links, list, first, last) && i < |list|
    ensures Joined(links, list, i)
    ensures var left, right := if i == 0 then NIL else list[i - 1], if i + 1 == |list| then NIL else list[i + 1];
            Linked(Unlinked(links, list[i]), Without(list, i), if left != NIL then first else right, if right != NIL then last else left)
  {
    Neighbours(links, list, first, last, i);
    WithoutMembers(list, i);
    var w := Without(list, i);
    assert Joined(links, list, i);
    forall j | 0 <= j < |w|
      ensures InTable(|links|, w) && Joined(Unlinked(links, list[i]), w, j)
    {
      assert Joined(links, list, if j < i then j else j + 1);
      UnlinkedJoined(links, list, i, j);
    }
    assert forall k :: 0 <= k < |w| ==> w[k] == list[if k < i then k else k + 1];
  }

  lemma AppendedLinked(links: seq<Link>, list: seq<nat>, first: int, last: int, h: nat)
    requires Linked(links, list, first, last) && h < |links| && h !in list
    ensures Linked(Appended(links, last, h), list + [h], if last != NIL then first else h, h)
  {
    var w, r := list + [h], Appended(links, last, h);
    forall j | 0 <= j < |w|
      ensures Joined(r, w, j)
    {
      if j < |list| {
        assert Joined(links, list, j);
      }
    }
  }
}
