/** What the list operations do to other lists in the same memory: nothing. A ring that
    shares no node with the lists an operation is about is a ring of the same entries
    afterwards. */
module ListNeighbours {
  import opened IntrusiveList

  /** The two rings have no node in common. */
  ghost predicate Apart(head: ListHead, s: seq<ListHead>, other: ListHead, t: seq<ListHead>) {
    !OnRing(head, other, t) && forall x :: x in s ==> !OnRing(x, other, t)
  }

  ghost predicate OnRing(x: ListHead, head: ListHead, s: seq<ListHead>) {
    x == head || x in s
  }

  /** The links of a ring never lead out of it. */
  lemma LinksStayOnRing(head: ListHead, s: seq<ListHead>, k: nat)
    requires Ring(head, s) && k <= |s|
    ensures At(head, s, k).next != null && OnRing(At(head, s, k).next, head, s)
    ensures At(head, s, k).prev != null && OnRing(At(head, s, k).prev, head, s)
  {
    assert LinkedAt(head, s, k);
    if k == 0 {
      assert LinkedAt(head, s, |s|);
    } else {
      assert LinkedAt(head, s, k - 1);
    }
  }

  method InitBesides(entry: ListHead, ghost other: ListHead, ghost t: seq<ListHead>)
    requires Ring(other, t) && !OnRing(entry, other, t)
    modifies entry
    ensures Ring(entry, []) && Ring(other, t)
  {
    ListInit(entry);
    forall i | 0 <= i <= |t|
      ensures LinkedAt(other, t, i)
    {
      assert old(LinkedAt(other, t, i));
    }
  }

  method AddBesides(entry: ListHead, head: ListHead, ghost s: seq<ListHead>,
                    ghost other: ListHead, ghost t: seq<ListHead>)
    requires Ring(head, s) && entry != head && entry !in s
    requires Ring(other, t) && !OnRing(entry, other, t) && Apart(head, s, other, t)
    modifies entry, head, head.next
    ensures Ring(head, [entry] + s) && Ring(other, t)
  {
    LinksStayOnRing(head, s, 0);
    ListAdd(entry, head, s);
    forall i | 0 <= i <= |t|
      ensures LinkedAt(other, t, i)
    {
      assert old(LinkedAt(other, t, i));
    }
  }

  method AddTailBesides(entry: ListHead, head: ListHead, ghost s: seq<ListHead>,
                        ghost other: ListHead, ghost t: seq<ListHead>)
    requires Ring(head, s) && entry != head && entry !in s
    requires Ring(other, t) && !OnRing(entry, other, t) && Apart(head, s, other, t)
    modifies entry, head, head.prev
    ensures Ring(head, s + [entry]) && Ring(other, t)
  {
    LinksStayOnRing(head, s, 0);
    ListAddTail(entry, head, s);
    forall i | 0 <= i <= |t|
      ensures LinkedAt(other, t, i)
    {
      assert old(LinkedAt(other, t, i));
    }
  }

  method DelBesides(entry: ListHead, ghost head: ListHead, ghost s: seq<ListHead>, ghost k: nat,
                    ghost other: ListHead, ghost t: seq<ListHead>)
    requires Ring(head, s) && k < |s| && s[k] == entry
    requires Ring(other, t) && Apart(head, s, other, t)
    modifies entry, entry.prev, entry.next
    ensures Ring(head, s[..k] + s[k + 1..]) && Ring(other, t)
    ensures entry.prev == null && entry.next == null
  {
    LinksStayOnRing(head, s, k + 1);
    ListDel(entry, head, s, k);
    forall i | 0 <= i <= |t|
      ensures LinkedAt(other, t, i)
    {
      assert old(LinkedAt(other, t, i));
    }
  }

  method CutBesides(list: ListHead, head: ListHead, ghost s: seq<ListHead>,
                    ghost other: ListHead, ghost t: seq<ListHead>)
    requires Ring(head, s) && list != head && list !in s
    requires Ring(other, t) && !OnRing(list, other, t) && Apart(head, s, other, t)
    modifies list, head, head.next, head.prev
    ensures Ring(list, s) && Ring(head, []) && Ring(other, t)
  {
    LinksStayOnRing(head, s, 0);
    ListCut(list, head, s);
    forall i | 0 <= i <= |t|
      ensures LinkedAt(other, t, i)
    {
      assert old(LinkedAt(other, t, i));
    }
  }

  method SpliceFrontBesides(list: ListHead, head: ListHead, ghost src: seq<ListHead>, ghost dst: seq<ListHead>,
                            ghost other: ListHead, ghost t: seq<ListHead>)
    requires Ring(list, src) && Ring(head, dst)
    requires list != head && list !in dst && head !in src && Disjoint(src, dst)
    requires Ring(other, t) && Apart(list, src, other, t) && Apart(head, dst, other, t)
    modifies list, list.next, list.prev, head, head.next
    ensures src != [] ==> Ring(head, src + dst)
    ensures Ring(other, t)
  {
    LinksStayOnRing(list, src, 0);
    LinksStayOnRing(head, dst, 0);
    ListSpliceFront(list, head, src, dst);
    forall i | 0 <= i <= |t|
      ensures LinkedAt(other, t, i)
    {
      assert old(LinkedAt(other, t, i));
    }
  }
}
