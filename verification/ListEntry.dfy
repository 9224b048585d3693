/** The intrusive circular doubly-linked list of lxdef.h. */
module ListEntry {

  class ListEntry {
    var flink: ListEntry
    var blink: ListEntry

    constructor ()
      ensures flink == this && blink == this
    {
      flink, blink := this, this;
    }
  }

  ghost function Successor(ring: seq<ListEntry>, i: nat): ListEntry
    requires i < |ring|
  {
    if i + 1 == |ring| then ring[0] else ring[i + 1]
  }

  ghost function Predecessor(ring: seq<ListEntry>, i: nat): ListEntry
    requires i < |ring|
  {
    if i == 0 then ring[|ring| - 1] else ring[i - 1]
  }

  ghost predicate Distinct(ring: seq<ListEntry>) {
    forall i, j :: 0 <= i < j < |ring| ==> ring[i] != ring[j]
  }

  /** The entries, in order, are linked into one circle both ways. */
  ghost predicate IsRing(ring: seq<ListEntry>)
    reads ring
  {
    && ring != [] && Distinct(ring)
    && (forall i {:trigger ring[i].flink} :: 0 <= i < |ring| ==> ring[i].flink == Successor(ring, i))
    && (forall i {:trigger ring[i].blink} :: 0 <= i < |ring| ==> ring[i].blink == Predecessor(ring, i))
  }

  /** A list head with the entries `items` behind it. */
  ghost predicate IsList(head: ListEntry, items: seq<ListEntry>)
    reads head, items
  {
    IsRing([head] + items)
  }

  method InitializeListHead(listHead: ListEntry)
    modifies listHead
    ensures IsList(listHead, [])
  {
    listHead.flink, listHead.blink := listHead, listHead;
  }

  method IsListEmpty(listHead: ListEntry, ghost items: seq<ListEntry>) returns (empty: bool)
    requires IsList(listHead, items)
    ensures empty <==> items == []
  {
    ghost var ring := [listHead] + items;
    assert ring[0].flink == Successor(ring, 0);
    empty := listHead.flink == listHead;
  }

  /** Appends: the list afterwards is the old one with the entry at its end. */
  method InsertTailList(listHead: ListEntry, entry: ListEntry, ghost items: seq<ListEntry>)
    requires IsList(listHead, items) && entry != listHead && entry !in items
    modifies listHead, items, entry
    ensures IsList(listHead, items + [entry])
  {
    ghost var ring := [listHead] + items;
    ghost var last := |ring| - 1;
    assert ring[0].blink == Predecessor(ring, 0);
    assert forall i :: 0 <= i < last ==> ring[i] != ring[last];
    assert forall i :: 0 < i <= last ==> ring[i] != ring[0];
    var blink := listHead.blink;
    entry.flink := listHead;
    entry.blink := blink;
    blink.flink := entry;
    listHead.blink := entry;
    ghost var larger := ring + [entry];
    assert [listHead] + (items + [entry]) == larger;
    forall i | 0 <= i < |ring|
      ensures larger[i].flink == Successor(larger, i) && larger[i].blink == Predecessor(larger, i)
    {
      assert larger[i] == ring[i];
      assert old(ring[i].flink) == Successor(ring, i) && old(ring[i].blink) == Predecessor(ring, i);
    }
  }

  ghost function Without<T>(s: seq<T>, k: nat): seq<T>
    requires k < |s|
  {
    s[..k] + s[k + 1..]
  }

  /** In the smaller ring the two neighbours of the entry left out are linked to each other, and every other
      link is as before. */
  lemma LinksWithout(ring: seq<ListEntry>, k: nat, i: nat)
    requires Distinct(ring) && k < |ring| && i < |ring| - 1
    ensures var smaller, m := Without(ring, k), if i < k then i else i + 1;
            && |smaller| == |ring| - 1 && smaller[i] == ring[m]
            && Successor(smaller, i) ==
                 (if ring[m] == Predecessor(ring, k) then Successor(ring, k) else Successor(ring, m))
            && Predecessor(smaller, i) ==
                 (if ring[m] == Successor(ring, k) then Predecessor(ring, k) else Predecessor(ring, m))
  {
    var smaller := Without(ring, k);
    assert forall x :: 0 <= x < |smaller| ==> smaller[x] == ring[if x < k then x else x + 1];
  }

  lemma DistinctWithout(ring: seq<ListEntry>, k: nat)
    requires Distinct(ring) && 0 < k < |ring|
    ensures Distinct(Without(ring, k)) && Without(ring, k) != []
    ensures Successor(ring, k) == Predecessor(ring, k) <==> |ring| == 2
  {
    var smaller := Without(ring, k);
    assert forall x :: 0 <= x < |smaller| ==> smaller[x] == ring[if x < k then x else x + 1];
  }

  lemma WithoutBehindHead(head: ListEntry, items: seq<ListEntry>, k: nat)
    requires k < |items|
    ensures [head] + Without(items, k) == Without([head] + items, k + 1)
  {
  }

  /** Removes just that entry, and tells whether the list has become empty. */
  method RemoveEntryList(entry: ListEntry, ghost listHead: ListEntry, ghost items: seq<ListEntry>, ghost k: nat)
    returns (empty: bool)
    requires IsList(listHead, items) && k < |items| && items[k] == entry
    modifies listHead, items
    ensures IsList(listHead, Without(items, k))
    ensures empty <==> Without(items, k) == []
    ensures entry.flink == old(entry.flink) && entry.blink == old(entry.blink)
  {
    ghost var ring := [listHead] + items;
    assert ring[k + 1] == entry;
    assert entry.flink == Successor(ring, k + 1) && entry.blink == Predecessor(ring, k + 1);
    var flink := entry.flink;
    var blink := entry.blink;
    blink.flink := flink;
    flink.blink := blink;
    ghost var smaller := Without(ring, k + 1);
    WithoutBehindHead(listHead, items, k);
    DistinctWithout(ring, k + 1);
    forall i | 0 <= i < |smaller|
      ensures smaller[i].flink == Successor(smaller, i) && smaller[i].blink == Predecessor(smaller, i)
    {
      LinksWithout(ring, k + 1, i);
      ghost var m := if i < k + 1 then i else i + 1;
      assert old(ring[m].flink) == Successor(ring, m) && old(ring[m].blink) == Predecessor(ring, m);
    }
    empty := flink == blink;
  }
}
