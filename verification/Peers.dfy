/** Contacts and the sortable, heap-ready Contacts slice (contact.go). */
module Peers {
  import Ids

  /** A peer: its identifier and its network address (contact.go:7-10). */
  datatype Contact = Contact(id: Ids.NodeID, address: string)

  /** The zero value of the Go struct: all-zero identifier, empty address. */
  const ZeroContact: Contact := Contact(Ids.ZeroID, "")

  /** NewContact (contact.go:12-17). */
  function NewContact(node: Ids.NodeID, address: string): (c: Contact)
    ensures c.id == node && c.address == address
  {
    Contact(node, address)
  }

  /** s with the entries at i and j exchanged, what Contacts.Swap leaves behind. */
  function Swapped(s: seq<Contact>, i: int, j: int): (r: seq<Contact>)
    requires 0 <= i < |s| && 0 <= j < |s|
    ensures |r| == |s| && r[i] == s[j] && r[j] == s[i]
    ensures forall k :: 0 <= k < |s| && k != i && k != j ==> r[k] == s[k]
    ensures multiset(r) == multiset(s)
  {
    s[i := s[j]][j := s[i]]
  }

  /** Swapping the same pair twice restores the slice (contact_test.go:82-98). */
  lemma SwapTwice(s: seq<Contact>, i: int, j: int)
    requires 0 <= i < |s| && 0 <= j < |s|
    ensures Swapped(Swapped(s, i, j), i, j) == s
  {
    var t := Swapped(Swapped(s, i, j), i, j);
    assert forall k :: 0 <= k < |s| ==> t[k] == s[k];
  }

  /**
   * The Contacts slice type (contact.go:23-39), a pointer-updated slice: Push and Pop reassign
   * *h, Swap writes two entries of it.
   */
  class Contacts {
    var items: seq<Contact>

    constructor (items: seq<Contact>)
      ensures this.items == items
    {
      this.items := items;
    }

    /** Contacts.Len (contact.go:25). */
    function Len(): (n: int)
      reads this
      ensures n == |items|
    {
      |items|
    }

    /**
     * Contacts.Less (contact.go:26): compares the identifiers only. It is false for entries with
     * equal identifiers, whatever their addresses, and between distinct identifiers exactly one
     * direction holds.
     */
    function Less(i: int, j: int): (r: bool)
      reads this
      requires 0 <= i < |items| && 0 <= j < |items|
      ensures items[i].id == items[j].id ==> !r
      ensures items[i].id != items[j].id ==> (r <==> !Ids.Less(items[j].id, items[i].id))
    {
      Ids.LessTrichotomy(items[i].id, items[j].id);
      Ids.Less(items[i].id, items[j].id)
    }

    /** Contacts.Swap (contact.go:27): exchanges the entries at i and j, nothing else. */
    method Swap(i: int, j: int)
      requires 0 <= i < |items| && 0 <= j < |items|
      modifies this
      ensures items == Swapped(old(items), i, j)
    {
      items := items[i := items[j]][j := items[i]];
    }

    /** Contacts.Push (contact.go:29-31): appends x at the end. */
    method Push(x: Contact)
      modifies this
      ensures items == old(items) + [x]
    {
      items := items + [x];
    }

    /** Contacts.Pop (contact.go:33-39): removes and returns the last entry. */
    method Pop() returns (x: Contact)
      requires |items| > 0
      modifies this
      ensures x == old(items)[|old(items)| - 1]
      ensures items == old(items)[..|old(items)| - 1]
      ensures multiset(items) + multiset{x} == multiset(old(items))
    {
      x := items[|items| - 1];
      assert items == items[..|items| - 1] + [x];
      items := items[..|items| - 1];
    }
  }
}
