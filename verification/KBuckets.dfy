/** A k-bucket: a bounded list of contacts, most recently seen at the back (kbucket.go). */
module KBuckets {
  import opened Common
  import opened Wrappers
  import Ids
  import opened Peers

  /** No two entries share an identifier. */
  predicate DistinctIds(s: seq<Contact>) {
    forall i, j :: 0 <= i < j < |s| ==> s[i].id != s[j].id
  }

  /** What every bucket satisfies: at most BucketSize entries, identifiers pairwise distinct. */
  predicate WellFormed(s: seq<Contact>) {
    |s| <= BucketSize && DistinctIds(s)
  }

  /**
   * The position of the first entry, from the front, whose identifier is id; None when no entry
   * has it. This is what findById's list walk finds (the element pointer becomes an index).
   */
  function IndexOfId(s: seq<Contact>, id: Ids.NodeID): (r: Option<nat>)
    ensures r.None? <==> forall k :: 0 <= k < |s| ==> s[k].id != id
    ensures r.Some? ==> r.value < |s| && s[r.value].id == id
    ensures r.Some? ==> forall k :: 0 <= k < r.value ==> s[k].id != id
  {
    if s == [] then None
    else if s[0].id == id then Some(0)
    else match IndexOfId(s[1..], id)
      case None => None
      case Some(k) => Some(k + 1)
  }

  /** In a bucket with distinct identifiers, an entry is found at its own position. */
  lemma IndexOfOwnId(s: seq<Contact>, k: nat)
    requires DistinctIds(s) && k < |s|
    ensures IndexOfId(s, s[k].id) == Some(k)
  {
  }

  /** In a bucket with distinct identifiers, two entries with the same identifier are the same entry. */
  lemma SameIdSameEntry(s: seq<Contact>, y: Contact, z: Contact)
    requires DistinctIds(s) && y in s && z in s && y.id == z.id
    ensures y == z
  {
    var a :| 0 <= a < |s| && s[a] == y;
    var b :| 0 <= b < |s| && s[b] == z;
    assert !(a < b) && !(b < a);
  }

  /** s with the entry at k taken out and put at the back (list.MoveToBack). */
  function MovedToBack(s: seq<Contact>, k: nat): (r: seq<Contact>)
    requires k < |s|
    ensures |r| == |s| && r[|s| - 1] == s[k]
    ensures r[..|s| - 1] == s[..k] + s[k + 1..]
    ensures multiset(r) == multiset(s)
  {
    assert s == s[..k] + [s[k]] + s[k + 1..];
    s[..k] + s[k + 1..] + [s[k]]
  }

  /**
   * The bucket after update(c) (kbucket.go:32-49): an entry with c's identifier is moved to the
   * back (keeping the entry already stored, not c); otherwise c is appended if the bucket has
   * room; otherwise c is dropped and nothing changes.
   */
  function Touched(s: seq<Contact>, c: Contact): (r: seq<Contact>)
    ensures multiset(r) == multiset(s) || r == s + [c]
    ensures |s| <= BucketSize ==> |r| <= BucketSize
  {
    match IndexOfId(s, c.id)
    case Some(k) => MovedToBack(s, k)
    case None => if |s| >= BucketSize then s else s + [c]
  }

  /** update of a present identifier: same length, same entries, that entry last, the others in order. */
  lemma TouchPresent(s: seq<Contact>, c: Contact, k: nat)
    requires k < |s| && s[k].id == c.id
    requires DistinctIds(s)
    ensures |Touched(s, c)| == |s|
    ensures multiset(Touched(s, c)) == multiset(s)
    ensures Touched(s, c)[|s| - 1] == s[k]
    ensures Touched(s, c)[..|s| - 1] == s[..k] + s[k + 1..]
  {
    IndexOfOwnId(s, k);
  }

  /** update of an absent identifier with room: c is appended at the back. */
  lemma TouchAbsent(s: seq<Contact>, c: Contact)
    requires forall k :: 0 <= k < |s| ==> s[k].id != c.id
    requires |s| < BucketSize
    ensures |Touched(s, c)| == |s| + 1
    ensures Touched(s, c)[..|s|] == s && Touched(s, c)[|s|] == c
  {
  }

  /** update of an absent identifier in a full bucket: nothing changes, c is dropped. */
  lemma TouchFull(s: seq<Contact>, c: Contact)
    requires forall k :: 0 <= k < |s| ==> s[k].id != c.id
    requires |s| >= BucketSize
    ensures Touched(s, c) == s
  {
  }

  /** update keeps every entry it had, adds nothing but c, and keeps the bucket well formed. */
  lemma TouchPreservesWellFormed(s: seq<Contact>, c: Contact)
    requires WellFormed(s)
    ensures WellFormed(Touched(s, c))
    ensures multiset(s) <= multiset(Touched(s, c))
    ensures forall x :: x in Touched(s, c) ==> x in s || x == c
  {
    match IndexOfId(s, c.id)
    case Some(k) =>
      MovedToBackDistinct(s, k);
      assert forall x :: x in Touched(s, c) ==> x in s by {
        assert multiset(Touched(s, c)) == multiset(s);
        forall x | x in Touched(s, c) ensures x in s {
          assert x in multiset(Touched(s, c));
        }
      }
    case None =>
      if |s| < BucketSize {
        assert Touched(s, c) == s + [c];
      }
  }

  lemma MovedToBackDistinct(s: seq<Contact>, k: nat)
    requires DistinctIds(s) && k < |s|
    ensures DistinctIds(MovedToBack(s, k))
  {
    var r := MovedToBack(s, k);
    // Position p of r came from position From(p) of s, and From is injective.
    forall p | 0 <= p < |r| ensures r[p] == s[if p == |s| - 1 then k else if p < k then p else p + 1] {
      if p < |s| - 1 {
        assert r[p] == r[..|s| - 1][p];
      }
    }
  }

  /** Seeing the same contact twice in a row changes nothing the second time. */
  lemma TouchTwice(s: seq<Contact>, c: Contact)
    requires WellFormed(s)
    ensures Touched(Touched(s, c), c) == Touched(s, c)
  {
    var t := Touched(s, c);
    TouchPreservesWellFormed(s, c);
    match IndexOfId(s, c.id)
    case Some(k) =>
      IndexOfOwnId(t, |t| - 1);
      assert t[..|t| - 1] + t[|t|..] + [t[|t| - 1]] == t;
    case None =>
      if |s| < BucketSize {
        IndexOfOwnId(t, |t| - 1);
        assert t[..|t| - 1] + t[|t|..] + [t[|t| - 1]] == t;
      }
  }

  /** The KBucket struct (kbucket.go:10-13); the list becomes a sequence, front first. */
  class KBucket {
    var contacts: seq<Contact>

    ghost predicate Valid()
      reads this
    {
      WellFormed(contacts)
    }

    /** NewKBucket (kbucket.go:15-21): an empty list. */
    constructor ()
      ensures contacts == [] && Valid()
    {
      contacts := [];
    }

    /** findById (kbucket.go:55-72): walks the list from the front for the first matching identifier. */
    method FindById(nodeID: Ids.NodeID) returns (found: Option<nat>)
      ensures found == IndexOfId(contacts, nodeID)
    {
      var i := 0;
      while i < |contacts|
        invariant 0 <= i <= |contacts|
        invariant forall k :: 0 <= k < i ==> contacts[k].id != nodeID
      {
        if nodeID == contacts[i].id {
          IndexOfFirst(contacts, nodeID, i);
          return Some(i);
        }
        i := i + 1;
      }
      return None;
    }

    /** findContact (kbucket.go:51-53): looks the contact up by identifier only. */
    method FindContact(contact: Contact) returns (found: Option<nat>)
      ensures found == IndexOfId(contacts, contact.id)
    {
      found := FindById(contact.id);
    }

    /** isFull (kbucket.go:74-76); in a valid bucket, exactly when it holds BucketSize entries. */
    function IsFull(): (r: bool)
      reads this
      ensures Valid() ==> (r <==> |contacts| == BucketSize)
      ensures !r ==> |contacts| < BucketSize
    {
      |contacts| >= BucketSize
    }

    /** update (kbucket.go:32-49). */
    method Update(contact: Contact)
      requires Valid()
      modifies this
      ensures Valid()
      ensures contacts == Touched(old(contacts), contact)
    {
      TouchPreservesWellFormed(contacts, contact);
      var foundPtr := FindContact(contact);
      if foundPtr.Some? {
        contacts := MovedToBack(contacts, foundPtr.value);
      } else if IsFull() {
        // The eviction of an unresponsive node is not written in the source: the contact is dropped.
      } else {
        contacts := contacts + [contact];
      }
    }
  }

  /** The first index with a given identifier, once all earlier ones are known not to have it. */
  lemma IndexOfFirst(s: seq<Contact>, id: Ids.NodeID, i: nat)
    requires i < |s| && s[i].id == id
    requires forall k :: 0 <= k < i ==> s[k].id != id
    ensures IndexOfId(s, id) == Some(i)
  {
  }
}
