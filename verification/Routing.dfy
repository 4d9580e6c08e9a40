/** The routing table: one k-bucket per shared-prefix length with the node itself (routing_table.go). */
module Routing {
  import opened Common
  import Ids
  import opened Peers
  import opened KBuckets

  // ---------------------------------------------------------------------------
  // The order in which findClosest reads the buckets
  // ---------------------------------------------------------------------------

  /** Buckets hi, hi-1, ..., lo, each front to back: the first loop of findClosest. */
  function Down(bs: seq<seq<Contact>>, hi: int, lo: int): seq<Contact>
    requires 0 <= lo && hi < |bs|
    decreases hi - lo
  {
    if hi < lo then [] else Down(bs, hi, lo + 1) + bs[lo]
  }

  /** Buckets lo, lo+1, ..., hi-1, each front to back: the second loop of findClosest. */
  function Up(bs: seq<seq<Contact>>, lo: int, hi: int): seq<Contact>
    requires 0 <= lo && hi <= |bs|
    decreases hi - lo
  {
    if hi <= lo then [] else Up(bs, lo, hi - 1) + bs[hi - 1]
  }

  /** The whole scan findClosest reads from when it starts at bucket p. */
  function ScanOrder(bs: seq<seq<Contact>>, p: int): seq<Contact>
    requires 0 <= p < |bs|
  {
    Down(bs, p, 0) + Up(bs, p + 1, |bs|)
  }

  /** The first n entries of s, or all of s when it is shorter. */
  function Take(s: seq<Contact>, n: nat): (r: seq<Contact>)
    ensures |r| <= n && |r| <= |s|
    ensures |s| <= n ==> r == s
    ensures |s| >= n ==> |r| == n
    ensures r == s[..|r|]
  {
    if |s| <= n then s else s[..n]
  }

  /**
   * Where findClosest starts (routing_table.go:54-57): the target's bucket, or the last one
   * when the target is self.
   */
  function StartIndex(target: Ids.NodeID, self: Ids.NodeID): (p: int)
    ensures 0 <= p < IDBytesLength
    ensures target == self ==> p == IDBytesLength - 1
    ensures target != self ==> p == Ids.PrefixLen(target, self)
  {
    var p := Ids.PrefixLen(target, self);
    if p == -1 then IDBytesLength - 1 else p
  }

  lemma {:induction false} DownSplit(bs: seq<seq<Contact>>, hi: int, m: int, lo: int)
    requires 0 <= lo <= m <= hi + 1 && hi < |bs|
    ensures Down(bs, hi, lo) == Down(bs, hi, m) + Down(bs, m - 1, lo)
    decreases m - lo
  {
    if lo < m {
      DownSplit(bs, hi, m, lo + 1);
    }
  }

  lemma {:induction false} UpSplit(bs: seq<seq<Contact>>, lo: int, m: int, hi: int)
    requires 0 <= lo <= m <= hi <= |bs|
    ensures Up(bs, lo, hi) == Up(bs, lo, m) + Up(bs, m, hi)
    decreases hi - m
  {
    if m < hi {
      UpSplit(bs, lo, m, hi - 1);
    }
  }

  /** The downward scan reads the same entries as the buckets lo..hi in increasing order. */
  lemma {:induction false} DownIsUpReversed(bs: seq<seq<Contact>>, hi: int, lo: int)
    requires 0 <= lo <= hi + 1 && hi < |bs|
    ensures multiset(Down(bs, hi, lo)) == multiset(Up(bs, lo, hi + 1))
    decreases hi - lo
  {
    if lo <= hi {
      DownIsUpReversed(bs, hi, lo + 1);
      UpSplit(bs, lo, lo + 1, hi + 1);
      assert Up(bs, lo, lo + 1) == bs[lo];
    }
  }

  /** The scan reads every entry of every bucket exactly once, whatever bucket it starts at. */
  lemma ScanOrderReadsAll(bs: seq<seq<Contact>>, p: int)
    requires 0 <= p < |bs|
    ensures multiset(ScanOrder(bs, p)) == multiset(Stored(bs))
  {
    DownIsUpReversed(bs, p, 0);
    UpSplit(bs, 0, p + 1, |bs|);
  }

  /** Every entry of the concatenated buckets sits in some bucket. */
  lemma {:induction false} UpMembers(bs: seq<seq<Contact>>, lo: int, hi: int, x: Contact)
    requires 0 <= lo && hi <= |bs| && x in Up(bs, lo, hi)
    ensures exists i :: lo <= i < hi && x in bs[i]
    decreases hi - lo
  {
    if x !in bs[hi - 1] {
      UpMembers(bs, lo, hi - 1, x);
    }
  }

  /** And every entry of a bucket is in the concatenation. */
  lemma {:induction false} UpHasMembers(bs: seq<seq<Contact>>, lo: int, hi: int, i: int, x: Contact)
    requires 0 <= lo <= i < hi <= |bs| && x in bs[i]
    ensures x in Up(bs, lo, hi)
    decreases hi - lo
  {
    if i < hi - 1 {
      UpHasMembers(bs, lo, hi - 1, i, x);
    }
  }

  // ---------------------------------------------------------------------------
  // The table
  // ---------------------------------------------------------------------------

  /** Bucket i's contents: well formed, and every contact shares exactly i leading bits with self. */
  ghost predicate Placed(s: seq<Contact>, i: int, self: Ids.NodeID) {
    WellFormed(s) && forall c {:trigger Ids.PrefixLen(c.id, self)} :: c in s ==> Ids.PrefixLen(c.id, self) == i
  }

  /** Updating bucket i with a contact that belongs there keeps it placed. */
  lemma TouchKeepsPlaced(s: seq<Contact>, i: int, self: Ids.NodeID, c: Contact)
    requires Placed(s, i, self) && Ids.PrefixLen(c.id, self) == i
    ensures Placed(Touched(s, c), i, self)
  {
    TouchPreservesWellFormed(s, c);
  }

  /** Replacing one bucket by a placed one keeps every bucket placed. */
  lemma ReplaceKeepsPlaced(bs: seq<seq<Contact>>, p: int, s: seq<Contact>, self: Ids.NodeID, bs': seq<seq<Contact>>)
    requires 0 <= p < |bs| && Placed(s, p, self) && bs' == bs[p := s]
    requires forall i :: 0 <= i < |bs| ==> Placed(bs[i], i, self)
    ensures forall i :: 0 <= i < |bs'| ==> Placed(bs'[i], i, self)
  {
  }

  /** The RoutingTable struct (routing_table.go:5-10), minus its channels. */
  class RoutingTable {
    const self: Contact
    const kbuckets: array<KBucket>
    /** The contents of the buckets, bucket i at index i. */
    ghost var buckets: seq<seq<Contact>>

    /**
     * 160 distinct buckets, bucket i holding a well-formed list of contacts that share exactly
     * i leading bits with self (so self itself is never stored).
     */
    ghost predicate Valid()
      reads this, kbuckets, kbuckets[..]
    {
      kbuckets.Length == IDBytesLength && |buckets| == IDBytesLength &&
      (forall i, j :: 0 <= i < j < IDBytesLength ==> kbuckets[i] != kbuckets[j]) &&
      (forall i :: 0 <= i < IDBytesLength ==> kbuckets[i].contacts == buckets[i]) &&
      (forall i :: 0 <= i < IDBytesLength ==> Placed(buckets[i], i, self.id))
    }

    /** NewRoutingTable (routing_table.go:16-31), without starting the goroutine. */
    constructor (self: Contact)
      ensures this.self == self
      ensures Valid() && fresh(kbuckets) && fresh(kbuckets[..])
      ensures buckets == seq(IDBytesLength, _ => [])
    {
      // Dafny needs an initial element for the array; the loop replaces every entry with its own bucket.
      var first := new KBucket();
      var a := new KBucket[IDBytesLength](_ => first);
      for i := 0 to IDBytesLength
        invariant forall j :: 0 <= j < i ==> fresh(a[j]) && a[j].contacts == []
        invariant forall j, k :: 0 <= j < k < i ==> a[j] != a[k]
      {
        a[i] := new KBucket();
      }
      this.self := self;
      kbuckets := a;
      buckets := seq(IDBytesLength, _ => []);
    }

    /** Self (routing_table.go:12-14): the node itself, which no bucket of a valid table holds. */
    function Self(): (c: Contact)
      reads this, kbuckets, kbuckets[..]
      ensures c == self
      ensures Valid() ==> forall i :: 0 <= i < IDBytesLength ==> c !in buckets[i]
    {
      Ids.PrefixLenSymmetric(self.id, self.id);
      self
    }

    /**
     * The update branch of run (routing_table.go:36-44): a contact with self's identifier is
     * ignored; any other contact is given to the bucket of its prefix length with self, and
     * no other bucket changes.
     */
    method Update(contact: Contact)
      requires Valid()
      modifies this, kbuckets[..]
      ensures Valid()
      ensures contact.id == self.id ==> buckets == old(buckets)
      ensures contact.id != self.id ==>
        var p := Ids.PrefixLen(contact.id, self.id);
        buckets == old(buckets)[p := Touched(old(buckets)[p], contact)]
    {
      var prefixLength := Ids.PrefixLen(contact.id, self.id);
      if prefixLength == -1 {
        return;
      }
      var bucket := kbuckets[prefixLength];
      TouchKeepsPlaced(bucket.contacts, prefixLength, self.id, contact);
      ghost var before := buckets;
      bucket.Update(contact);
      buckets := buckets[prefixLength := bucket.contacts];
      forall i | 0 <= i < IDBytesLength && i != prefixLength
        ensures kbuckets[i].contacts == buckets[i]
      {
        assert kbuckets[i] != bucket;
      }
      ReplaceKeepsPlaced(before, prefixLength, bucket.contacts, self.id, buckets);
    }

    /**
     * findClosest (routing_table.go:53-85): reads buckets p, p-1, ..., 0 and then p+1, ..., 159,
     * each front to back, and returns the first BucketSize contacts read. There is no sort by
     * distance.
     */
    method FindClosest(nodeID: Ids.NodeID) returns (contacts: seq<Contact>)
      requires Valid()
      ensures contacts == Closest(buckets, StartIndex(nodeID, self.id))
      ensures |contacts| <= BucketSize
      ensures forall c :: c in contacts ==> c.id != self.id
      ensures forall i, j :: 0 <= i < j < |contacts| ==> contacts[i].id != contacts[j].id
    {
      var prefixLength := StartIndex(nodeID, self.id);
      var full;
      contacts, full := ScanDown(prefixLength);
      if !full {
        contacts := ScanUp(prefixLength, contacts);
      }
      ClosestDistinctNotSelf(buckets, prefixLength, self.id);
    }

    /**
     * The first loop of findClosest (routing_table.go:60-70): buckets p down to 0. It reports
     * whether it returned early, having found BucketSize contacts and one more.
     */
    method ScanDown(p: int) returns (contacts: seq<Contact>, full: bool)
      requires Valid() && 0 <= p < IDBytesLength
      ensures full ==> contacts == Closest(buckets, p)
      ensures !full ==> contacts == Down(buckets, p, 0) && |contacts| <= BucketSize
    {
      contacts := [];
      var i := p;
      while i >= 0
        invariant -1 <= i <= p
        invariant contacts == Down(buckets, p, i + 1)
        invariant |contacts| <= BucketSize
      {
        contacts, full := CollectBucket(contacts, kbuckets[i].contacts);
        if full {
          StopInDown(buckets, p, i, contacts);
          return;
        }
        i := i - 1;
      }
      full := false;
    }

    /** The second loop of findClosest (routing_table.go:72-84): buckets p+1 up to 159. */
    method ScanUp(p: int, found: seq<Contact>) returns (contacts: seq<Contact>)
      requires Valid() && 0 <= p < IDBytesLength
      requires found == Down(buckets, p, 0) && |found| <= BucketSize
      ensures contacts == Closest(buckets, p)
    {
      contacts := found;
      var i := p + 1;
      while i < IDBytesLength
        invariant p + 1 <= i <= IDBytesLength
        invariant contacts == Down(buckets, p, 0) + Up(buckets, p + 1, i)
        invariant |contacts| <= BucketSize
      {
        var full;
        contacts, full := CollectBucket(contacts, kbuckets[i].contacts);
        if full {
          StopInUp(buckets, p, i, contacts);
          return;
        }
        i := i + 1;
      }
    }
  }

  /**
   * One inner loop of findClosest (routing_table.go:61-69 and 73-81): appends the bucket's
   * entries while fewer than BucketSize are collected, and reports whether an entry was left
   * over, upon which findClosest returns at once.
   */
  method CollectBucket(contacts: seq<Contact>, elts: seq<Contact>) returns (r: seq<Contact>, full: bool)
    requires |contacts| <= BucketSize
    ensures full <==> |contacts + elts| > BucketSize
    ensures !full ==> r == contacts + elts
    ensures full ==> r == (contacts + elts)[..BucketSize]
  {
    r := contacts;
    var k := 0;
    while k < |elts|
      invariant 0 <= k <= |elts|
      invariant r == contacts + elts[..k]
      invariant |r| <= BucketSize
    {
      if |r| < BucketSize {
        r := r + [elts[k]];
      } else {
        assert (contacts + elts)[..BucketSize] == r;
        return r, true;
      }
      k := k + 1;
    }
    assert elts[..k] == elts;
    return r, false;
  }

  /** What findClosest returns when it starts at bucket p: the first BucketSize contacts of the scan. */
  function Closest(bs: seq<seq<Contact>>, p: int): (r: seq<Contact>)
    requires 0 <= p < |bs|
    ensures |r| <= |ScanOrder(bs, p)| && r == ScanOrder(bs, p)[..|r|]
    ensures |r| == if |Stored(bs)| <= BucketSize then |Stored(bs)| else BucketSize
  {
    assert |ScanOrder(bs, p)| == |Stored(bs)| by {
      ScanOrderReadsAll(bs, p);
      assert |multiset(ScanOrder(bs, p))| == |multiset(Stored(bs))|;
    }
    Take(ScanOrder(bs, p), BucketSize)
  }

  /** Stopping for lack of room in bucket i of the downward part returns Closest. */
  lemma StopInDown(bs: seq<seq<Contact>>, p: int, i: int, r: seq<Contact>)
    requires 0 <= i <= p < |bs|
    requires |Down(bs, p, i + 1) + bs[i]| > BucketSize
    requires r == (Down(bs, p, i + 1) + bs[i])[..BucketSize]
    ensures r == Closest(bs, p)
  {
    ScanThroughDown(bs, p, i);
    TakeLonger(Down(bs, p, i + 1) + bs[i], Down(bs, i - 1, 0) + Up(bs, p + 1, |bs|));
  }

  /** Stopping for lack of room in bucket i of the upward part returns Closest. */
  lemma StopInUp(bs: seq<seq<Contact>>, p: int, i: int, r: seq<Contact>)
    requires 0 <= p < i < |bs|
    requires |Down(bs, p, 0) + Up(bs, p + 1, i) + bs[i]| > BucketSize
    requires r == (Down(bs, p, 0) + Up(bs, p + 1, i) + bs[i])[..BucketSize]
    ensures r == Closest(bs, p)
  {
    ScanThroughUp(bs, p, i);
    TakeLonger(Down(bs, p, 0) + Up(bs, p + 1, i) + bs[i], Up(bs, i + 1, |bs|));
  }

  /** The scan, cut after bucket i of its downward part. */
  lemma ScanThroughDown(bs: seq<seq<Contact>>, p: int, i: int)
    requires 0 <= i <= p < |bs|
    ensures ScanOrder(bs, p) == (Down(bs, p, i + 1) + bs[i]) + (Down(bs, i - 1, 0) + Up(bs, p + 1, |bs|))
  {
    DownSplit(bs, p, i + 1, 0);
    DownSplit(bs, i, i, 0);
    DownLast(bs, i, i);
    assert Down(bs, i, i + 1) == [];
    Regroup2(Down(bs, p, i + 1), bs[i], Down(bs, i - 1, 0), Up(bs, p + 1, |bs|));
  }

  lemma Regroup2(a: seq<Contact>, b: seq<Contact>, c: seq<Contact>, d: seq<Contact>)
    ensures a + (([] + b) + c) + d == (a + b) + (c + d)
  {
  }

  /** The scan, cut after bucket i of its upward part. */
  lemma ScanThroughUp(bs: seq<seq<Contact>>, p: int, i: int)
    requires 0 <= p < i < |bs|
    ensures ScanOrder(bs, p) == (Down(bs, p, 0) + Up(bs, p + 1, i) + bs[i]) + Up(bs, i + 1, |bs|)
  {
    UpSplit(bs, p + 1, i + 1, |bs|);
    UpLast(bs, p + 1, i);
    Regroup(Down(bs, p, 0), Up(bs, p + 1, i), bs[i], Up(bs, i + 1, |bs|));
  }

  /** Up reads bucket hi - 1 last. */
  lemma UpLast(bs: seq<seq<Contact>>, lo: int, i: int)
    requires 0 <= lo <= i < |bs|
    ensures Up(bs, lo, i + 1) == Up(bs, lo, i) + bs[i]
  {
  }

  /** Down reads bucket lo last. */
  lemma DownLast(bs: seq<seq<Contact>>, hi: int, i: int)
    requires 0 <= i <= hi < |bs|
    ensures Down(bs, hi, i) == Down(bs, hi, i + 1) + bs[i]
  {
  }

  lemma Regroup(a: seq<Contact>, b: seq<Contact>, c: seq<Contact>, d: seq<Contact>)
    ensures a + ((b + c) + d) == ((a + b) + c) + d
  {
  }

  /** Taking n from a sequence longer than n ignores whatever follows it. */
  lemma TakeLonger(a: seq<Contact>, b: seq<Contact>)
    requires |a| > BucketSize
    ensures Take(a + b, BucketSize) == a[..BucketSize]
  {
    assert (a + b)[..BucketSize] == a[..BucketSize];
  }

  // ---------------------------------------------------------------------------
  // What findClosest returns
  // ---------------------------------------------------------------------------

  /** All contacts stored in the table, bucket 0 first. */
  function Stored(bs: seq<seq<Contact>>): seq<Contact> {
    Up(bs, 0, |bs|)
  }

  /**
   * The contacts findClosest returns are stored in the table, each at most as often as
   * stored, and, when the table holds no more than BucketSize contacts, they are all of them.
   */
  lemma ClosestAreStored(bs: seq<seq<Contact>>, p: int)
    requires 0 <= p < |bs|
    ensures multiset(Closest(bs, p)) <= multiset(Stored(bs))
    ensures forall x :: x in Closest(bs, p) ==> exists i :: 0 <= i < |bs| && x in bs[i]
    ensures |Stored(bs)| <= BucketSize ==> multiset(Closest(bs, p)) == multiset(Stored(bs))
  {
    var s := ScanOrder(bs, p);
    var r := Closest(bs, p);
    ScanOrderReadsAll(bs, p);
    assert s == r + s[|r|..];
    assert multiset(s) == multiset(r) + multiset(s[|r|..]);
    forall x | x in r ensures exists i :: 0 <= i < |bs| && x in bs[i] {
      assert x in multiset(Stored(bs));
      UpMembers(bs, 0, |bs|, x);
    }
  }

  /** In a list with pairwise distinct identifiers a contact occurs at most once. */
  lemma {:induction false} DistinctCountAtMostOne(s: seq<Contact>, x: Contact)
    requires DistinctIds(s)
    ensures multiset(s)[x] <= 1
  {
    if s != [] {
      var init := s[..|s| - 1];
      assert s == init + [s[|s| - 1]];
      DistinctCountAtMostOne(init, x);
      if x == s[|s| - 1] {
        assert forall i :: 0 <= i < |init| ==> init[i].id != x.id;
      }
    }
  }

  /** Under placement, a contact stored below bucket hi shares fewer than hi leading bits with self. */
  lemma StoredBelow(bs: seq<seq<Contact>>, hi: int, self: Ids.NodeID, x: Contact)
    requires 0 <= hi <= |bs|
    requires forall i :: 0 <= i < |bs| ==> Placed(bs[i], i, self)
    ensures x in Up(bs, 0, hi) ==> Ids.PrefixLen(x.id, self) < hi
  {
    if x in Up(bs, 0, hi) {
      UpMembers(bs, 0, hi, x);
      var i :| 0 <= i < hi && x in bs[i];
      assert Ids.PrefixLen(x.id, self) == i;
    }
  }

  /** With every bucket placed, no contact is stored twice. */
  lemma {:induction false} StoredOnce(bs: seq<seq<Contact>>, hi: int, self: Ids.NodeID, x: Contact)
    requires 0 <= hi <= |bs|
    requires forall i :: 0 <= i < |bs| ==> Placed(bs[i], i, self)
    ensures multiset(Up(bs, 0, hi))[x] <= 1
    decreases hi
  {
    if hi > 0 {
      StoredOnce(bs, hi - 1, self, x);
      DistinctCountAtMostOne(bs[hi - 1], x);
      StoredBelow(bs, hi - 1, self, x);
      UpLast(bs, 0, hi - 1);
      assert multiset(Up(bs, 0, hi)) == multiset(Up(bs, 0, hi - 1)) + multiset(bs[hi - 1]);
      if x in bs[hi - 1] {
        assert Ids.PrefixLen(x.id, self) == hi - 1;
      }
    }
  }

  /** Under placement, two stored contacts with the same identifier are the same contact. */
  lemma SameIdSameContact(bs: seq<seq<Contact>>, self: Ids.NodeID, y: Contact, z: Contact)
    requires forall i :: 0 <= i < |bs| ==> Placed(bs[i], i, self)
    requires exists i :: 0 <= i < |bs| && y in bs[i]
    requires exists i :: 0 <= i < |bs| && z in bs[i]
    ensures y.id == z.id ==> y == z
  {
    var ky :| 0 <= ky < |bs| && y in bs[ky];
    var kz :| 0 <= kz < |bs| && z in bs[kz];
    if y.id == z.id {
      assert ky == Ids.PrefixLen(y.id, self) == kz;
      SameIdSameEntry(bs[ky], y, z);
    }
  }

  /** Under placement, no stored contact has self's identifier. */
  lemma StoredNotSelf(bs: seq<seq<Contact>>, self: Ids.NodeID, x: Contact)
    requires forall i :: 0 <= i < |bs| ==> Placed(bs[i], i, self)
    requires exists i :: 0 <= i < |bs| && x in bs[i]
    ensures x.id != self
  {
    var k :| 0 <= k < |bs| && x in bs[k];
    assert Ids.PrefixLen(x.id, self) == k;
  }

  /** An entry found at two positions is counted at least twice. */
  lemma CountedTwice(s: seq<Contact>, i: int, j: int)
    requires 0 <= i < j < |s| && s[i] == s[j]
    ensures multiset(s)[s[i]] >= 2
  {
    assert s == s[..j] + s[j..];
    assert s[i] in s[..j] && s[j] in s[j..];
  }

  /** Any selection of stored contacts, each at most as often as stored, has distinct identifiers. */
  lemma SelectionDistinct(bs: seq<seq<Contact>>, self: Ids.NodeID, r: seq<Contact>, i: int, j: int)
    requires forall k :: 0 <= k < |bs| ==> Placed(bs[k], k, self)
    requires multiset(r) <= multiset(Stored(bs))
    requires 0 <= i < j < |r|
    ensures r[i].id != r[j].id
  {
    assert r[i] in multiset(Stored(bs)) && r[j] in multiset(Stored(bs));
    UpMembers(bs, 0, |bs|, r[i]);
    UpMembers(bs, 0, |bs|, r[j]);
    SameIdSameContact(bs, self, r[i], r[j]);
    StoredOnce(bs, |bs|, self, r[i]);
    if r[i] == r[j] {
      CountedTwice(r, i, j);
    }
  }

  /**
   * In a table whose buckets are placed (bucket i holding only contacts sharing i leading
   * bits with self, with distinct identifiers), findClosest never returns self, nor two
   * contacts with the same identifier.
   */
  lemma ClosestDistinctNotSelf(bs: seq<seq<Contact>>, p: int, self: Ids.NodeID)
    requires 0 <= p < |bs|
    requires forall i :: 0 <= i < |bs| ==> Placed(bs[i], i, self)
    ensures forall x :: x in Closest(bs, p) ==> x.id != self
    ensures forall i, j :: 0 <= i < j < |Closest(bs, p)| ==> Closest(bs, p)[i].id != Closest(bs, p)[j].id
  {
    var r := Closest(bs, p);
    ClosestAreStored(bs, p);
    forall x | x in r ensures x.id != self {
      StoredNotSelf(bs, self, x);
    }
    forall i, j | 0 <= i < j < |r| ensures r[i].id != r[j].id {
      SelectionDistinct(bs, self, r, i, j);
    }
  }

  /** Contacts stored in the bucket the target falls in come first. */
  lemma TargetBucketFirst(bs: seq<seq<Contact>>, p: int)
    requires 0 <= p < |bs|
    ensures |bs[p]| <= BucketSize ==> bs[p] <= Closest(bs, p)
  {
    DownSplit(bs, p, p, 0);
    assert Down(bs, p, p) == bs[p];
    var s := ScanOrder(bs, p);
    assert s == bs[p] + (Down(bs, p - 1, 0) + Up(bs, p + 1, |bs|));
  }
}
