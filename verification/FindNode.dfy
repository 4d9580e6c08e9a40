/**
 * The coordinator of IterativeFindNode (findnode.go:59-103): the state it keeps (ret, the
 * frontier heap, the seen map, the pending counter) and the loop that drives it. Probes are not
 * sent: each completion read from the done channel is an input, in arrival order.
 */
module FindNode {
  import opened Common
  import opened Wrappers
  import Ids
  import opened Peers
  import opened Routing

  // ---------------------------------------------------------------------------
  // The seen map and the contacts a reply adds
  // ---------------------------------------------------------------------------

  /** n zero-valued contacts: what make(Contacts, n) holds. */
  function Zeros(n: nat): (r: seq<Contact>)
    ensures |r| == n
    ensures forall k :: 0 <= k < n ==> r[k].id == Ids.ZeroID && r[k].address == ""
  {
    seq(n, _ => ZeroContact)
  }

  /** The identifiers of some contacts. */
  function IdsOf(s: seq<Contact>): set<Ids.NodeID> {
    set c | c in s :: c.id
  }

  lemma IdsOfAppend(u: seq<Contact>, v: seq<Contact>)
    ensures IdsOf(u + v) == IdsOf(u) + IdsOf(v)
  {
    forall id | id in IdsOf(u + v) ensures id in IdsOf(u) + IdsOf(v) {
      var c :| c in u + v && c.id == id;
    }
  }

  /** The keys of the seen map for a set of identifiers: their text forms (findnode.go:64, 69, 87). */
  function Keys(known: set<Ids.NodeID>): set<string> {
    set id | id in known :: Ids.String(id)
  }

  /** The text key of an identifier is in the seen map exactly when the identifier was seen. */
  lemma KeyIsId(known: set<Ids.NodeID>, id: Ids.NodeID)
    ensures Ids.String(id) in Keys(known) <==> id in known
  {
    if Ids.String(id) in Keys(known) {
      var x :| x in known && Ids.String(x) == Ids.String(id);
      Ids.StringThenParse(x);
      Ids.StringThenParse(id);
    }
  }

  /**
   * The contacts of nodes appended to ret by the loop at findnode.go:82-88, given the identifiers
   * seen before: each one whose identifier is neither seen nor already taken from nodes.
   */
  function Fresh(known: set<Ids.NodeID>, nodes: seq<Contact>): seq<Contact>
    decreases |nodes|
  {
    if nodes == [] then []
    else
      var f := Fresh(known, nodes[..|nodes| - 1]);
      var x := nodes[|nodes| - 1];
      if x.id in known + IdsOf(f) then f else f + [x]
  }

  /**
   * What the dedup keeps: contacts of nodes only, none with an identifier seen before, no two
   * with the same identifier; and afterwards every node's identifier is seen.
   */
  lemma {:induction false} FreshProperties(known: set<Ids.NodeID>, nodes: seq<Contact>)
    ensures multiset(Fresh(known, nodes)) <= multiset(nodes)
    ensures forall x :: x in Fresh(known, nodes) ==> x.id !in known
    ensures forall i, j :: 0 <= i < j < |Fresh(known, nodes)| ==> Fresh(known, nodes)[i].id != Fresh(known, nodes)[j].id
    ensures known + IdsOf(Fresh(known, nodes)) == known + IdsOf(nodes)
    decreases |nodes|
  {
    if nodes != [] {
      var init, x := nodes[..|nodes| - 1], nodes[|nodes| - 1];
      assert nodes == init + [x];
      FreshProperties(known, init);
      DedupsStep(known, init, x, Fresh(known, init));
    }
  }

  /** The four properties of FreshProperties, for f as the dedup of nodes. */
  predicate Dedups(known: set<Ids.NodeID>, nodes: seq<Contact>, f: seq<Contact>) {
    && multiset(f) <= multiset(nodes)
    && (forall x :: x in f ==> x.id !in known)
    && (forall i, j :: 0 <= i < j < |f| ==> f[i].id != f[j].id)
    && known + IdsOf(f) == known + IdsOf(nodes)
  }

  /** One step of the dedup keeps the four properties. */
  lemma DedupsStep(known: set<Ids.NodeID>, init: seq<Contact>, x: Contact, f: seq<Contact>)
    requires Dedups(known, init, f)
    ensures Dedups(known, init + [x], if x.id in known + IdsOf(f) then f else f + [x])
  {
    if x.id in known + IdsOf(f) {
      DedupsSkip(known, init, x, f);
    } else {
      DedupsAdd(known, init, x, f);
    }
  }

  lemma DedupsSkip(known: set<Ids.NodeID>, init: seq<Contact>, x: Contact, f: seq<Contact>)
    requires Dedups(known, init, f)
    requires x.id in known + IdsOf(f)
    ensures Dedups(known, init + [x], f)
  {
    IdsOfAppend(init, [x]);
    assert multiset(init + [x]) == multiset(init) + multiset{x};
  }

  lemma DedupsAdd(known: set<Ids.NodeID>, init: seq<Contact>, x: Contact, f: seq<Contact>)
    requires Dedups(known, init, f)
    requires x.id !in known + IdsOf(f)
    ensures Dedups(known, init + [x], f + [x])
  {
    IdsOfAppend(init, [x]);
    IdsOfAppend(f, [x]);
    assert multiset(init + [x]) == multiset(init) + multiset{x};
    assert multiset(f + [x]) == multiset(f) + multiset{x};
    forall i, j | 0 <= i < j < |f| + 1
      ensures (f + [x])[i].id != (f + [x])[j].id
    {
      if j == |f| {
        assert (f + [x])[i] in f;
      }
    }
  }

  /** Deduplicating two batches in turn is deduplicating them together. */
  lemma {:induction false} FreshAppend(known: set<Ids.NodeID>, a: seq<Contact>, b: seq<Contact>)
    ensures Fresh(known, a + b) == Fresh(known, a) + Fresh(known + IdsOf(Fresh(known, a)), b)
    decreases |b|
  {
    var fa := Fresh(known, a);
    var known' := known + IdsOf(fa);
    if b == [] {
      assert a + b == a;
    } else {
      var init, x := b[..|b| - 1], b[|b| - 1];
      var rest := Fresh(known', init);
      assert (a + b)[..|a + b| - 1] == a + init;
      assert (a + b)[|a + b| - 1] == x;
      FreshAppend(known, a, init);
      IdsOfAppend(fa, rest);
      AppendAssoc(fa, rest, [x]);
    }
  }

  /** The contacts delivered by a run of completions, in order. */
  function Flatten(rs: seq<seq<Contact>>): seq<Contact> {
    if rs == [] then [] else Flatten(rs[..|rs| - 1]) + rs[|rs| - 1]
  }

  /** The contacts discovered by a run of completions: those whose identifiers were new. */
  function Discovered(seeds: seq<Contact>, rs: seq<seq<Contact>>): seq<Contact> {
    Fresh(IdsOf(seeds), Flatten(rs))
  }

  /** One more completion extends the discovered contacts by its own new contacts. */
  lemma DiscoveredGrows(seeds: seq<Contact>, rs: seq<seq<Contact>>, nodes: seq<Contact>)
    ensures Discovered(seeds, rs + [nodes]) ==
      Discovered(seeds, rs) + Fresh(IdsOf(seeds) + IdsOf(Discovered(seeds, rs)), nodes)
    ensures IdsOf(Discovered(seeds, rs + [nodes])) ==
      IdsOf(Discovered(seeds, rs)) + IdsOf(Fresh(IdsOf(seeds) + IdsOf(Discovered(seeds, rs)), nodes))
  {
    assert (rs + [nodes])[..|rs|] == rs;
    FreshAppend(IdsOf(seeds), Flatten(rs), nodes);
    IdsOfAppend(Discovered(seeds, rs), Fresh(IdsOf(seeds) + IdsOf(Discovered(seeds, rs)), nodes));
  }

  /**
   * The contents of ret after the seeds and a run of completions: the make padding, every seed,
   * then the discovered contacts.
   */
  function Gathered(padding: nat, seeds: seq<Contact>, rs: seq<seq<Contact>>): seq<Contact> {
    Zeros(padding) + seeds + Discovered(seeds, rs)
  }

  /**
   * ret holds padding zero contacts first, then the seeds, then contacts the completions
   * delivered, each at most as often as delivered, and none of these with a seed's identifier.
   */
  lemma GatheredMembers(padding: nat, seeds: seq<Contact>, rs: seq<seq<Contact>>)
    ensures Gathered(padding, seeds, rs)[..padding + |seeds|] == Zeros(padding) + seeds
    ensures multiset(Gathered(padding, seeds, rs)[padding + |seeds|..]) <= multiset(Flatten(rs))
    ensures forall x :: x in Gathered(padding, seeds, rs)[padding + |seeds|..] ==>
      forall y :: y in seeds ==> x.id != y.id
  {
    var g := Gathered(padding, seeds, rs);
    FreshProperties(IdsOf(seeds), Flatten(rs));
    assert g[padding + |seeds|..] == Discovered(seeds, rs);
    assert g[..padding + |seeds|] == Zeros(padding) + seeds;
  }

  // ---------------------------------------------------------------------------
  // The frontier heap
  // ---------------------------------------------------------------------------

  /** The position of a least entry of the heap under Contacts.Less. */
  method MinIndex(h: Contacts) returns (m: int)
    requires |h.items| > 0
    ensures 0 <= m < |h.items|
    ensures forall k :: 0 <= k < |h.items| ==> !Ids.Less(h.items[k].id, h.items[m].id)
  {
    m := 0;
    Ids.LessStrictOrder(h.items[0].id, h.items[0].id, h.items[0].id);
    var i := 1;
    while i < h.Len()
      invariant 1 <= i <= |h.items| && 0 <= m < i
      invariant forall k :: 0 <= k < i ==> !Ids.Less(h.items[k].id, h.items[m].id)
    {
      var a, b := h.items[i].id, h.items[m].id;
      Ids.LessTrichotomy(a, b);
      if h.Less(i, m) {
        forall k | 0 <= k < i ensures !Ids.Less(h.items[k].id, a) {
          Ids.LessStrictOrder(h.items[k].id, a, b);
        }
        Ids.LessStrictOrder(a, a, a);
        m := i;
      }
      i := i + 1;
    }
  }

  /**
   * heap.Pop on the frontier (findnode.go:75, 92): the same Swap-then-Pop container/heap does,
   * with a least entry moved to the end first. It removes one least contact and returns it.
   */
  method PopMin(h: Contacts) returns (c: Contact)
    requires |h.items| > 0
    modifies h
    ensures multiset(h.items) + multiset{c} == multiset(old(h.items))
    ensures forall x :: x in old(h.items) ==> !Ids.Less(x.id, c.id)
  {
    var m := MinIndex(h);
    h.Swap(m, h.Len() - 1);
    c := h.Pop();
  }

  /**
   * The dispatch loops (findnode.go:72-77 and 90-94): while fewer than delta probes are pending
   * and the frontier is not empty, pop a least contact and probe it. Returns the probed contacts
   * in order; each is least among everything still in the frontier when it was popped.
   */
  method Dispatch(frontier: Contacts, pending: int, delta: int) returns (pending': int, probes: seq<Contact>)
    requires 0 <= pending
    modifies frontier
    ensures pending' == pending + |probes|
    ensures pending' >= delta || |frontier.items| == 0
    ensures pending <= delta ==> pending' <= delta
    ensures pending >= delta ==> probes == []
    ensures multiset(frontier.items) + multiset(probes) == multiset(old(frontier.items))
    ensures forall i, j :: 0 <= i < j < |probes| ==> !Ids.Less(probes[j].id, probes[i].id)
    ensures forall x, k :: x in frontier.items && 0 <= k < |probes| ==> !Ids.Less(x.id, probes[k].id)
  {
    pending' := pending;
    probes := [];
    while pending' < delta && frontier.Len() > 0
      invariant pending' == pending + |probes|
      invariant pending <= delta ==> pending' <= delta
      invariant pending >= delta ==> probes == []
      invariant multiset(frontier.items) + multiset(probes) == multiset(old(frontier.items))
      invariant forall i, j :: 0 <= i < j < |probes| ==> !Ids.Less(probes[j].id, probes[i].id)
      invariant forall x, k :: x in frontier.items && 0 <= k < |probes| ==> !Ids.Less(x.id, probes[k].id)
      decreases |frontier.items|
    {
      pending' := pending' + 1;
      ghost var before := frontier.items;
      var contact := PopMin(frontier);
      PopKeepsOrder(before, frontier.items, contact, probes, multiset(old(frontier.items)));
      probes := probes + [contact];
    }
  }

  /** One pop of the dispatch loop keeps the probes in order and below what is left in the frontier. */
  lemma PopKeepsOrder(before: seq<Contact>, after: seq<Contact>, c: Contact, probes: seq<Contact>, all: multiset<Contact>)
    requires multiset(after) + multiset{c} == multiset(before)
    requires forall x :: x in before ==> !Ids.Less(x.id, c.id)
    requires multiset(before) + multiset(probes) == all
    requires forall i, j :: 0 <= i < j < |probes| ==> !Ids.Less(probes[j].id, probes[i].id)
    requires forall x, k :: x in before && 0 <= k < |probes| ==> !Ids.Less(x.id, probes[k].id)
    ensures multiset(after) + multiset(probes + [c]) == all
    ensures forall i, j :: 0 <= i < j < |probes + [c]| ==> !Ids.Less((probes + [c])[j].id, (probes + [c])[i].id)
    ensures forall x, k :: x in after && 0 <= k < |probes + [c]| ==> !Ids.Less(x.id, (probes + [c])[k].id)
  {
    forall x | x in after ensures x in before {
      assert x in multiset(before);
    }
    assert c in before by {
      assert c in multiset(before);
    }
  }

  /**
   * One pass of the loop at findnode.go:83-87, `taken` being the contacts the loop has already
   * appended: a contact whose key is not in seen is appended to ret, pushed on the frontier and
   * its key added to seen; otherwise nothing changes.
   */
  method AbsorbOne(frontier: Contacts, ret: seq<Contact>, seen: set<string>, ghost known: set<Ids.NodeID>,
                   ghost taken: seq<Contact>, node: Contact)
    returns (ret': seq<Contact>, seen': set<string>)
    requires seen == Keys(known + IdsOf(taken))
    modifies frontier
    ensures node.id in known + IdsOf(taken) ==>
      ret' == ret && seen' == seen && frontier.items == old(frontier.items)
    ensures node.id !in known + IdsOf(taken) ==>
      ret' == ret + [node] && seen' == Keys(known + IdsOf(taken + [node])) &&
      frontier.items == old(frontier.items) + [node]
  {
    KeyIsId(known + IdsOf(taken), node.id);
    if Ids.String(node.id) !in seen {
      IdsOfAppend(taken, [node]);
      KeysAdd(known + IdsOf(taken), node.id);
      assert known + IdsOf(taken + [node]) == (known + IdsOf(taken)) + {node.id};
      ret' := ret + [node];
      frontier.Push(node);
      seen' := seen + {Ids.String(node.id)};
    } else {
      ret', seen' := ret, seen;
    }
  }

  /** Fresh over one more node: that node is kept exactly when its identifier is new. */
  lemma FreshStep(known: set<Ids.NodeID>, nodes: seq<Contact>, j: nat)
    requires j < |nodes|
    ensures nodes[j].id in known + IdsOf(Fresh(known, nodes[..j])) ==>
      Fresh(known, nodes[..j + 1]) == Fresh(known, nodes[..j])
    ensures nodes[j].id !in known + IdsOf(Fresh(known, nodes[..j])) ==>
      Fresh(known, nodes[..j + 1]) == Fresh(known, nodes[..j]) + [nodes[j]]
  {
    assert nodes[..j + 1][..j] == nodes[..j];
  }

  lemma AppendAssoc<T>(a: seq<T>, b: seq<T>, c: seq<T>)
    ensures (a + b) + c == a + (b + c)
  {
  }

  lemma KeysAdd(known: set<Ids.NodeID>, id: Ids.NodeID)
    ensures Keys(known + {id}) == Keys(known) + {Ids.String(id)}
  {
  }

  /**
   * The loop over one completion's contacts (findnode.go:82-88): a contact whose key is not yet in
   * seen is appended to ret, pushed on the frontier and its key added to seen; the others are
   * ignored. `known` is the set of identifiers whose keys seen holds.
   */
  method Absorb(frontier: Contacts, ret: seq<Contact>, seen: set<string>, ghost known: set<Ids.NodeID>, nodes: seq<Contact>)
    returns (ret': seq<Contact>, seen': set<string>)
    requires seen == Keys(known)
    modifies frontier
    ensures ret' == ret + Fresh(known, nodes)
    ensures seen' == Keys(known + IdsOf(Fresh(known, nodes)))
    ensures frontier.items == old(frontier.items) + Fresh(known, nodes)
  {
    ret', seen' := ret, seen;
    ghost var start := frontier.items;
    for j := 0 to |nodes|
      invariant ret' == ret + Fresh(known, nodes[..j])
      invariant seen' == Keys(known + IdsOf(Fresh(known, nodes[..j])))
      invariant frontier.items == start + Fresh(known, nodes[..j])
    {
      ghost var f := Fresh(known, nodes[..j]);
      FreshStep(known, nodes, j);
      ret', seen' := AbsorbOne(frontier, ret', seen', known, f, nodes[j]);
      AppendAssoc(ret, f, [nodes[j]]);
      AppendAssoc(start, f, [nodes[j]]);
    }
    assert nodes[..|nodes|] == nodes;
  }

  /**
   * The start of IterativeFindNode (findnode.go:62-70): ret and the frontier made holding
   * `padding` zero contacts, then every seed appended to ret, pushed and marked seen.
   */
  method Start(padding: nat, seeds: seq<Contact>) returns (ret: seq<Contact>, frontier: Contacts, seen: set<string>)
    ensures fresh(frontier)
    ensures ret == Zeros(padding) + seeds && frontier.items == ret
    ensures seen == Keys(IdsOf(seeds))
  {
    ret := Zeros(padding);
    frontier := new Contacts(Zeros(padding));
    seen := {};
    for k := 0 to |seeds|
      invariant ret == Zeros(padding) + seeds[..k] && frontier.items == ret
      invariant seen == Keys(IdsOf(seeds[..k]))
    {
      var node := seeds[k];
      assert seeds[..k + 1] == seeds[..k] + [node];
      IdsOfAppend(seeds[..k], [node]);
      ret := ret + [node];
      frontier.Push(node);
      seen := seen + {Ids.String(node.id)};
    }
    assert seeds[..|seeds|] == seeds;
  }

  // ---------------------------------------------------------------------------
  // The final sort
  // ---------------------------------------------------------------------------

  /** Ordered by Contacts.Less: no entry is less than an entry before it. */
  predicate SortedById(s: seq<Contact>) {
    forall i, j :: 0 <= i < j < |s| ==> !Ids.Less(s[j].id, s[i].id)
  }

  /** A sorted sequence stays sorted with an entry in front that none of it is less than. */
  lemma PrependSorted(x: Contact, s: seq<Contact>)
    requires SortedById(s)
    requires forall y :: y in s ==> !Ids.Less(y.id, x.id)
    ensures SortedById([x] + s)
  {
    forall i, j | 0 <= i < j < |s| + 1 ensures !Ids.Less(([x] + s)[j].id, ([x] + s)[i].id) {
      assert ([x] + s)[j] == s[j - 1];
      if i > 0 { assert ([x] + s)[i] == s[i - 1]; }
    }
  }

  function Insert(x: Contact, s: seq<Contact>): seq<Contact> {
    if s == [] then [x]
    else if Ids.Less(x.id, s[0].id) then [x] + s
    else [s[0]] + Insert(x, s[1..])
  }

  /** Inserting into a sorted sequence keeps it sorted and adds exactly x. */
  lemma {:induction false} InsertSorted(x: Contact, s: seq<Contact>)
    requires SortedById(s)
    ensures SortedById(Insert(x, s))
    ensures multiset(Insert(x, s)) == multiset(s) + multiset{x}
  {
    if s == [] {
    } else if Ids.Less(x.id, s[0].id) {
      forall y | y in s ensures !Ids.Less(y.id, x.id) {
        Ids.LessStrictOrder(y.id, x.id, s[0].id);
        Ids.LessStrictOrder(s[0].id, x.id, s[0].id);
      }
      PrependSorted(x, s);
    } else {
      var rest := Insert(x, s[1..]);
      InsertSorted(x, s[1..]);
      assert s == [s[0]] + s[1..];
      forall y | y in rest ensures !Ids.Less(y.id, s[0].id) {
        assert y in multiset(rest);
      }
      PrependSorted(s[0], rest);
    }
  }

  /** sort.Sort(ret) (findnode.go:97): some ordering of ret by Contacts.Less. */
  function SortById(s: seq<Contact>): seq<Contact> {
    if s == [] then [] else Insert(s[0], SortById(s[1..]))
  }

  /** SortById returns a sorted permutation of its input. */
  lemma {:induction false} SortByIdSorts(s: seq<Contact>)
    ensures SortedById(SortById(s))
    ensures multiset(SortById(s)) == multiset(s)
  {
    if s != [] {
      SortByIdSorts(s[1..]);
      InsertSorted(s[0], SortById(s[1..]));
      assert s == [s[0]] + s[1..];
    }
  }

  /** What IterativeFindNode delivers for a final ret (findnode.go:97-100): sorted, then cut to BucketSize. */
  function FinalResult(ret: seq<Contact>): seq<Contact> {
    Take(SortById(ret), BucketSize)
  }

  /**
   * The final result is sorted by identifier, holds min(|ret|, BucketSize) contacts of ret, and
   * no contact of ret left out is less than one kept.
   */
  lemma FinalResultProperties(ret: seq<Contact>)
    ensures SortedById(FinalResult(ret))
    ensures |FinalResult(ret)| == if |ret| <= BucketSize then |ret| else BucketSize
    ensures multiset(FinalResult(ret)) <= multiset(ret)
    ensures forall i, y :: 0 <= i < |FinalResult(ret)| && y in multiset(ret) - multiset(FinalResult(ret)) ==>
      !Ids.Less(y.id, FinalResult(ret)[i].id)
  {
    var t := SortById(ret);
    SortByIdSorts(ret);
    var r := FinalResult(ret);
    assert |multiset(t)| == |multiset(ret)|;
    SplitMultiset(t, |r|);
    forall i, y | 0 <= i < |r| && y in multiset(ret) - multiset(r) ensures !Ids.Less(y.id, r[i].id) {
      var j := IndexOf(t[|r|..], y);
      assert t[|r| + j] == y && t[i] == r[i];
    }
  }

  lemma SplitMultiset(t: seq<Contact>, n: nat)
    requires n <= |t|
    ensures multiset(t) == multiset(t[..n]) + multiset(t[n..])
  {
    assert t == t[..n] + t[n..];
  }

  /** A position of y in s. */
  lemma IndexOf(s: seq<Contact>, y: Contact) returns (j: nat)
    requires y in multiset(s)
    ensures j < |s| && s[j] == y
  {
    j :| j < |s| && s[j] == y;
  }

  // ---------------------------------------------------------------------------
  // The lookup
  // ---------------------------------------------------------------------------

  /**
   * The state of IterativeFindNode's main loop after the completions rs: ret holds the padding,
   * the seeds and the discovered contacts; seen holds the keys of the seeds and of the discovered
   * contacts; every contact of ret is either still in the frontier or probed; one probe per
   * completion read or still pending; and fewer than delta pending only once the frontier is empty.
   */
  ghost predicate LoopState(delta: int, padding: nat, seeds: seq<Contact>, rs: seq<seq<Contact>>,
                            ret: seq<Contact>, seen: set<string>, items: seq<Contact>, probes: seq<Contact>, pending: int)
  {
    && ret == Gathered(padding, seeds, rs)
    && seen == Keys(IdsOf(seeds) + IdsOf(Discovered(seeds, rs)))
    && multiset(items) + multiset(probes) == multiset(ret)
    && |probes| == |rs| + pending
    && 0 <= pending && (pending > 0 ==> pending <= delta)
    && (pending >= delta || |items| == 0)
  }

  /**
   * The probes in flight after the completions rs: the dispatch loops (findnode.go:73, 90) probe
   * until delta are pending or every contact of ret has been probed, so min(|ret|, |rs| + delta)
   * probes have been made, |rs| of them answered.
   */
  ghost function Outstanding(delta: int, padding: nat, seeds: seq<Contact>, rs: seq<seq<Contact>>): int {
    var made := |rs| + (if delta > 0 then delta else 0);
    var n := |Gathered(padding, seeds, rs)|;
    (if n < made then n else made) - |rs|
  }

  /** In any loop state, pending is the number of probes Outstanding gives. */
  lemma LoopStatePending(delta: int, padding: nat, seeds: seq<Contact>, rs: seq<seq<Contact>>,
                         ret: seq<Contact>, seen: set<string>, items: seq<Contact>, probes: seq<Contact>, pending: int)
    requires LoopState(delta, padding, seeds, rs, ret, seen, items, probes, pending)
    ensures pending == Outstanding(delta, padding, seeds, rs)
  {
    assert |multiset(items)| + |multiset(probes)| == |multiset(ret)|;
  }

  /**
   * Probes are outstanding exactly when delta is positive and ret holds a contact beyond one per
   * completion, and never more than delta of them.
   */
  lemma OutstandingBounds(delta: int, padding: nat, seeds: seq<Contact>, rs: seq<seq<Contact>>)
    ensures Outstanding(delta, padding, seeds, rs) > 0 <==> delta > 0 && |rs| < |Gathered(padding, seeds, rs)|
    ensures Outstanding(delta, padding, seeds, rs) <= (if delta > 0 then delta else 0)
  {
  }

  /** Completion n is read only while probes are outstanding, so the completions read grow by one. */
  lemma StillReading(delta: int, padding: nat, seeds: seq<Contact>, replies: seq<seq<Contact>>, n: nat)
    requires n < |replies|
    requires forall k :: 0 <= k < n ==> Outstanding(delta, padding, seeds, replies[..k]) > 0
    requires Outstanding(delta, padding, seeds, replies[..n]) > 0
    ensures forall k :: 0 <= k < n + 1 ==> Outstanding(delta, padding, seeds, replies[..k]) > 0
  {
  }

  /**
   * One turn of the main loop (findnode.go:79-95): a completion is read, its new contacts absorbed
   * and the frontier dispatched from again.
   */
  method Round(frontier: Contacts, ret: seq<Contact>, seen: set<string>, ghost known: set<Ids.NodeID>,
               nodes: seq<Contact>, pending: int, delta: int)
    returns (ret': seq<Contact>, seen': set<string>, pending': int, more: seq<Contact>)
    requires seen == Keys(known)
    requires 0 < pending
    modifies frontier
    ensures ret' == ret + Fresh(known, nodes)
    ensures seen' == Keys(known + IdsOf(Fresh(known, nodes)))
    ensures multiset(frontier.items) + multiset(more) == multiset(old(frontier.items)) + multiset(Fresh(known, nodes))
    ensures pending' == pending - 1 + |more|
    ensures pending' >= delta || |frontier.items| == 0
    ensures pending <= delta ==> pending' <= delta
  {
    ret', seen' := Absorb(frontier, ret, seen, known, nodes);
    pending', more := Dispatch(frontier, pending - 1, delta);
  }

  /** One more completion extends ret by its new contacts. */
  lemma GatheredGrows(padding: nat, seeds: seq<Contact>, rs: seq<seq<Contact>>, nodes: seq<Contact>)
    ensures Gathered(padding, seeds, rs + [nodes]) ==
      Gathered(padding, seeds, rs) + Fresh(IdsOf(seeds) + IdsOf(Discovered(seeds, rs)), nodes)
  {
    DiscoveredGrows(seeds, rs, nodes);
  }

  /** A turn of the main loop keeps its state, one completion further on. */
  method Step(frontier: Contacts, delta: int, padding: nat, seeds: seq<Contact>, ghost rs: seq<seq<Contact>>,
              nodes: seq<Contact>, ret: seq<Contact>, seen: set<string>, probes: seq<Contact>, pending: int)
    returns (ret': seq<Contact>, seen': set<string>, probes': seq<Contact>, pending': int)
    requires LoopState(delta, padding, seeds, rs, ret, seen, frontier.items, probes, pending)
    requires pending > 0
    modifies frontier
    ensures LoopState(delta, padding, seeds, rs + [nodes], ret', seen', frontier.items, probes', pending')
  {
    ghost var known := IdsOf(seeds) + IdsOf(Discovered(seeds, rs));
    ghost var added := Fresh(known, nodes);
    DiscoveredGrows(seeds, rs, nodes);
    GatheredGrows(padding, seeds, rs, nodes);
    ghost var items := frontier.items;
    var more;
    ret', seen', pending', more := Round(frontier, ret, seen, known, nodes, pending, delta);
    probes' := probes + more;
    assert seen' == Keys(IdsOf(seeds) + IdsOf(Discovered(seeds, rs + [nodes])));
    assert multiset(frontier.items) + multiset(probes') == multiset(ret') by {
      assert multiset(probes') == multiset(probes) + multiset(more);
      assert multiset(ret') == multiset(ret) + multiset(added);
      MultisetShift(multiset(frontier.items), multiset(more), multiset(items), multiset(added), multiset(probes));
    }
  }

  /** In any loop state, every probe is of a contact of ret, and a pending probe is one not yet answered. */
  lemma LoopStateProbes(delta: int, padding: nat, seeds: seq<Contact>, rs: seq<seq<Contact>>,
                        ret: seq<Contact>, seen: set<string>, items: seq<Contact>, probes: seq<Contact>, pending: int)
    requires LoopState(delta, padding, seeds, rs, ret, seen, items, probes, pending)
    ensures multiset(probes) <= multiset(Gathered(padding, seeds, rs))
    ensures pending > 0 ==> |rs| < |probes| <= |rs| + delta
    ensures pending == 0 ==> |probes| == |rs|
    ensures pending == 0 && delta > 0 ==> multiset(probes) == multiset(Gathered(padding, seeds, rs))
  {
  }

  lemma SliceNext<T>(s: seq<T>, n: nat)
    requires n < |s|
    ensures s[..n + 1] == s[..n] + [s[n]]
  {
  }

  lemma MultisetShift<T>(x: multiset<T>, m: multiset<T>, i: multiset<T>, a: multiset<T>, p: multiset<T>)
    requires x + m == i + a
    ensures x + (p + m) == (i + p) + a
  {
    assert x + (p + m) == (x + m) + p;
  }

  /**
   * IterativeFindNode (findnode.go:59-103) with ret and frontier made holding `padding` zero
   * contacts, the seeds the routing table returned, and the completions in arrival order.
   * Returns None when the completions run out while probes are pending (the goroutine would
   * wait on done forever), else the final result; also the probes made and the completions read.
   * With delta > 0 every contact ever put in ret is probed, and as often as it is in ret.
   */
  method Lookup(delta: int, seeds: seq<Contact>, replies: seq<seq<Contact>>, padding: nat)
    returns (result: Option<seq<Contact>>, probes: seq<Contact>, consumed: nat)
    ensures consumed <= |replies|
    ensures result.None? ==> consumed == |replies|
    ensures result.None? ==> consumed < |probes| <= consumed + delta
    ensures result.Some? ==> |probes| == consumed
    ensures multiset(probes) <= multiset(Gathered(padding, seeds, replies[..consumed]))
    ensures result.Some? ==> result.value == FinalResult(Gathered(padding, seeds, replies[..consumed]))
    ensures result.Some? && delta > 0 ==> multiset(probes) == multiset(Gathered(padding, seeds, replies[..consumed]))
    ensures forall k :: 0 <= k < consumed ==> Outstanding(delta, padding, seeds, replies[..k]) > 0
    ensures |probes| == consumed + Outstanding(delta, padding, seeds, replies[..consumed])
    ensures result.Some? <==> Outstanding(delta, padding, seeds, replies[..consumed]) == 0
  {
    var ret, frontier, seen := Start(padding, seeds);
    var pending;
    pending, probes := Dispatch(frontier, 0, delta);
    consumed := 0;
    assert replies[..0] == [];
    assert LoopState(delta, padding, seeds, replies[..0], ret, seen, frontier.items, probes, pending);
    while pending > 0
      invariant consumed <= |replies|
      invariant LoopState(delta, padding, seeds, replies[..consumed], ret, seen, frontier.items, probes, pending)
      invariant forall k :: 0 <= k < consumed ==> Outstanding(delta, padding, seeds, replies[..k]) > 0
      decreases |replies| - consumed
    {
      LoopStatePending(delta, padding, seeds, replies[..consumed], ret, seen, frontier.items, probes, pending);
      if consumed == |replies| {
        LoopStateProbes(delta, padding, seeds, replies[..consumed], ret, seen, frontier.items, probes, pending);
        return None, probes, consumed;
      }
      StillReading(delta, padding, seeds, replies, consumed);
      ret, seen, probes, pending := Step(frontier, delta, padding, seeds, replies[..consumed], replies[consumed], ret, seen, probes, pending);
      SliceNext(replies, consumed);
      consumed := consumed + 1;
    }
    LoopStateProbes(delta, padding, seeds, replies[..consumed], ret, seen, frontier.items, probes, pending);
    LoopStatePending(delta, padding, seeds, replies[..consumed], ret, seen, frontier.items, probes, pending);
    var r := Finish(ret);
    result := Some(r);
  }

  /** The end of IterativeFindNode (findnode.go:97-100): sort.Sort(ret), then keep the first BucketSize. */
  method Finish(ret: seq<Contact>) returns (r: seq<Contact>)
    ensures r == FinalResult(ret)
  {
    r := SortById(ret);
    if |r| > BucketSize {
      r := r[..BucketSize];
    }
  }

  // ---------------------------------------------------------------------------
  // The zero padding of ret and frontier (findnode.go:62-63)
  // ---------------------------------------------------------------------------

  lemma {:induction false} ZerosCount(n: nat)
    ensures multiset(Zeros(n))[ZeroContact] == n
  {
    if n > 0 {
      assert Zeros(n) == Zeros(n - 1) + [ZeroContact];
      ZerosCount(n - 1);
    }
  }

  lemma {:induction false} CountAtMostLength(u: seq<Contact>, x: Contact)
    ensures multiset(u)[x] <= |u|
  {
    if u != [] {
      assert u == u[..|u| - 1] + [u[|u| - 1]];
      CountAtMostLength(u[..|u| - 1], x);
    }
  }

  /** In a sorted sequence, once an identifier other than ZeroID appears, no zero contact follows. */
  lemma ZerosComeFirst(t: seq<Contact>, k: nat)
    requires SortedById(t) && k < |t| && t[k].id != Ids.ZeroID
    ensures multiset(t)[ZeroContact] <= k
  {
    Ids.LessTrichotomy(t[k].id, Ids.ZeroID);
    Ids.NothingBelowZero(t[k].id, 0);
    assert ZeroContact !in t[k..];
    SplitMultiset(t, k);
    CountAtMostLength(t[..k], ZeroContact);
  }

  /**
   * With ret and frontier made holding BucketSize zero contacts, as findnode.go:62-63 does, the
   * final result is always BucketSize contacts with identifier ZeroID, whatever was discovered:
   * nothing sorts below ZeroID.
   */
  lemma PaddedResultIsZero(s: seq<Contact>)
    ensures |FinalResult(Zeros(BucketSize) + s)| == BucketSize
    ensures forall k :: 0 <= k < BucketSize ==> FinalResult(Zeros(BucketSize) + s)[k].id == Ids.ZeroID
  {
    var ret := Zeros(BucketSize) + s;
    var t := SortById(ret);
    SortByIdSorts(ret);
    assert |t| == |multiset(t)| == |multiset(ret)| == |ret|;
    ZerosCount(BucketSize);
    forall k | 0 <= k < BucketSize ensures t[k].id == Ids.ZeroID {
      if t[k].id != Ids.ZeroID {
        ZerosComeFirst(t, k);
      }
    }
  }

  /** PaddedResultIsZero for the contacts a padded lookup gathers. */
  lemma PaddedLookupIsZero(seeds: seq<Contact>, rs: seq<seq<Contact>>)
    ensures |FinalResult(Gathered(BucketSize, seeds, rs))| == BucketSize
    ensures forall k :: 0 <= k < BucketSize ==> FinalResult(Gathered(BucketSize, seeds, rs))[k].id == Ids.ZeroID
  {
    PaddedResultIsZero(seeds + Discovered(seeds, rs));
    assert Gathered(BucketSize, seeds, rs) == Zeros(BucketSize) + (seeds + Discovered(seeds, rs));
  }

  /**
   * The lookup as written (findnode.go:59-103): ret and frontier start with BucketSize zero
   * contacts, so a completed lookup returns BucketSize contacts with identifier ZeroID.
   */
  method IterativeFindNode(delta: int, seeds: seq<Contact>, replies: seq<seq<Contact>>)
    returns (result: Option<seq<Contact>>, probes: seq<Contact>, consumed: nat)
    ensures consumed <= |replies| && (result.None? ==> consumed == |replies|)
    ensures result.None? ==> consumed < |probes| <= consumed + delta
    ensures result.Some? ==> |probes| == consumed
    ensures multiset(probes) <= multiset(Gathered(BucketSize, seeds, replies[..consumed]))
    ensures result.Some? ==> result.value == FinalResult(Gathered(BucketSize, seeds, replies[..consumed]))
    ensures result.Some? ==> |result.value| == BucketSize
    ensures result.Some? ==> forall k :: 0 <= k < BucketSize ==> result.value[k].id == Ids.ZeroID
    ensures forall k :: 0 <= k < consumed ==> Outstanding(delta, BucketSize, seeds, replies[..k]) > 0
    ensures |probes| == consumed + Outstanding(delta, BucketSize, seeds, replies[..consumed])
    ensures result.Some? <==> Outstanding(delta, BucketSize, seeds, replies[..consumed]) == 0
  {
    result, probes, consumed := Lookup(delta, seeds, replies, BucketSize);
    PaddedLookupIsZero(seeds, replies[..consumed]);
  }

  /**
   * The lookup with ret and frontier made empty with capacity BucketSize: the result holds
   * seeds and discovered contacts only, the BucketSize least of them by identifier, sorted, and
   * all of them when there are no more than BucketSize; with delta > 0 each was probed.
   */
  method IterativeFindNodeCorrected(delta: int, seeds: seq<Contact>, replies: seq<seq<Contact>>)
    returns (result: Option<seq<Contact>>, probes: seq<Contact>, consumed: nat)
    ensures consumed <= |replies| && (result.None? ==> consumed == |replies|)
    ensures result.None? ==> consumed < |probes| <= consumed + delta
    ensures result.Some? ==> |probes| == consumed
    ensures multiset(probes) <= multiset(seeds + Discovered(seeds, replies[..consumed]))
    ensures result.Some? ==> result.value == FinalResult(seeds + Discovered(seeds, replies[..consumed]))
    ensures result.Some? && delta > 0 ==> multiset(probes) == multiset(seeds + Discovered(seeds, replies[..consumed]))
    ensures forall k :: 0 <= k < consumed ==> Outstanding(delta, 0, seeds, replies[..k]) > 0
    ensures |probes| == consumed + Outstanding(delta, 0, seeds, replies[..consumed])
    ensures result.Some? <==> Outstanding(delta, 0, seeds, replies[..consumed]) == 0
  {
    result, probes, consumed := Lookup(delta, seeds, replies, 0);
    assert Zeros(0) == [];
    assert Gathered(0, seeds, replies[..consumed]) == seeds + Discovered(seeds, replies[..consumed]);
  }

  /**
   * What the corrected lookup returns: sorted, at most BucketSize entries, each a seed or a
   * contact some completion delivered, all of them when there are no more than BucketSize, none
   * left out less than one kept, and the discovered ones with distinct identifiers none of
   * which is a seed's.
   */
  lemma CorrectedResult(seeds: seq<Contact>, rs: seq<seq<Contact>>)
    ensures SortedById(FinalResult(seeds + Discovered(seeds, rs)))
    ensures multiset(FinalResult(seeds + Discovered(seeds, rs))) <= multiset(seeds) + multiset(Flatten(rs))
    ensures |seeds + Discovered(seeds, rs)| <= BucketSize ==>
      multiset(FinalResult(seeds + Discovered(seeds, rs))) == multiset(seeds + Discovered(seeds, rs))
    ensures forall i, j :: 0 <= i < j < |Discovered(seeds, rs)| ==> Discovered(seeds, rs)[i].id != Discovered(seeds, rs)[j].id
    ensures forall x, y :: x in Discovered(seeds, rs) && y in seeds ==> x.id != y.id
  {
    var ret := seeds + Discovered(seeds, rs);
    FinalResultProperties(ret);
    FreshProperties(IdsOf(seeds), Flatten(rs));
    assert multiset(ret) == multiset(seeds) + multiset(Discovered(seeds, rs));
    if |ret| <= BucketSize {
      assert |multiset(FinalResult(ret))| == |multiset(ret)|;
      MultisetOfSameSize(multiset(FinalResult(ret)), multiset(ret));
    }
  }

  lemma MultisetOfSameSize(a: multiset<Contact>, b: multiset<Contact>)
    requires a <= b && |a| == |b|
    ensures a == b
  {
    var d := b - a;
    assert b == a + d;
    assert |d| == 0;
  }
}
