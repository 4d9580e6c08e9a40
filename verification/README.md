# Kademlia routing core

This project is a Dafny model of the routing core of a Kademlia node written in Go, with proofs about that model. It covers:

- **Node identifiers** (`node_id.go`). An identifier is 20 bytes. The model has the hexadecimal text form, byte-wise equality, the lexicographic order, the XOR distance and the prefix length that picks a bucket.
- **Contacts** (`contact.go`). A contact is an identifier plus an address. The `Contacts` slice type implements the sort and heap interfaces.
- **k-buckets** (`kbucket.go`). A bucket is a bounded list of contacts, with the most recently seen at the back.
- **The routing table** (`routing_table.go`). It holds 160 buckets indexed by prefix length. The model has its update path and `findClosest`.
- **The iterative node lookup** (`findnode.go`). This is the coordinator of `IterativeFindNode`: the `ret` list, the `frontier` heap, the `seen` map and the `pending` counter.

Modules:

| file | module | models |
|---|---|---|
| `Common.dfy` | `Common`, `Wrappers` | the constants of `common.go`; `Option` |
| `Ids.dfy` | `Ids` | `node_id.go` |
| `IdVectors.dfy` | `IdVectors` | the concrete examples of `node_id_test.go` |
| `Peers.dfy` | `Peers` | `contact.go` |
| `KBuckets.dfy` | `KBuckets` | `kbucket.go` |
| `Routing.dfy` | `Routing` | `routing_table.go` |
| `FindNode.dfy` | `FindNode` | `findnode.go`, lines 59-103 |

Each Go construct has a counterpart in the model:

- **Identifiers.** The Go `[20]byte` becomes `seq<bv8>` of length 20. The identifier functions are pure functions.
- **Heap and sort slice.** `Contacts` is a class whose `items` field `Swap`, `Push` and `Pop` reassign.
- **k-bucket.** `KBucket` is a class whose `contacts` field `update` reassigns. The `container/list` list becomes a sequence, front first.
- **Routing table.** `RoutingTable` holds an array of 160 `KBucket` objects.
- **Contracts on values.** The methods are proved against functions on values: `Touched` for `update`, `Closest` for `findClosest`, and `Fresh`, `Gathered` and `FinalResult` for the lookup. Lemmas prove the properties of those functions.
- **The lookup.** It runs one step per probe completion. Each completion is an input (the contacts it delivered, `[]` for a failed probe). It is taken in the order the `done` channel would deliver it.

Where the code departs from the Kademlia design of Maymounkov and Mazières, the model follows the code:

- `findClosest` does not sort by XOR distance. It returns a prefix of the buckets read in scan order.
- The lookup's frontier and final sort order contacts by raw identifier, using `Contacts.Less`. They do not use the distance to the target.
- `NewNodeID` takes the first 20 bytes `hex.DecodeString` produced and ignores its error. Upper-case digits are accepted, and text after the first 40 digits is ignored. With fewer than 20 bytes decoded, Go's indexing panics; the model returns `None` there.
- The model takes `hex.DecodeString` as current Go releases define it. It returns the bytes decoded before the first character that is not a hex digit, and it drops a trailing odd digit; the error is ignored. With a `DecodeString` that returns no bytes on malformed text, `NewNodeID` would panic on every malformed text, including a valid 40-digit prefix followed by junk. That variant is not modelled.

## Model

| member | source | states |
|---|---|---|
| Ids.HexDigit | node_id.go:30-32 | hex.EncodeToString's digit for a nibble is a lower-case hex digit |
| Ids.HexValue | node_id.go:10-11 | hex.DecodeString accepts exactly 0-9, a-f and A-F as digits, each worth less than 16 |
| Ids.HexDigitValue | node_id.go:10-11 | decoding the digit written for a nibble gives that nibble back |
| Ids.HexValueDigit | node_id.go:30-32 | a lower-case digit is the digit written for its own value |
| Ids.PairValueShift | node_id.go:10-11 | the byte a digit pair decodes to depends only on that pair |
| Ids.PairValue | node_id.go:10-11 | a digit pair decodes exactly when both characters are hex digits, and then to the byte whose high nibble is the first digit's value and low nibble the second's |
| Ids.EncodeByte | node_id.go:30-32 | every byte is written as two lower-case hex digits |
| Ids.NibblesRebuildByte | node_id.go:30-32 | a byte is rebuilt from its high and low nibble |
| Ids.ByteSplitsIntoNibbles | node_id.go:10-11 | the byte joined from two nibbles splits back into them |
| Ids.EncodeByteDecodes | node_id.go:10-11 | the two digits written for a byte decode to that byte |
| Ids.PairEncodes | node_id.go:30-32 | a pair of lower-case digits decodes, and writing the result gives the pair back |
| Ids.EncodeHex | node_id.go:30-32 | the text of n bytes has 2n characters |
| Ids.EncodeHexLower | node_id.go:30-32 | every character of the text form is a lower-case hex digit |
| Ids.DecodeHex | node_id.go:11 | the bytes decoded before the first invalid pair (a trailing odd digit dropped) number at most half the length of the text |
| Ids.DecodeHexCons | node_id.go:11 | a valid first pair gives the first byte, and the rest decodes from the remaining text |
| Ids.DecodeHexPairs | node_id.go:11-13 | byte k decoded is the value of digit pair k; when decoding stops early, the next pair is invalid |
| Ids.NewNodeID | node_id.go:10-16 | it panics (None) exactly when fewer than 20 bytes decode; otherwise byte k is the value of digit pair k |
| Ids.String | node_id.go:30-32 | 40 characters, all lower-case hex digits |
| Ids.DecodeEncode | node_id.go:10-16 | decoding the text form of any bytes gives those bytes back |
| Ids.DecodeByteThenRest | node_id.go:10-16 | decoding a written byte followed by more text gives the byte, then the rest decoded |
| Ids.EncodeDecode | node_id.go:10-16 | an even-length lower-case hex text decodes completely and is written back unchanged |
| Ids.PairEncodesAt | node_id.go:10-16 | the first two lower-case digits decode, and writing the byte gives them back |
| Ids.EncodeHexCons | node_id.go:30-32 | the text of a byte sequence is the first byte's two digits, then the rest's text |
| Ids.StringThenParse | node_id_test.go:35-43 | NewNodeID(id.String()) is id, for every identifier |
| Ids.ParseThenString | node_id_test.go:25-33 | a 40-digit lower-case hex text parses, and its String() is the text itself |
| Ids.EqualsFrom | node_id.go:34-41 | the scan from byte i finds no difference exactly when the suffixes from i are equal |
| Ids.Equals | node_id.go:34-41 | true exactly when all 20 bytes match (so also reflexive) |
| Ids.LessFromIrreflexive | node_id.go:43-51 | no identifier is less than itself |
| Ids.LessFromAsymmetric | node_id.go:43-51 | if a < b then not b < a |
| Ids.LessFromTotal | node_id.go:43-51 | two identifiers are equal or one is less than the other |
| Ids.LessFromTransitive | node_id.go:43-51 | a < b and b < c give a < c |
| Ids.LessFromFirstDifference | node_id.go:43-51 | from a common prefix of length i, the scan answers true exactly when there is a first difference at or after i where a's byte is smaller |
| Ids.Less | node_id.go:43-51 | an identifier is never less than an equal one |
| Ids.LessIsLexicographic | node_id.go:43-51 | Less is the lexicographic order on bytes: true exactly when a and b agree up to some byte k and a[k] < b[k] |
| Ids.LessStrictOrder | node_id.go:43-51 | Less is irreflexive, asymmetric and transitive |
| Ids.LessTrichotomy | node_id.go:43-51 | exactly one of a < b, b < a and a == b holds |
| Ids.NothingBelowZero | node_id.go:43-51 | no identifier is less than the all-zero identifier |
| Ids.LessAtFirstDifference | node_id.go:43-51 | a is less than b when they first differ at a byte where a's is smaller |
| Ids.DecrementIsLess | node_id_test.go:53-68 | decrementing the last non-zero byte gives a smaller identifier |
| Ids.Xor | node_id.go:53-58 | byte i of the result is the XOR of the bytes i |
| Ids.XorProperties | node_id.go:53-58 | XOR is symmetric, is all zero exactly on equal identifiers, and undoes itself |
| Ids.XorByte | node_id.go:53-58 | byte XOR is symmetric, is zero exactly on equal bytes, and undoes itself |
| Ids.ByteHasBit | node_id.go:62-68 | a byte is non-zero exactly when one of its eight bits is set |
| Ids.ScanBits | node_id.go:62-68 | the scan from bit 8i+j returns -1 or a bit position from there up to 159 |
| Ids.ScanBitsNone | node_id.go:62-69 | the scan returns -1 exactly when no bit from its start on is set |
| Ids.ScanBitsHit | node_id.go:62-68 | a non-negative result is a set bit, and no bit between the start and it is set |
| Ids.NoBitIsZero | node_id.go:62-69 | an identifier has no set bit exactly when it is all zero |
| Ids.PrefixLen | node_id.go:60-70 | the result lies in -1..159 and is -1 exactly when the identifiers are equal |
| Ids.PrefixLenFirstSetBit | node_id.go:60-70 | a non-negative result is the position of the first set bit of a XOR b |
| Ids.PrefixLenSymmetric | node_id_test.go:120-134 | PrefixLen(a, b) == PrefixLen(b, a) |
| Ids.PrefixLenIsFirstBit | node_id.go:60-70 | the first set bit of a XOR b, at byte i and bit j from the top, gives 8i+j |
| IdVectors.NewNodeIDExample | node_id_test.go:25-33 | "c06349c2f47c837f96d782f2753b2266d548bfa3" parses and is written back unchanged |
| IdVectors.XorExample | node_id_test.go:70-81 | 66472d…c65a XOR 739e8a…d6e7 is 15d9a7…10bd (on the bytes) |
| IdVectors.PrefixLenTopBit | node_id_test.go:88-92 | 80…00 against zero gives 0 in both directions |
| IdVectors.PrefixLenSecondBit | node_id_test.go:93-97 | 40…00 against zero gives 1 in both directions |
| IdVectors.PrefixLenLastBitOfFirstByte | node_id_test.go:98-102 | 01…00 against zero gives 7 in both directions |
| IdVectors.PrefixLenSecondByte | node_id_test.go:103-107 | 0080…00 against zero gives 8 in both directions |
| IdVectors.PrefixLenLastBit | node_id_test.go:108-112 | 00…01 against zero gives 159 in both directions |
| IdVectors.FirstBitOfOneByte | node_id.go:60-70 | an identifier that is zero except for byte i, with first set bit j, is at prefix length 8i+j from zero |
| Peers.NewContact | contact.go:12-17 | the contact has exactly the given identifier and address |
| Peers.Swapped | contact.go:27 | positions i and j are exchanged; the other positions and the multiset are unchanged |
| Peers.SwapTwice | contact.go:27 | swapping the same pair twice restores the slice |
| Peers.Contacts.Len | contact.go:25 | the length of the slice |
| Peers.Contacts.Less | contact.go:26 | decided by the identifiers alone: false on equal identifiers, else true exactly when entry j's identifier is not the lesser one |
| Peers.Contacts.Swap | contact.go:27 | the slice becomes Swapped(old slice, i, j) |
| Peers.Contacts.Push | contact.go:29-31 | x is appended at the end, and the earlier entries are unchanged |
| Peers.Contacts.Pop | contact.go:33-39 | returns the last entry and leaves the prefix before it |
| KBuckets.IndexOfId | kbucket.go:55-72 | the first position from the front with the identifier; None exactly when no entry has it |
| KBuckets.IndexOfOwnId | kbucket.go:55-72 | with distinct identifiers, an entry is found at its own position |
| KBuckets.IndexOfFirst | kbucket.go:62-69 | a match after only non-matching entries is the position found |
| KBuckets.SameIdSameEntry | kbucket.go:32-49 | in a bucket with distinct identifiers, two entries with the same identifier are the same entry |
| KBuckets.MovedToBack | kbucket.go:37 | the entry is last, the others keep their order, and the multiset is unchanged |
| KBuckets.Touched | kbucket.go:32-49 | update either keeps the bucket's entries (moved or unchanged) or appends the contact, and never takes a bucket past 20 entries |
| KBuckets.TouchPresent | kbucket.go:35-37 | update of a present identifier keeps the length and the entries, puts the stored entry last and keeps the others in order |
| KBuckets.TouchAbsent | kbucket.go:44-48 | update of an absent identifier with room appends the contact |
| KBuckets.TouchFull | kbucket.go:38-43 | update of an absent identifier in a full bucket changes nothing |
| KBuckets.TouchPreservesWellFormed | kbucket.go:32-49 | update keeps at most 20 entries with distinct identifiers, loses none, and adds none but the contact |
| KBuckets.MovedToBackDistinct | kbucket.go:37 | moving an entry to the back keeps the identifiers distinct |
| KBuckets.TouchTwice | kbucket.go:32-49 | a second update with the same contact changes nothing |
| KBuckets.KBucket.constructor | kbucket.go:15-21 | a new bucket is empty |
| KBuckets.KBucket.FindById | kbucket.go:55-72 | the list walk finds IndexOfId of the identifier |
| KBuckets.KBucket.FindContact | kbucket.go:51-53 | the lookup goes by identifier only |
| KBuckets.KBucket.IsFull | kbucket.go:74-76 | in a well-formed bucket, true exactly when it holds 20 entries; when false there is room |
| KBuckets.KBucket.Update | kbucket.go:32-49 | the bucket becomes Touched(old bucket, contact) and stays well formed |
| Routing.Take | routing_table.go:63-67 | a prefix of at most n entries: everything when it is short, exactly n otherwise |
| Routing.StartIndex | routing_table.go:54-57 | the scan starts at PrefixLen(target, self), or at 159 when the target is self |
| Routing.DownSplit | routing_table.go:60-70 | the downward scan splits at any bucket between its ends |
| Routing.UpSplit | routing_table.go:72-82 | the upward scan splits at any bucket between its ends |
| Routing.UpLast | routing_table.go:72-82 | the upward scan reads bucket i after the buckets before it |
| Routing.DownLast | routing_table.go:60-70 | the downward scan reads bucket i after the buckets above it |
| Routing.DownIsUpReversed | routing_table.go:60-70 | the downward scan reads the same contacts as the upward scan over the same buckets |
| Routing.ScanOrderReadsAll | routing_table.go:59-84 | the full scan order from any start reads every stored contact exactly once |
| Routing.UpMembers | routing_table.go:72-82 | a contact read by a scan lies in one of the scanned buckets |
| Routing.UpHasMembers | routing_table.go:72-82 | every contact of a scanned bucket is read |
| Routing.TouchKeepsPlaced | routing_table.go:43-44 | updating bucket i with a contact at prefix length i keeps the bucket's placement |
| Routing.ReplaceKeepsPlaced | routing_table.go:43-44 | replacing one bucket by a placed bucket keeps every bucket of the table placed |
| Routing.RoutingTable.constructor | routing_table.go:16-26 | the table stores self and has 160 fresh, distinct, empty buckets |
| Routing.RoutingTable.Self | routing_table.go:12-14 | the whole stored self contact, identifier and address, which no bucket holds |
| Routing.RoutingTable.Update | routing_table.go:36-44 | self's identifier changes nothing; otherwise bucket PrefixLen(contact, self) becomes Touched and the others are untouched; placement is kept |
| Routing.RoutingTable.FindClosest | routing_table.go:53-85 | the result is the first 20 contacts of the scan order from StartIndex; at most 20 contacts, none with self's identifier, no two with the same identifier |
| Routing.RoutingTable.ScanDown | routing_table.go:59-70 | either stops with the first 20 of the scan order, or reads buckets p..0 whole (at most 20 contacts) |
| Routing.RoutingTable.ScanUp | routing_table.go:72-84 | after the downward scan, gives the first 20 of the scan order |
| Routing.CollectBucket | routing_table.go:61-69 | appends a bucket's contacts until the 21st, cutting at 20 exactly when they do not fit |
| Routing.StopInDown | routing_table.go:66 | stopping inside the downward scan returns the first 20 of the scan order |
| Routing.StopInUp | routing_table.go:79 | stopping inside the upward scan returns the first 20 of the scan order |
| Routing.ScanThroughDown | routing_table.go:60-70 | the scan order is the buckets read so far, then bucket i, then the rest |
| Routing.ScanThroughUp | routing_table.go:72-82 | the scan order is the buckets read so far, then bucket i, then the rest |
| Routing.TakeLonger | routing_table.go:63-67 | once 20 contacts are read, what follows does not change the result |
| Routing.Closest | routing_table.go:53-85 | the result is a prefix of the scan order, of length min(stored contacts, 20) |
| Routing.ClosestAreStored | routing_table.go:59-84 | the contacts returned are all stored, each at most as often as stored, and are all of them when at most 20 are stored |
| Routing.TargetBucketFirst | routing_table.go:60-64 | the target's bucket, when it fits, opens the result |
| Routing.StoredBelow | routing_table.go:37-44 | with every bucket placed, a contact stored below bucket hi has a prefix length with self below hi |
| Routing.StoredOnce | routing_table.go:37-44 | with every bucket placed, no contact is stored twice in the table |
| Routing.SameIdSameContact | routing_table.go:37-44 | with every bucket placed, two stored contacts with the same identifier are the same contact |
| Routing.StoredNotSelf | routing_table.go:37-41 | with every bucket placed, no stored contact has self's identifier |
| Routing.SelectionDistinct | routing_table.go:59-84 | with every bucket placed, contacts picked from the table, each at most as often as stored, have distinct identifiers |
| Routing.ClosestDistinctNotSelf | routing_table.go:53-85 | with every bucket placed, findClosest never returns self's identifier and never returns two contacts with the same identifier |
| FindNode.Zeros | findnode.go:62-63 | make yields n contacts, each with the all-zero identifier and an empty address |
| FindNode.IdsOfAppend | findnode.go:69 | the identifiers of two batches together are the union of each batch's |
| FindNode.KeyIsId | findnode.go:83 | the text key of an identifier is in seen exactly when the identifier was seen |
| FindNode.KeysAdd | findnode.go:86 | recording an identifier adds exactly its text key to seen |
| FindNode.FreshProperties | findnode.go:82-88 | the appended contacts come from the reply, none was seen before, no two share an identifier, and afterwards every reply identifier is seen |
| FindNode.DedupsStep | findnode.go:82-88 | one turn of the dedup loop keeps the four properties of FreshProperties |
| FindNode.DedupsSkip | findnode.go:83 | a contact whose identifier was seen leaves ret as it is and keeps the four properties |
| FindNode.DedupsAdd | findnode.go:83-87 | appending a contact whose identifier was not seen keeps the four properties |
| FindNode.FreshAppend | findnode.go:82-88 | absorbing two batches in turn is absorbing them together |
| FindNode.DiscoveredGrows | findnode.go:79-88 | one more completion extends the discovered contacts by its own new contacts |
| FindNode.GatheredMembers | findnode.go:62-88 | ret is the padding, then the seeds, then contacts delivered by completions, each at most as often as delivered and none with a seed's identifier |
| FindNode.GatheredGrows | findnode.go:80-88 | one more completion extends ret by exactly its contacts with new identifiers |
| FindNode.MinIndex | contact.go:26 | a position whose entry no other entry is less than |
| FindNode.PopMin | findnode.go:75 | heap.Pop removes one entry that no entry of the frontier is less than, and returns it |
| FindNode.PopKeepsOrder | findnode.go:73-77 | one pop keeps every contact either in the frontier or probed, the probes in order, and nothing left in the frontier less than a probe |
| FindNode.Dispatch | findnode.go:90-94 | pops until delta probes are pending or the frontier is empty, never past delta; each probe is least among what is still in the frontier, and the probes are in order |
| FindNode.Absorb | findnode.go:82-88 | ret and the frontier gain exactly Fresh(seen, reply), and seen gains their keys |
| FindNode.AbsorbOne | findnode.go:83-87 | a contact with a seen identifier changes nothing; any other is appended to ret, pushed on the frontier, and its key added to seen |
| FindNode.FreshStep | findnode.go:82-88 | the dedup over one more contact keeps it exactly when its identifier is new |
| FindNode.Start | findnode.go:62-70 | ret and the frontier hold the padding then every seed; seen holds the seeds' keys |
| FindNode.PrependSorted | findnode.go:97 | an entry no entry is less than can go first in a sorted list |
| FindNode.InsertSorted | findnode.go:97 | inserting keeps the order and adds exactly the entry |
| FindNode.SortByIdSorts | findnode.go:97 | the sort gives a permutation of ret ordered by Contacts.Less |
| FindNode.FinalResultProperties | findnode.go:97-100 | the result is sorted and holds min(len, 20) entries of ret, and nothing left out is less than anything kept |
| FindNode.Round | findnode.go:80-94 | one completion: pending goes down by one and up by the new probes; the new contacts are added to ret, seen and the frontier |
| FindNode.Step | findnode.go:79-95 | one turn of the main loop keeps the loop state, one completion further on |
| FindNode.LoopStateProbes | findnode.go:72-95 | in every loop state, each probe is of a contact of ret, pending probes are 1 to delta beyond the completions read, none are pending once probes equal completions, and with delta > 0 and none pending every contact of ret was probed as often as it is in ret |
| FindNode.LoopStatePending | findnode.go:72-95 | in every loop state, pending equals Outstanding: min(size of ret, completions read + delta) minus the completions read |
| FindNode.OutstandingBounds | findnode.go:73-94 | probes are outstanding exactly when delta is positive and ret holds more contacts than completions read, and never more than delta |
| FindNode.StillReading | findnode.go:79-80 | a completion read while probes are outstanding extends the run of completions all read with probes outstanding |
| FindNode.Lookup | findnode.go:59-103 | it reads a completion only while probes are outstanding and stops at the first point where none are, so the completions read, the number of probes (completions read plus Outstanding) and whether it finishes are fixed by the input; it blocks (None) only once every completion is read and then with between 1 and delta probes unanswered; a finished lookup read one completion per probe; every probe is of a contact of ret, and with delta > 0 every contact of ret is probed, as often as it is in ret; the result is the sorted, truncated ret |
| FindNode.Finish | findnode.go:97-100 | the returned slice is FinalResult(ret) |
| FindNode.ZerosCount | findnode.go:62 | the padding holds n zero contacts |
| FindNode.ZerosComeFirst | findnode.go:97 | in a sorted list, no zero contact follows an entry with another identifier |
| FindNode.PaddedResultIsZero | findnode.go:62-63 | after padding with 20 zero contacts, the result is 20 contacts with the all-zero identifier |
| FindNode.PaddedLookupIsZero | findnode.go:62-100 | whatever the seeds and completions, the padded lookup's result is 20 contacts with the all-zero identifier |
| FindNode.IterativeFindNode | findnode.go:59-103 | the lookup as written: it reads completions exactly until no probe is outstanding; it blocks only when completions run out, with 1 to delta probes unanswered; every probe is of a contact of ret (padding included); a completed lookup read one completion per probe and returns the sorted, truncated ret, which is 20 all-zero identifiers |
| FindNode.IterativeFindNodeCorrected | findnode.go:59-103 | with unpadded ret and frontier: it reads completions exactly until no probe is outstanding; it blocks only when completions run out, with 1 to delta probes unanswered; every probe is of a seed or discovered contact; a completed lookup read one completion per probe, returns the sorted, truncated seeds plus discovered contacts, and with delta > 0 probed every one of them |
| FindNode.CorrectedResult | findnode.go:82-100 | the corrected result is sorted, holds only seeds and delivered contacts (all of them when there are at most 20), and the discovered contacts are distinct and are not seeds |

## Left out

- Goroutines and channels: `RoutingTable.run`'s select loop, `KBucket.run`, `UpdateChan`, `LookupRequestChan`, `go k.FindNode` and the `done`/`final` channels. Operations are direct calls, and probe completions are an input sequence in arrival order.
- Network I/O: `FindNode`'s dial and RPC (findnode.go:28-47), `FindNodeRPC`, ping.go, bootstrap.go, findvalue.go. In particular, `k.routes.Update(res.Sender)` after a successful probe is not modelled. The exported `FindClosest(target, count)` that `IterativeFindNode` seeds from is not part of this model, so the seeds are a parameter.
- `NewRandomNodeID` and `check`: randomness, and a panic on a failed read.
- kademlia.go: an earlier version of the package that redeclares the live types and does not build with them.
- run/main.go: command-line start-up.
- The `fmt.Println` debug output.
- The `recover` in `findById` (kbucket.go:56-60): `update` only ever stores `Contact` values (kbucket.go:47), so in the modelled core the type assertion at kbucket.go:65 cannot fail. When a caller has pushed a value of some other type, as kbucket_test.go:24 and kbucket_test.go:49 do with a `*Contact`, the assertion panics and the `recover` makes `findById` return nil. That path is not modelled, and neither are those two tests' expectations, which it defeats.
- Heap internals: `heap.Push` is modelled as an append and `heap.Pop` as removing one least entry. The positions `up`/`down` leave entries in are not modelled. Among entries with equal identifiers, which one is popped is not modelled.
- FindNode.SortById: among entries with equal identifiers, the order `sort.Sort` (not stable) leaves is not modelled. `SortById` fixes one ordering, and the lemmas only use its sortedness and permutation.
- IdVectors.XorExample: states the XOR test on the bytes the hex strings spell. The hex text of the result is not evaluated.
- IdVectors.PrefixLenTopBit: the prefix-length table's 0 entry is stated on the decoded bytes, not on the hex strings.
- IdVectors.PrefixLenSecondBit: the prefix-length table's 1 entry is stated on the decoded bytes, not on the hex strings.
- IdVectors.PrefixLenLastBitOfFirstByte: the prefix-length table's 7 entry is stated on the decoded bytes, not on the hex strings.
- IdVectors.PrefixLenSecondByte: the prefix-length table's 8 entry is stated on the decoded bytes, not on the hex strings.
- IdVectors.PrefixLenLastBit: the prefix-length table's 159 entry is stated on the decoded bytes, not on the hex strings.
- The all-zero pair giving -1 in the same table is `Ids.PrefixLen`'s own contract.
- Routing.RoutingTable.FindClosest: the two scan loops of `findClosest` are split into helper methods (`ScanDown`, `ScanUp`, `CollectBucket`). Each bucket is read from a sequence, not through `container/list` element pointers; `CollectBucket` still walks it one entry at a time.
- Routing.RoutingTable.Update: the concurrent-access guarantees the `run` loop gives by serialising updates are not modelled.
- FindNode.Lookup: a completion that never arrives, a hang, is modelled as `None` when the input completions run out.

## Findings

| source | as written | input that shows it | evidently intended | confidence | as-written member | corrected member |
|---|---|---|---|---|---|---|
| findnode.go:62-63 | `make(Contacts, BucketSize)` fills `ret` and `frontier` with 20 zero-valued contacts before the seeds | any seeds and replies, e.g. seeds = one contact with a non-zero identifier and every probe answered with no contacts (replies = [[], [], …], one per probe): the result is 20 contacts with the all-zero identifier and an empty address, and the first probes go to those zero contacts | `make(Contacts, 0, BucketSize)`: start empty with capacity 20, so the result holds the seeds and the discovered contacts | high (not executed) | FindNode.IterativeFindNode | FindNode.IterativeFindNodeCorrected |
