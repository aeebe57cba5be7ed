# Greenis, verified

Greenis is a small in-memory key-value server in the manner of Redis. Its data
structures are hand-written and updated in place. This project models them in
Dafny in the same form (objects with links, arrays, buffers and loops that
change them) and proves what they promise, from single rotations of a tree up
to whole runs of the store.

| file | what it models |
|---|---|
| `Basics`, `Seqs` | bytes, options, lists without duplicates |
| `ZNodes`, `AvlTree`, `Avl` | the parent-linked AVL tree: its shape as a value, and the pointer code |
| `Order`, `ZTree`, `ZSet` | the order by (score, name), and the sorted set: tree plus hash map |
| `HashTable` | the map that is rehashed step by step |
| `Entries`, `Heap` | the keys, and the TTL heap whose items write their index back |
| `Commands` | what each command does and answers, on a plain map with deadlines |
| `Store`, `KeyValue`, `Timers` | the store: db map, TTL heap and sorted sets; the commands; the TTL timers |
| `Runs` | any sequence of requests and ticks, as a run of the plain map |
| `Wire`, `Buffers`, `Request`, `Framing` | formats, buffers, requests, the splitting of a stream into requests |
| `Connection` | one connection: the pipelined request loop on the store, reading and writing |
| `List`, `Server` | the circular idle list, the connection table, the idle timers |
| `EventLoop` | turns of sockets, whole rounds, and the server from its start |
| `Client` | the client's reading of the replies |
| `ThreadPool` | the thread pool as a system of atomic steps |
| `Handover` | the entries that the store hands to the thread pool |

How the parts fit:

* A tree in the heap is described by `Avl.Linked`: a shape, with all parent and
  child links and every cached `height` and `cnt` right. Each method of `Avl` is
  proved against the function of module `AvlTree` that does the same to a shape;
  the lemmas of `AvlTree` say what those functions promise. A place in a tree is
  a path (a zipper), so that the loop of `avl_fix` has an invariant: the subtree
  in the hole is linked, and only the nodes above may be stale.
* A sorted set stands for a map from names to scores (`ZSet.Contents`) and for
  the one sorted list of its pairs (`ZSet.Listing`). A hash map stands for its
  set of nodes, at every point of a migration.
* The store stands for a plain map from keys to items with an optional deadline
  (`Store.Model`). `Commands.Effect` and `Commands.Answers` say, without any of
  the data structures, what a command does and what it may answer;
  `KeyValue.DoRequest` is proved to do that.
* A `Runs.Run` is a sequence of plain maps with the request or tick that leads
  from each one to the next, and the reply. Every method above the store says
  which run it has done: `Connection.Conn` from the bytes of a read to the frames
  in its outgoing buffer, `EventLoop.Round` from what `poll` reports to the tick
  at the end, `EventLoop.Live` from the start of the server on. What is proved
  about runs, that no key goes too early or too late, thereby holds of the server.
* A stream is a sequence of request frames: `Framing.SplitIs` and
  `Framing.SplitSent` are the two directions, and by `Framing.SplitConcat` it does
  not matter how the bytes arrive. A connection's ghost fields record all bytes
  received and sent, and the commands and replies; `Connection.Conn.InAndOut`
  relates them.
* What the client shows is a function of the bytes alone, with its own tags
  (`Wire.Shown`). `Client.RepliesAreRead` leads from the frames in a connection's
  outgoing bytes back to the replies, signs and all.
* What `entry_del` hands to the thread pool leaves the store's objects
  (`Store.Repr`), which is all that a command may change, and is disjoint from
  what was handed over before. The pool's jobs are numbered, and job x destroys the
  x-th entry handed over; `Handover` puts both sides together.
* The commands keep their peculiarities: `set` keeps a key's deadline, a set that
  becomes empty keeps its key, an expired key still answers until a tick removes
  it, and a negative `pexpire` removes the deadline and answers 1.

## Model

| member | source | states |
|---|---|---|
| AvlTree.FixNodeBalanced | lib/server/avl.cpp:62-76 | a node whose sides differ by up to 2 becomes balanced by a single or double rotation, its height stays or drops by one, and a balanced node is left alone |
| AvlTree.FixNodeInorder | lib/server/avl.cpp:22-76 | no rotation changes the order |
| AvlTree.FixInorder | lib/server/avl.cpp:79-104 | rebalancing up to the root keeps the order of the whole tree |
| AvlTree.FixBalanced | lib/server/avl.cpp:79-104 | if the hole had height h in a balanced tree and the subtree differs from that by at most one, the whole tree is balanced again |
| AvlTree.InsertCorrect | lib/server/zset.cpp:55-65 | a new leaf and the rebalancing give a balanced tree whose order is the old one with the node at that place |
| AvlTree.DelCorrect | lib/server/avl.cpp:126-154 | deleting any node of a balanced tree, its successor taking its place if it has two children, gives a balanced tree whose order is the old one without exactly that node |
| AvlTree.MinSize | lib/server/avl.cpp:156-158 | a tree of height h has at least Fib(h + 2) - 1 nodes |
| AvlTree.HeightLogarithmic | lib/server/avl.cpp:156-158 | so its height is logarithmic in its size |
| AvlTree.RankAt | lib/server/avl.cpp:159-185 | the node at a place has as rank the nodes before that place plus those in its left subtree |
| Avl.Update | lib/server/avl.cpp:16-20 | `height` and `cnt` are recomputed from exact children, so the subtree is exact |
| Avl.RotateLeft | lib/server/avl.cpp:22-40 | the left rotation on pointers, all links and caches right afterwards |
| Avl.RotateRight | lib/server/avl.cpp:42-60 | its mirror image |
| Avl.RepairLeft | lib/server/avl.cpp:62-68 | single or double rotation on pointers, decided by the cached heights |
| Avl.RepairRight | lib/server/avl.cpp:70-76 | its mirror image |
| Avl.Rebalance | lib/server/avl.cpp:78-104 | from a node with stale ancestors to a root whose whole tree is linked and exact: the shape is the rebalanced one |
| Avl.DetachEasy | lib/server/avl.cpp:106-123 | a node that lacks a child is unlinked and the tree above rebalanced |
| Avl.Succeed | lib/server/avl.cpp:138-154 | the detached successor takes over the node's links and caches, and every link to the node |
| Avl.Delete | lib/server/avl.cpp:125-154 | the whole deletion on pointers leaves a linked, exact tree of the deleted shape |
| Avl.Move | lib/server/avl.cpp:161-183 | one move of the rank walk: down only towards the target, up otherwise, off the tree only if there is no target; no int64 sum overflows |
| Avl.Offset | lib/server/avl.cpp:156-185 | the node whose rank is `offset` away, null exactly if that rank does not exist, in at most 2 * (height - 1) moves, for every int64 offset; all positions stay in int64 |
| Order.NameLessIsLexicographic | lib/server/zset.cpp:36-47 | the comparison by memcmp and length is the lexicographic order |
| Order.LessIs | lib/server/zset.cpp:36-52 | the lower score comes first, and of equal scores the name that is lexicographically lower |
| Order.LessTotal | lib/server/zset.cpp:36-52 | zless is irreflexive, asymmetric and total |
| Order.LessTransitive | lib/server/zset.cpp:36-52 | zless is transitive |
| Order.SortedIs | lib/server/zset.cpp:36-65 | a sorted listing has its scores upwards and the names of equal scores upwards, and any such list is sorted |
| Order.DictDetermines | lib/server/zset.cpp:36-52 | two sorted lists of pairs that stand for the same map are the same list |
| Order.HashTellsLast | inc/server/HashTable.h:39-45 | strings that differ in the last byte only have different hashes |
| Order.RankOfKeyIs | lib/server/zset.cpp:139-151 | a split into pairs below the key and pairs not below it is at the key's rank |
| Order.SliceIs | lib/server/key_value.cpp:253-269 | place by place: with k pairs below the key, the i-th pair selected is at k + offset + i, there are min(what is left, ceil(limit / 2)) of them, and none if that place does not exist |
| ZTree.TreeInsert | lib/server/zset.cpp:54-65 | the tree stays linked, exact, balanced and sorted and gains exactly the node |
| ZTree.TreeDelete | lib/server/zset.cpp:132-133 | the tree stays linked, exact, balanced and sorted and loses exactly the node |
| ZTree.TreeMove | lib/server/zset.cpp:71-77 | a tuple with a new score moves to its new place; no other tuple changes |
| ZTree.SeekGe | lib/server/zset.cpp:139-151 | the first pair that is not below the key, null if there is none |
| ZSets.IndexedSize | lib/server/zset.cpp:81-92 | the hash map holds as many nodes as the tree |
| ZSets.HoldsDict | lib/server/zset.cpp:81-92 | the tuples are the entries of a map exactly if the sorted listing stands for that map |
| ZSets.ZSet.Lookup | lib/server/zset.cpp:110-122 | finds the tuple with a name if there is one, also by the shortcut for an empty root, and changes nothing a reader sees |
| ZSets.ZSet.Update | lib/server/zset.cpp:67-78 | the map with one score replaced |
| ZSets.ZSet.Insert | lib/server/zset.cpp:80-92 | the map with the pair put in; true exactly if the name is new |
| ZSets.ZSet.Unindex | lib/server/zset.cpp:125-131 | the hash map gives up the tuple's own node, so the assert holds |
| ZSets.ZSet.Delete | lib/server/zset.cpp:124-137 | the map without the name, on both indexes |
| ZTree.TreeDispose | lib/server/zset.cpp:159-166 | every node of the tree is freed, each once, and none is looked at afterwards |
| ZSets.ZSet.Clear | lib/server/zset.cpp:169-173 | the set is empty on both indexes, and its tuples are freed, each once |
| ZSets.ZSet.Size | lib/server/HashTable.cpp:134-136 | the size of the hash map is the number of pairs |
| ZSets.ZSet.ListingIs | lib/server/zset.cpp:81-137 | the tree's order is the sorted listing of the map, each name once |
| ZSets.ZSet.Query | lib/server/key_value.cpp:253-269 | exactly the slice of the sorted listing that starts `offset` places after the first pair not below the key, ceil(limit / 2) pairs or all there are, with a count of two per pair |
| HashTable.SlotOfIsAnd | lib/server/HashTable.cpp:28-34 | the slot is hcode & mask for the masks that occur |
| HashTable.FlattenBucketed | lib/server/HashTable.cpp:138-147 | the chains one after the other list each node of the table exactly once |
| HashTable.HTab.Insert | lib/server/HashTable.cpp:27-34 | the node goes to the front of the chain of its hash |
| HashTable.HTab.Lookup | lib/server/HashTable.cpp:36-55 | the incoming pointer of a matching node, none only if no node of the table matches |
| HashTable.HTab.Detach | lib/server/HashTable.cpp:57-63 | exactly that node leaves its chain |
| HashTable.HMap.CursorInside | lib/server/HashTable.cpp:65-75 | while the older table holds a node the cursor is on it: everything below is empty |
| HashTable.HMap.MigrateStep | lib/server/HashTable.cpp:66-75 | one round skips an empty slot or moves one node; no node is lost |
| HashTable.HMap.HelpRehashing | lib/server/HashTable.cpp:65-83 | exactly 128 nodes move, or all that are left and the older table is dropped; the set of nodes stays |
| HashTable.HMap.TriggerRehashing | lib/server/HashTable.cpp:85-91 | the newer table becomes the older one and an empty one of twice the slots takes its place |
| HashTable.HMap.Lookup | lib/server/HashTable.cpp:93-100 | finds a matching node exactly if there is one, at any point of a migration, and moves 128 more nodes |
| HashTable.HMap.Insert | lib/server/HashTable.cpp:102-115 | adds the node; the table doubles exactly when its load reaches 8 and no migration is going on; the load bound is kept |
| HashTable.HMap.BelowThreshold | lib/server/HashTable.cpp:102-115 | the newer table is below the threshold between any two operations, also together with what is still to be moved into it: a migration ends before the next is due |
| HashTable.HMap.Delete | lib/server/HashTable.cpp:117-126 | removes one matching node exactly if there is one |
| HashTable.HMap.Foreach | lib/server/HashTable.cpp:138-151 | a callback that never refuses sees each node exactly once, also in the middle of a migration |
| HashTable.HMap.Clear | lib/server/HashTable.cpp:128-132 | the map is empty, and both tables are gone |
| HashTable.HMap.Size | lib/server/HashTable.cpp:134-136 | the number of nodes |
| Heap.ExchangeUp | lib/server/heap.cpp:25-35 | moving the hole up moves the one violation of the order up |
| Heap.ExchangeDown | lib/server/heap.cpp:37-62 | moving the hole down to the least child moves the violation down |
| Heap.RootIsLeast | lib/server/heap.cpp:64-70 | the first item has the least deadline |
| Heap.DeadlinesPermuted | lib/server/heap.cpp:64-70 | reordering items does not change who is due when |
| Heap.ErasedOrdered | lib/server/heap.cpp:72-76 | with the last item in the erased place the order is violated there at most |
| Heap.PutOrdered | lib/server/heap.cpp:82-88 | an item replaced or added violates the order there at most |
| Heap.TtlHeap.Up | lib/server/heap.cpp:25-35 | a heap again, the same items, and every item's index behind its `ref` |
| Heap.TtlHeap.Down | lib/server/heap.cpp:37-62 | likewise downwards |
| Heap.TtlHeap.Update | lib/server/heap.cpp:64-70 | from a heap violated around one place only: a heap, the same items, every index right, no other entry touched |
| Heap.TtlHeap.Delete | lib/server/heap.cpp:72-80 | exactly that item is gone, and every index is right |
| Heap.TtlHeap.Upsert | lib/server/heap.cpp:82-90 | exactly that deadline is replaced or added, and every index is right |
| Heap.TtlHeap.Finds | lib/server/key_value.cpp:74-85 | whoever has a deadline finds its item at `heap_idx` |
| Heap.TtlHeap.TimedFacts | lib/server/key_value.cpp:301-307 | `heap_idx` is -1 exactly if the entry has no deadline, and else leads to its own item |
| Heap.TtlHeap.Earliest | lib/server/timer.cpp:36-38 | the first item is the earliest of all deadlines; none means no deadline at all |
| Heap.TtlHeap.SetTtl | lib/server/key_value.cpp:74-85 | a negative time to live removes the deadline, any other sets it to now plus it; the heap and the entries agree |
| Commands.AnswersWellFormed | lib/server/key_value.cpp:87-310 | whatever answers a command fits the format, or is too long and replaced by an error; only counts of 2^32 and more do not fit |
| Commands.EffectShort | lib/server/key_value.cpp:107-310 | commands with strings that fit 32 bits keep the stored ones so |
| Commands.OpOfIs | lib/server/response.cpp:66-93 | each command is told by exactly its name and its number of arguments, which it takes in this order |
| Commands.OthersKept | lib/server/key_value.cpp:87-310 | a command touches its own key only, and only five commands touch any |
| Commands.SetIsRead | lib/server/key_value.cpp:87-132 | get answers what set has set; the time left is as before |
| Commands.DelIsRead | lib/server/key_value.cpp:134-147 | after del, get answers nil and pttl -2 |
| Commands.ExpireIsRead | lib/server/key_value.cpp:272-310 | pttl answers what is left of the time that pexpire has set, and -1 after a negative one |
| Commands.ZAddIsRead | lib/server/key_value.cpp:161-232 | zscore answers the score that zadd has set, and the other scores as before |
| Commands.ZRemIsRead | lib/server/key_value.cpp:207-232 | after zrem, zscore answers nil for the name, and the other scores as before; the key stays |
| Commands.QueryIs | lib/server/key_value.cpp:234-270 | a range query answers, in turn, name and score of the pairs from `offset` places after the first that does not precede the key, in the order of scores and names |
| Commands.OneAnswer | lib/server/key_value.cpp:87-310 | the answer to a command is determined, but for the order of keys |
| Commands.NearKept | lib/server/key_value.cpp:74-85 | no deadline is further away than an int64 time to live can be, as long as time does not go backwards |
| Commands.AnswersExact | lib/server/key_value.cpp:291-310 | then every number in an answer fits int64 |
| Stores.KeyedDelete | lib/server/key_value.cpp:38-43 | key and hash, or node identity, single out the one node of a key |
| Stores.Store.Lookup | lib/server/key_value.cpp:93-94 | finds the entry of a key exactly if the key exists; the plain map stays |
| Stores.Store.InsertNew | lib/server/key_value.cpp:125-129 | the plain map gains the key, without a deadline |
| Stores.Store.EntryDel | lib/server/key_value.cpp:61-72 | the entry and its heap item are gone; exactly if its sorted set has more than 1000 tuples, it is handed to the thread pool, intact, and none of its objects is the store's any more |
| Stores.Store.Delete | lib/server/key_value.cpp:134-147 | the plain map without the key, its deadline gone with it; the entry is handed over, or not, as entry_del says |
| Stores.Store.DeleteEntry | lib/server/timer.cpp:68-73 | deleting by node identity finds the entry's own node, so the assert never fails |
| Stores.Store.FirstDue | lib/server/timer.cpp:64-70 | the first heap item is the earliest deadline of the plain map, and belongs to a key in it |
| KeyValue.DoGet | lib/server/key_value.cpp:87-105 | answers as the plain map says and changes nothing in it |
| KeyValue.DoSet | lib/server/key_value.cpp:107-132 | sets a string, keeping the deadline, or refuses a sorted set |
| KeyValue.DoDel | lib/server/key_value.cpp:134-147 | removes the key and answers whether there was one |
| KeyValue.DoExpire | lib/server/key_value.cpp:272-289 | sets or removes the deadline and answers whether the key exists |
| KeyValue.DoTtl | lib/server/key_value.cpp:291-310 | -2, -1, or the time left, 0 if it has passed |
| KeyValue.KeysVisited | lib/server/key_value.cpp:149-159 | visiting each node once meets each key once |
| KeyValue.AllKeys | lib/server/key_value.cpp:156-159 | the count in the header is the number of keys that follow, and each key follows once |
| KeyValue.DoKeys | lib/server/key_value.cpp:149-159 | one array with each key exactly once, also in the middle of a migration |
| KeyValue.DoZAdd | lib/server/key_value.cpp:161-191 | adds or updates the tuple, creating the key, and answers whether the name was new |
| KeyValue.DoZRem | lib/server/key_value.cpp:207-220 | removes the tuple, keeping the key, and answers whether there was one |
| KeyValue.DoZScore | lib/server/key_value.cpp:222-232 | the score, or nil; a missing key answers like an empty set |
| KeyValue.DoZQuery | lib/server/key_value.cpp:234-270 | one array with the names and scores of exactly the slice of the sorted listing |
| KeyValue.DoRequest | lib/server/response.cpp:66-93 | every branch changes the plain map as specified and appends exactly one value that answers the command and can be delivered |
| KeyValue.ParsedIsShort | lib/server/response.cpp:37-64 | every command list that the server accepts meets what `DoRequest` asks of its strings |
| KeyValue.Respond | lib/server/conn.cpp:99-102 | one frame is appended behind untouched bytes, its body at most 4096 bytes; the client reads exactly the body, and shows the reply, or that it was too big |
| Timers.ExpireFirst | lib/server/timer.cpp:67-73 | one round removes a key with the earliest deadline of all |
| Timers.ExpireKeys | lib/server/timer.cpp:64-78 | removes exactly min(2001, number of keys due before now) keys, in order of deadline, none that is not due, and nothing else |
| Timers.InTurnCount | lib/server/timer.cpp:64-78 | keys removed in turn are no more than are due, and all of them when none is left |
| Runs.PlayRequest | lib/server/conn.cpp:99-102 | one request is one step of the plain map, and appends one frame with an answer that is right for it |
| Runs.PlayTick | lib/server/timer.cpp:64-78 | a tick is one step of the plain map: the keys due are gone, the earliest first, 2001 at most |
| Runs.Play | lib/server/response.cpp:66-93 | over every sequence of requests and ticks that keeps sorted sets below 2^32 tuples, the store does what the plain map does, and appends one frame per request |
| Runs.RoomSuffices | lib/server/key_value.cpp:161-191 | that is so if each set has room for as many tuples as there are events |
| Runs.EffectRoom | lib/server/key_value.cpp:107-310 | a command adds at most one tuple to a set |
| Runs.LeadsRoom | lib/server/key_value.cpp:107-310 | so a run needs no more room than it has events |
| Runs.NeverTooEarly | lib/server/timer.cpp:64-78 | a key stays with its deadline until it is deleted, given another deadline, or ticked after it |
| Runs.NeverTooLate | lib/server/timer.cpp:64-78 | a tick leaves a key that is due only if it removed 2001 others, none due later |
| Runs.GoneInTime | lib/server/timer.cpp:64-78 | over any run that sets no deadlines up to d: a key due at d is left after q ticks past d only if more than 2001 * q keys were due by d, so however many keys expire at once, each goes in time |
| Runs.RepliesExact | lib/server/key_value.cpp:291-310 | over any run in which time does not go backwards, every reply has numbers that fit int64, and can be delivered |
| Wire.ConsumeEncode | lib/client/query.cpp:118-205 | print_response reads an encoded value with exactly its length, whatever follows |
| Wire.ConsumeTruncated | lib/client/query.cpp:118-205 | a value cut short is refused |
| Wire.AcceptsExactlyValues | lib/client/query.cpp:118-205 | an input is accepted without a wrapping length if and only if it starts with the encoding of a value, and the result is then its length |
| Wire.WrappedLength | lib/client/query.cpp:144-158 | a string whose length wraps in 32 bits is accepted with result 0, although it starts with no value |
| Wire.ShownIsWritten | lib/client/query.cpp:118-205 | print_response shows the value that was written, whatever follows it: the same tags, lengths, strings, numbers with their sign, and items |
| Wire.PrintResponse | lib/client/query.cpp:118-205 | the recursive reader with its 32-bit sums returns that length, and prints that value |
| Wire.LittleRoundTrip | lib/server/buffer.cpp:30-36 | fixed-size numbers are read back as written |
| Wire.U32Bytes | lib/server/buffer.cpp:24-32 | the low byte comes first, and what does not fit 32 bits is cut off |
| Wire.I64RoundTrip | lib/server/buffer.cpp:30-36 | an int64, negative or not, is read back as it was written |
| Buffers.BodyReadable | lib/server/response.cpp:100-114 | the body of a frame is at most 4096 bytes, is one value, and is read to its end; it is shown as the reply, or as the error that stands for it |
| Buffers.Buffer.OutEndArr | lib/server/buffer.cpp:75-84 | the patched count turns header and items into one encoded array |
| Buffers.Buffer.ResponseEnd | lib/server/response.cpp:104-114 | the length is patched in, a body too long is replaced by an error, earlier bytes stay |
| Request.ParseReq | lib/server/response.cpp:37-64 | the parse loop computes the parse of the bytes |
| Request.ParseIsInverse | lib/server/response.cpp:37-64 | a byte string parses to a list if and only if the list is within the limits and the string is its encoding |
| Request.SendReq | lib/client/query.cpp:58-79 | the bytes sent are length and encoding; too long a request is refused |
| Request.SentIsParsed | lib/client/query.cpp:58-79 | what a client sends is read back |
| Framing.FirstRequestIs | lib/server/conn.cpp:73-110 | a request c is taken from the front of the input if and only if it is within the limits and the input starts with its length and encoding, as the client sends them |
| Framing.BadIsHopeless | lib/server/conn.cpp:81-98 | the connection is given up only when no further bytes could complete a request |
| Framing.SplitIs | lib/server/conn.cpp:136-167 | any input is the frames of the commands that are executed, followed by the bytes that are kept |
| Framing.SplitSent | lib/server/conn.cpp:136-167 | of the frames of any commands, exactly these commands are executed, in order |
| Framing.SplitConcat | lib/server/conn.cpp:136-165 | reading b behind what a left over is reading a + b |
| Framing.ChunkIndependence | lib/server/conn.cpp:136-165 | the commands executed, the bytes appended and the closing are the same for every split of a stream into reads |
| Framing.TimedIndependence | lib/server/conn.cpp:136-165 | the same for commands whose replies depend on the time, if the n-th command gets the same time |
| Framing.SentIsExecuted | lib/client/query.cpp:58-79 | what clients send is executed, all of it, in order and nothing else, however it arrives |
| Connection.Conn.TryOneRequest | lib/server/conn.cpp:73-110 | waits, closes, or executes one command on the store and appends its frame, by the first bytes alone; what is left is the input without them |
| Connection.Conn.RunRequests | lib/server/conn.cpp:165-167 | the loop executes exactly the complete requests, as a run of the store's plain map, and appends the frames of their replies |
| Connection.Conn.Receive | lib/server/conn.cpp:161-167 | the bytes of one read are appended, and the requests they complete are executed, at most as many as fit; the connection is to be closed exactly if the stream cannot be read on |
| Connection.Conn.HandleWrite | lib/server/conn.cpp:112-133 | exactly as many bytes are sent as the socket takes, in order; the connection is to be closed only if the write fails; what it wants follows from the buffer |
| Connection.Conn.HandleRead | lib/server/conn.cpp:135-177 | the run of the store has the commands that the read completes; as many bytes of their replies are sent as the socket takes; the connection is to be closed exactly if the read failed or ended, the stream cannot be read on, or the write failed |
| Connection.Conn.BetweenEvents | lib/server/conn.cpp:169-177 | an open connection holds no complete request, and wants to write exactly if it has something to write, to read otherwise |
| Connection.Conn.InAndOut | lib/server/conn.cpp:73-177 | at any time the bytes received are the frames of the commands executed and the input still held, and the bytes sent and held are the frames of their replies, one for each |
| Client.ReadRes | lib/client/query.cpp:81-116 | a frame at the front of the stream is shown, and what follows it is left; success means a length within the limit that print_response has taken whole |
| Client.FrameIsRead | lib/client/query.cpp:81-116 | the frame of a reply is read as that reply, whatever follows |
| Client.RepliesAreRead | lib/client/query.cpp:81-116 | the bytes that a connection sends are read as exactly its replies, in order |
| List.DetachRing | inc/server/list.h:27-32 | with its neighbours linked to each other, the ring without the node is a ring |
| List.InsertRing | inc/server/list.h:34-40 | with a node linked in before another, the ring with the node is a ring |
| List.Detach | inc/server/list.h:27-32 | a ring without that node, the rest in order |
| List.InsertBefore | inc/server/list.h:34-40 | a ring with the node before the target, at the end if that is the head |
| List.Empty | inc/server/list.h:23-25 | whether the head is alone |
| Servers.Server.Accept | lib/server/conn.cpp:36-70 | the new connection is last in the idle list and in the table, if its descriptor is that of no open connection; from that the assert follows |
| Servers.Server.Destroy | lib/server/conn.cpp:179-184 | exactly that connection leaves the table and the list |
| Servers.Server.Touch | server.cpp:121-124 | the connection moves to the end; list, table and order by activity agree |
| Servers.Server.CloseIdle | lib/server/timer.cpp:50-62 | the loop that looks at the head only closes exactly the connections idle past the limit |
| Servers.Server.ProcessTimers | lib/server/timer.cpp:50-79 | both loops together, neither disturbing the other's state; the second one is a tick of the plain map |
| Servers.Server.NextTimerMs | lib/server/timer.cpp:27-47 | the distance to the earliest of all idle and TTL deadlines, 0 if passed, -1 if none; right if and only if the distance is below 2^31 and the deadline is not 2^64 - 1 |
| EventLoop.DistantDeadline | lib/server/timer.cpp:27-47 | a server with one key due 2^31 ms ahead gets a negative timeout |
| EventLoop.Turn | server.cpp:112-140 | a socket's turn renews the time of its last activity, reads its input, executes and answers the requests completed, sends what the socket takes, and closes the connection exactly for the causes in the code; no other connection is touched |
| EventLoop.Turns | server.cpp:112-140 | the loop over the sockets: what poll reported is still so in each socket's turn, so the readiness asserts hold; every connection has its own input, commands, replies and bytes sent, in the order polled |
| EventLoop.Round | server.cpp:70-144 | one iteration from what poll reported, a new connection included: the requests of the turns and the tick are one run of the plain map; exactly those connections stay that are neither to be closed nor idle, and one that has been served since poll returned is idle only if that was more than 5000 ms ago |
| EventLoop.Rounds | server.cpp:70-144 | any number of iterations, whatever poll, accept, read and write return: all parts stay right, and the run of the plain map goes on; they end early only in a state in which some set has no room for one more iteration |
| EventLoop.Live | server.cpp:66-144 | from the start on, for any number of iterations in the same sense: all that happens to the store is one run from the empty map, at times that do not decrease, and every reply can be delivered as it is |
| ThreadPool.WakeUpKept | lib/server/thread_pool.cpp:5-45 | no step loses a wake-up: while a worker is parked, each queued job has a woken worker or a signal coming |
| ThreadPool.ConservedKept | lib/server/thread_pool.cpp:14-20 | no step loses or doubles a job |
| ThreadPool.RunInv | lib/server/thread_pool.cpp:5-45 | the invariants hold at every point of every run |
| ThreadPool.PoolSafety | lib/server/thread_pool.cpp:5-45 | in every run: jobs leave in the order they came; pushed jobs are queued, held or finished, once each; never all workers parked with a job waiting |
| ThreadPool.NoDeadlock | lib/server/thread_pool.cpp:5-45 | while a job is queued some thread can go on, without new calls or spurious wake-ups |
| Handover.DestroyedOnce | lib/server/thread_pool.cpp:5-45 | at every point of every run of the pool, each entry handed over is waiting, being destroyed or destroyed, exactly once, and nothing else is |
| Handover.NoRace | lib/server/key_value.cpp:57-72 | two workers at work on destructors and the event loop have no object in common |
| Handover.LeftToPool | lib/server/key_value.cpp:57-72 | however long the event loop runs on, an entry that was handed over stays as it was then |
| Handover.EntryDelSync | lib/server/key_value.cpp:50-59 | the destructor frees each tuple of the sorted set that was handed over, once |
| Handover.RunJob | lib/server/key_value.cpp:57-59 | a worker's job disturbs neither the store nor its plain map, nor what else was handed over |

## Left out

- Servers.Server.NextTimerMs: the sum of a time and a period does not wrap in 64 bits.
- Wire.ConsumeEncode: values of 2^31 bytes and more, whose length the client returns as a negative number.
- Wire.AcceptsExactlyValues: inputs of 2^31 bytes and more, for the same reason.
- Avl.Offset: trees of 2^32 nodes and more, for which the counters are too small.
- Request.SendReq: requests whose total length wraps in 32 bits.
- KeyValue.DoRequest: stores with a sorted set of 2^32 tuples and more, whose tree counts nodes in 32 bits; `Runs.Play`, `EventLoop.Rounds` and `EventLoop.Live` stop short of them. `Runs.Fits`, which tells when, is not part of the server. A state has no room for one more iteration if the requests that its sockets can complete in it, 8704 for each place in the table, could bring some set to 2^32 tuples.
- Heap.TtlHeap.SetTtl: the sum of now and the time to live does not wrap in 64 bits.
- Scores are real numbers: infinities and the two zeros are not told apart by the model; the bytes of a double are a parameter.
- `strtod` and `strtoll` are parameters (`Commands.Numbers`); the results of `read`, `write`, `accept` and `poll` are any that are possible, and the clock is any that does not go backwards. A poll that is interrupted starts the next round and changes nothing.
- Names and keys of 2^32 bytes and more cannot arrive, since requests are limited to 4096 bytes.
- `container_of` is the identity or a constant field `owner`; `hcode & mask` is a remainder, by SlotOfIsAnd; deallocation is leaving the structure.
- The constant empty sorted set that stands for a missing key is a new empty set each time.
- `cb_keys` is applied to the list of nodes that hm_foreach meets, in that order, after it has met them.
- Socket set-up, logging, the client's and the server's `main`, and the loops of `read_full` and `write_all` around partial reads and writes.
