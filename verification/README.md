# A verified model of the Redis core

This project models, in Dafny, the hard parts of a small Redis: its radix tree (`rax.c`), the input and
output sides of a client (`networking.c`), string quoting (`sds.c`), the event loop (`ae.c` and three
kernel interfaces), cluster rebalancing and the hot-key pool of the command line client (`redis-cli.c`),
CONFIG REWRITE (`config.c`) and the linked list underneath (`adlist.c`). Each model is proved, for all
inputs and all runs, to do what the code is for.

`dafny verify dfyconfig.toml` checks everything.

## How it is organised

| files | what they model |
|---|---|
| `Basics` | bytes, C strings, options, and two facts about collections |
| `RaxTree`, `RaxMemory`, `RaxEdits`, `RaxRemoval`, `RaxObject` | the radix tree: shapes and their meaning, nodes in memory, edits, and the object |
| `RaxOrder`, `RaxIteration` | lexicographic order and the iterator |
| `RaxLayout` | the packed bytes of a node |
| `SdsQuoting`, `SdsGrammar` | printing and splitting quoted strings, and what every spelling of a line is split into |
| `RespWire`, `RespParser`, `RespClient` | the RESP encoding, the incremental parser, and the query side of a client |
| `ReplyBuffer`, `PendingWrites`, `ThreadedWrites`, `ThreadedRounds` | the reply side: buffers, who writes them, the I/O threads, and that their rounds end |
| `FileEvents`, `Timers` | the event loop |
| `ClusterRebalance`, `HotKeys` | redis-cli |
| `ConfigRewrite` | CONFIG REWRITE |
| `Adlist` | the doubly linked list |

**Radix tree.** Memory is an explicit map from addresses to node records, so allocation, release, links
and the node count are visible. A ghost tree says what the records stand for. Edits are made at a focus, a
subtree together with the path above it; lemmas show that every structural edit keeps the value of every
key, and only writing a key's own slot changes it. The object's invariant makes the memory hold exactly the
nodes of the tree, so nothing leaks, nothing is freed twice, and `numnodes` is the number of nodes.

**Clients.** The parser is a function from parser state to parser state that ignores where the unread bytes
sit. The client's methods, with the buffer trimming and the takeover of a big argument, are proved to
compute that function, so both paths give the same result; and the function is proved to follow any
encoded stream however it is cut. What callers queue for a client is recorded as symbols, a byte or a hole
for a length that comes later; what was sent followed by what is pending is always exactly that record.
The threaded batch is a state machine whose actions are single steps of the threads, each with at most one
access to something shared.

## What turned out to need a condition

- `raxRemove` measures a chain of nodes with a size limit and collects it without one. The two scans agree
  exactly when the chain is within the limit (`ScansAgree`), which holds when every key is; `ScansDisagree`
  gives a tree on which they do not.
- `raxSeek` leaves the iterator's `data` as it was exactly when the operator is `<` or `<=` and the element
  ends inside the string of a compressed node that is a key (`Seek`, its ghost result `stale`, and
  `EndsInsideKey`; `StaleExample` gives such an element).
- An inline request is accepted however it arrives exactly when its line is not longer than the limit
  (`AnyCutIff`). A longer one is refused exactly when some chunk of it ends after the limit and before the
  newline (`ArriveExact`).
- A hot key is stored up to its first NUL, so it is the sampled key exactly when that has none (`Replace`;
  `NamesNoKey` gives a sample after which the pool names a key that was never sampled).
- A line of the old configuration file that is all blank, with a blank that is not trimmed, is split into no
  arguments, of which the program then reads the first; `UnreadableIff` says exactly which lines these are,
  and `Unreadable` gives one.
- Quoting round-trips for every list exactly when NUL does not count as printable (`RoundTripIff`).
- A string in single quotes, its own quotes escaped, reads back exactly when it has no NUL and does not end in
  a backslash (`SingleIff`).
- A round of threaded writes ends in every run in which all threads act again and again (`RoundEnds`), except
  exactly while the main thread is stopping the I/O threads: a mutex need not be fair, and it can be kept from
  one for any time (`MutexStarves`; `SomeStop` gives a run that gets there). From every state the round can end
  (`RoundCanEnd`).
- A reshard table from one source has all the slots asked for (`SingleSource`). From several, all quotas but
  the first are rounded down; with right counts it is full exactly when there are enough slots and what the
  divisions leave over is not more than the first rounding adds (`FullTable`). `ShortTable` is a family of
  tables that are short.
- The poll never sleeps past a deadline when the milliseconds of every timer are between -1 and 999, and
  exactly the timers below that can be hidden from the search for the nearest by a normal one (`HiddenIff`).
  A call makes such a timer exactly when its delay is negative and borrows more than one millisecond
  (`OversleptIff`); `Overslept` gives two calls that do.
- After the rounding loop the balances sum to zero exactly when the rounded shares of all masters fit into the
  slots there are (`BalancedSum`, `RoundBalances`). They do for weights that are not negative
  (`NoNegativeFits`); negative ones round the other way (`NegativeWeights`). When they fit, a real run fails
  exactly if some share is negative (`NegativeShare` is an example). When they do not, the last receiver in
  the sorted order ends short by exactly the excess, and a real run fails exactly if its share is less than
  the excess or some share is negative (`Rebalance`).
- In a round with few clients the main thread skips protected ones; in a threaded round they are written to
  like any other (`EachWrittenOnce`).
- Registering an empty mask where nothing is registered breaks `maxfd` if the descriptor is above it, and leaves
  epoll knowing a descriptor without a registration; `CreateFileEvent` states exactly when all is well.
- Moving one client's output to another that is already closing drops the fixed buffer but takes the list
  (`AddReplyFromClient`).

## Model

| member | source | states |
|---|---|---|
| `RaxTree.LookupPlug` | src/redis-ae/rax.c:457-498 | walking down a path and then looking up the rest of a key in the subtree is looking up the whole key in the tree |
| `RaxTree.SwapSubtree` | src/redis-ae/rax.c:727-780 | the exact effect on every key of replacing one subtree: keys through it change with it, no others |
| `RaxTree.SetSlotMeaning` | src/redis-ae/rax.c:224-234 | writing a node's value changes the key of that node and no other |
| `RaxTree.LiveHasKey` | src/redis-ae/rax.c:1045-1080 | a well-formed subtree that is not an empty leaf holds a key, so no branch without keys survives |
| `RaxTree.SplitKeepsMeaning` | src/redis-ae/rax.c:675-780 | cutting a compressed node around a differing byte (cases 1 to 4) keeps the value of every key |
| `RaxTree.CutAtKeyMeaning` | src/redis-ae/rax.c:781-842 | cutting a compressed node where a key ends (case 5) gives that key its value and keeps all others |
| `RaxTree.AddLeafKeepsMeaning` | src/redis-ae/rax.c:254-385 | adding an edge to an empty leaf at the sorted position keeps the shape and every key |
| `RaxTree.CompressKeepsMeaning` | src/redis-ae/rax.c:395-426 | turning a childless node into a compressed one above an empty leaf keeps every key |
| `RaxTree.RemoveBarrenChild` | src/redis-ae/rax.c:947-1016 | unlinking a child that holds no key keeps the shape and every other key |
| `RaxTree.MergeKeepsMeaning` | src/redis-ae/rax.c:1134-1214 | merging a chain of single-edge nodes into one compressed node keeps every key and the well-formedness |
| `RaxTree.ChainInsideKey` | src/redis-ae/rax.c:1143-1164 | a chain that can be merged lies on the path of some key and is not longer than it |
| `RaxMemory.Graft` | src/redis-ae/rax.c:739-780 | writing the parent link after building a replacement leaves memory holding exactly the tree with that subtree replaced |
| `RaxMemory.FocusToRoot` | src/redis-ae/rax.c:457-498 | a node in focus with its path is the same memory as the whole tree at the head |
| `RaxEdits.AllocSplit` | src/redis-ae/rax.c:675-780 | the allocations of a split: up to three new distinct nodes with the right contents, the old one freed, everything else untouched, and the node count |
| `RaxEdits.AllocCut` | src/redis-ae/rax.c:781-842 | the two nodes that replace a node cut where a key ends, and the node count |
| `RaxEdits.AllocAddChild` | src/redis-ae/rax.c:254-385 | the new child and the moved parent record of an added edge |
| `RaxEdits.AllocCompress` | src/redis-ae/rax.c:395-426 | the new child and the moved record of a node that becomes compressed |
| `RaxEdits.StoreData` | src/redis-ae/rax.c:217-234 | storing a value moves the node only when room is needed, and keeps its edges and children |
| `RaxRemoval.FindLink` | src/redis-ae/rax.c:932-941 | the link found by searching the parent is the one on the path to the node, or the head |
| `RaxRemoval.ShrinkNode` | src/redis-ae/rax.c:947-1016 | the record without child `k` and its edge, in place or moved, everything else untouched |
| `RaxRemoval.MeasureChain` | src/redis-ae/rax.c:1153-1164 | the first scan: bytes of the chain up to the size limit, and its number of nodes when within it |
| `RaxRemoval.CollectChain` | src/redis-ae/rax.c:1185-1195 | the second scan: all bytes of the chain, the node after it, and exactly the chain's nodes freed |
| `RaxRemoval.ScansAgree` | src/redis-ae/rax.c:1153-1195 | what the second scan writes fits what the first one measured if and only if the chain is within RAX_NODE_MAX_SIZE |
| `RaxRemoval.ScansDisagree` | src/redis-ae/rax.c:1153-1195 | a well-formed tree whose chain is over the limit, so that the second scan writes more than was measured |
| `RaxRemoval.RecursiveFree` | src/redis-ae/rax.c:1221-1236 | exactly the nodes of the tree are freed, each once, and counted |
| `RaxObject.Rax.constructor` | src/redis-ae/rax.c:201-213 | an empty map on one node |
| `RaxObject.MatchEdges` | src/redis-ae/rax.c:467-471 | how many bytes of a compressed node agree with the key, and that the next differs |
| `RaxObject.ScanEdges` | src/redis-ae/rax.c:472-481 | the edge for a byte, or the number of edges when there is none |
| `RaxObject.Rax.LowWalk` | src/redis-ae/rax.c:457-498 | stops at the deepest node on the path of the key, with the position, parent link and stack of that path |
| `RaxObject.StopMeaning` | src/redis-ae/rax.c:457-498 | the key is the one of the stop node if the walk used it all up at the start of that node, and otherwise has no value |
| `RaxObject.Rax.Find` | src/redis-ae/rax.c:916-925 | the value the plain map has for the key, or not found |
| `RaxObject.Rax.SplitCompressed` | src/redis-ae/rax.c:675-780 | leaves a valid tree with the same contents whose focus is the plain node at the differing byte |
| `RaxObject.Rax.CutAtKey` | src/redis-ae/rax.c:781-842 | the contents gain exactly the key that ends inside the node |
| `RaxObject.Rax.SetKey` | src/redis-ae/rax.c:875-881 | the contents gain or change exactly the key of the node in focus |
| `RaxObject.Rax.GrowCompressed` | src/redis-ae/rax.c:852-864 | the path grows by a chunk of the key, contents unchanged |
| `RaxObject.Rax.GrowEdge` | src/redis-ae/rax.c:864-873 | the path grows by one byte, contents unchanged |
| `RaxObject.Rax.Insert` | src/redis-ae/rax.c:507-898 | true exactly for a new key; the old value is returned; the contents change at that key only, and not at all for a present key without overwrite; counters and memory stay exact |
| `RaxObject.Rax.ClearKey` | src/redis-ae/rax.c:1033-1034 | the contents lose exactly the key in focus |
| `RaxObject.Rax.FreeBranch` | src/redis-ae/rax.c:1045-1060 | frees the branch that only led to the removed key, up to the first node that is a key or branches |
| `RaxObject.Rax.Unlink` | src/redis-ae/rax.c:1061-1080 | the dead child is unlinked and the parent link rewritten: a valid tree with the same contents |
| `RaxObject.Rax.Recompress` | src/redis-ae/rax.c:1134-1214 | merging around the node keeps the contents and leaves a valid tree; the whole chain of single-edge nodes without keys above and below the node becomes one node, by the count of nodes |
| `RaxObject.Rax.Remove` | src/redis-ae/rax.c:1020-1217 | true exactly for a present key; its value is returned; the contents lose exactly that key; the tree stays well formed and its counters exact |
| `RaxObject.Rax.Release` | src/redis-ae/rax.c:1240-1244 | all memory is freed and the node counter is zero, as the assertion there demands |
| `RaxObject.Run` | src/redis-ae/rax.c:902-925 | any sequence of raxInsert, raxTryInsert and raxRemove from raxNew agrees with a plain map |
| `RaxOrder.SeekCompressed` | src/redis-ae/rax.c:1620-1650 | a mismatch inside a compressed node puts its whole subtree on one side of the element |
| `RaxOrder.SeekPlain` | src/redis-ae/rax.c:1605-1619 | a mismatch at a plain node splits its edges around the missing byte |
| `RaxOrder.SeekNoMismatch` | src/redis-ae/rax.c:1651-1680 | an element that ends at or inside a node splits the keys at that node |
| `RaxOrder.LessTotal` | src/redis-ae/rax.c:1311-1407 | the order of keys is total |
| `RaxOrder.LessTransitive` | src/redis-ae/rax.c:1311-1407 | the order of keys is transitive |
| `RaxIteration.RaxIterator.NextStep` | src/redis-ae/rax.c:1311-1407 | moves to the least key above the bound, or reports that there is none; then setting back the lengths of key and stack restores the position, because nothing was written over |
| `RaxIteration.RaxIterator.SeekGreatest` | src/redis-ae/rax.c:1412-1426 | moves to the greatest key of the subtree |
| `RaxIteration.RaxIterator.PrevStep` | src/redis-ae/rax.c:1431-1502 | moves to the greatest key below the bound, or reports that there is none; then setting back the lengths of key and stack restores the position, because nothing was written over |
| `RaxIteration.RaxIterator.RebuildKey` | src/redis-ae/rax.c:1575-1600 | the iterator's key is rebuilt from the stack as the path of its node |
| `RaxIteration.RaxIterator.SeekAbove` | src/redis-ae/rax.c:1601-1681 | `>`: the least key above the element, or end of iteration exactly when there is none |
| `RaxIteration.RaxIterator.SeekBelow` | src/redis-ae/rax.c:1601-1681 | `<`: the greatest key below the element, or end exactly when there is none; `data` is stale exactly when the walk ended inside the string of a key's node |
| `RaxIteration.RaxIterator.SeekElement` | src/redis-ae/rax.c:1558-1688 | `>`, `>=`, `<`, `<=` and `=` find the element's successor, predecessor or itself; the exact condition on the tree and the element under which `data` is stale |
| `RaxIteration.StopInside` | src/redis-ae/rax.c:1558-1575 | where the walk stops tells whether the element ends inside the string of a key's node, a property of the whole tree |
| `RaxIteration.StaleExample` | src/redis-ae/rax.c:1663-1675 | a tree with the keys `f` and `foobar`: `<` with `foo` leaves `data` stale |
| `RaxIteration.RaxIterator.SeekLast` | src/redis-ae/rax.c:1548-1556 | `$` finds the greatest key |
| `RaxIteration.RaxIterator.Seek` | src/redis-ae/rax.c:1508-1688 | by the bytes of the operator: `>` and `<` find the next key on that side, `>=`, `<=` and `=` the element itself when it is a key, `^` and `$` the least and the greatest; end of iteration exactly when there is none; false exactly when the operator does not begin with one of the five bytes; `data` is the key's value unless the operator begins with `<` and the element ends inside the string of a key's node, and then it is what it was |
| `RaxIteration.RaxIterator.Next` | src/redis-ae/rax.c:1693-1703 | the first call after a seek keeps the key; then each call moves to the next greater key or ends exactly when there is none |
| `RaxIteration.RaxIterator.Prev` | src/redis-ae/rax.c:1708-1718 | likewise towards smaller keys |
| `RaxIteration.RaxIterator.Drain` | src/redis-ae/rax.c:1693-1718 | stepping until the end yields the key found and every key beyond it, in strict order, each once |
| `RaxLayout.ShiftFacts` | src/redis-ae/rax.c:321-332 | how far the child pointers move when an edge is added is the change of the padded length |
| `RaxLayout.RemoveShift` | src/redis-ae/rax.c:988-994 | the test used when removing computes the same quantity |
| `RaxLayout.PacksUnique` | src/redis-ae/rax.c:155-180 | a packed node has one reading as edges, children and value |
| `RaxLayout.AddChild` | src/redis-ae/rax.c:254-385 | for pointers of 4 or 8 bytes, the moves and writes on the packed bytes decode to sorted insertion of edge and child, the value kept |
| `RaxLayout.RemoveChild` | src/redis-ae/rax.c:966-1016 | for pointers of 4 or 8 bytes, the moves on the packed bytes decode to deletion of the edge and child, the value kept |
| `SdsQuoting.CatRepr` | src/redis-ae/sds.c:880-903 | appends the quoted form |
| `SdsQuoting.ReprPlain` | src/redis-ae/sds.c:895-897 | printable bytes that need no escape are printed as they are |
| `SdsQuoting.ReprHex` | src/redis-ae/sds.c:885-900 | exactly the bytes that are neither printable nor have an escape of their own are printed as two hexadecimal digits |
| `SdsQuoting.ReadToken` | src/redis-ae/sds.c:966-1048 | the cursor loop reads the token the function `Token` does, stays inside the line, and advances |
| `SdsQuoting.SplitArgs` | src/redis-ae/sds.c:955-1063 | the cursor loop splits the line as the function `Split` does, errors included, and ends on every input |
| `SdsQuoting.NoArguments` | src/redis-ae/sds.c:960-965 | a line is split into no arguments if and only if it is all blank |
| `SdsQuoting.RoundTrip` | src/redis-ae/sds.c:955-1063 | splitting the quoted forms of any list of byte strings gives the list back |
| `SdsQuoting.RoundTripIff` | src/redis-ae/sds.c:880-903 | that holds for every list if and only if `isprint` rejects NUL |
| `SdsGrammar.SplitLine` | src/redis-ae/sds.c:955-1054 | a line is split into its words however they are spelled, bare or in single or double quotes, with every escaped letter and hexadecimal pair, and however they are spaced |
| `SdsGrammar.SplitWords` | src/redis-ae/sds.c:1022-1041 | words without blanks, quotes or NUL, joined by spaces, are split into themselves |
| `SdsGrammar.SingleIff` | src/redis-ae/sds.c:1007-1021 | a string in single quotes with its own quotes escaped reads back if and only if it has no NUL and does not end in a backslash |
| `SdsGrammar.Unbalanced` | src/redis-ae/sds.c:972-1006 | a double quote that is never closed, or whose closing quote is followed by something other than a blank, makes the line an error |
| `RespWire.ParseDec` | src/redis-ae/networking.c:1436-1441 | a decimal length reads back as the number it was printed from |
| `RespWire.ParseLLIff` | src/redis-ae/networking.c:1436-1441 | a text is read as a number if and only if it is the decimal form of that number and it has 64 bits |
| `RespWire.ReadLineFull` | src/redis-ae/networking.c:1420-1443 | a whole header line is read as its number and length, whatever follows |
| `RespWire.ReadLinePart` | src/redis-ae/networking.c:1420-1431 | a header line that has not arrived in full asks for more, and is never an error |
| `RespParser.ParseConsumes` | src/redis-ae/networking.c:1410-1543 | a parse only drops bytes from the front, and drops some when it completes a command |
| `RespParser.CountExact` | src/redis-ae/networking.c:1410-1450 | a whole count line is taken if and only if it is a number not over the limit, with no arguments to read when that is not positive; any other closes the client |
| `RespParser.BulkLenExact` | src/redis-ae/networking.c:1454-1490 | a whole length line is taken if and only if it is `$` and a number from 0 to the limit; any other closes the client |
| `RespParser.HeaderPart` | src/redis-ae/networking.c:1420-1431 | a header line without its CR is waited for, and closes the client exactly when it is longer than the limit |
| `RespParser.ReadArgsFollows` | src/redis-ae/networking.c:1453-1536 | the argument loop takes exactly the encoded arguments, or stops because bytes are missing |
| `RespParser.ParseFollows` | src/redis-ae/networking.c:1410-1543 | on any cut of an encoded stream a parse yields exactly the next command, or stops short of it and can go on |
| `RespParser.InlineFollows` | src/redis-ae/networking.c:1308-1365 | on any cut of a stream a parse of an inline line within the limit yields exactly its arguments, or stops short of it and can go on |
| `RespParser.InlineWords` | src/redis-ae/networking.c:1326-1365 | a line of plain words, with or without a CR, is a request of those words |
| `RespParser.ArriveExact` | src/redis-ae/networking.c:1314-1325 | however a line arrives, it is refused if and only if a chunk ends between the limit and its newline, and otherwise comes to the same request or error |
| `RespParser.AnyCutIff` | src/redis-ae/networking.c:1314-1325 | a line comes to the same however it is cut if and only if it is not longer than the limit; some cut of it is refused if and only if it is |
| `RespClient.Client.constructor` | src/redis-ae/networking.c:1250-1256 | a client between commands that follows every stream |
| `RespClient.Client.BulkLen` | src/redis-ae/networking.c:1454-1508 | the length line, with the buffer trimmed for a big argument, computes the parser's step |
| `RespClient.Client.Bulk` | src/redis-ae/networking.c:1510-1535 | taking over the whole buffer and copying the argument compute the same step |
| `RespClient.Client.ProcessMultibulkBuffer` | src/redis-ae/networking.c:1410-1543 | with both paths, computes the parser function, and the assertions there hold |
| `RespClient.Client.ProcessInlineBuffer` | src/redis-ae/networking.c:1308-1365 | computes the parser function for lines, with the buffer as it is |
| `RespClient.Client.ParseOne` | src/redis-ae/networking.c:1611-1637 | the protocol is chosen by the first byte, and one request of it is parsed |
| `RespClient.Client.ProcessCommandAndReset` | src/redis-ae/networking.c:1554-1580 | the command is run, once, and the parser reset; the client is blocked or closed exactly as the command's effect says; a master's offset moves to the end of the command unless it failed or a transaction is open |
| `RespClient.Client.RunOne` | src/redis-ae/networking.c:1585-1659 | one round keeps the client in step with the commands sent, or finds that the next has not arrived in full |
| `RespClient.Client.ProcessInputBuffer` | src/redis-ae/networking.c:1585-1666 | the loop runs every command that has arrived, and stops early exactly when the client is paused, or after a command that blocks or closes it |
| `RespClient.Client.ProcessInputBufferAndReplicate` | src/redis-ae/networking.c:1672-1691 | sub-replicas have been sent exactly the first `reploff` bytes of the stream, and the rest is pending, for any stream |
| `RespClient.Client.ReadQuery` | src/redis-ae/networking.c:1728-1767 | bytes read join the stream, and both invariants go on holding; exactly a query buffer over the limit closes the client at once with nothing run; otherwise it is closed or blocked only by a command that was run, the last |
| `RespClient.Client.ReadFails` | src/redis-ae/networking.c:1729-1740 | a failed read, or the end of the stream, closes the client and changes nothing else |
| `RespClient.Client.Unblock` | src/redis-ae/networking.c:1585-1594 | resuming a blocked client runs what had piled up |
| `RespClient.Serve` | src/redis-ae/networking.c:1585-1765 | for any commands, as arrays or as inline lines within the limit, any fragmentation, pauses, blocking, failed reads and closing: the commands run are a prefix of those sent, in order; all of them if no read fails, the input is within the limit, no command blocks or closes the client and it is not paused in the end; the client is blocked or closed only for one of these reasons; what a master's client forwarded is the encoding of the commands up to the last that neither failed nor left a transaction open |
| `ReplyBuffer.Client.constructor` | src/redis-ae/networking.c:215-230 | nothing queued, nothing sent |
| `ReplyBuffer.Client.AddReplyToBuffer` | src/redis-ae/networking.c:215-230 | accepted exactly when closing, or when the list is empty and there is room; an accepted reply is queued at the end |
| `ReplyBuffer.Client.AddReplyProtoToList` | src/redis-ae/networking.c:232-266 | the reply is queued at the end, across the tail block and a new one, and the list's size stays right |
| `ReplyBuffer.Client.AddReply` | src/redis-ae/networking.c:314-319 | a reply is queued whole unless the client is closing |
| `ReplyBuffer.Client.AddReplyDeferredLen` | src/redis-ae/networking.c:396-403 | a new hole is queued |
| `ReplyBuffer.Client.SetDeferredAggregateLen` | src/redis-ae/networking.c:406-445 | the hole is filled in its place in what was queued, whether in its own node or glued to the next block |
| `ReplyBuffer.Client.AddReplyFromClient` | src/redis-ae/networking.c:722-731 | everything pending on the source is queued, in order, and the source is empty; nothing changes when the target refuses; what is lost when the target is closing |
| `ReplyBuffer.Client.WriteToClient` | src/redis-ae/networking.c:1100-1191 | for a socket that takes any number of bytes of each write or fails: what was sent grows by exactly what the writes took, followed by what is pending it is what was queued; output is left only if the last write was refused or the limit of a call was passed; a socket that takes all gets everything, in no more writes than there are chunks; the client is given up exactly on a failed write, or when drained and to be closed; the assertion on `reply_bytes` holds |
| `ReplyBuffer.HoleFills` | src/redis-ae/networking.c:406-445 | filling a placeholder in the list and in the history come to the same |
| `ReplyBuffer.HeadSends` | src/redis-ae/networking.c:1119-1143 | sending from the head block keeps the conservation law and the size of the list, zero when the list empties |
| `PendingWrites.Server.InstallWriteHandler` | src/redis-ae/networking.c:147-164 | the client is flagged and queued once, unless it is a replica that cannot receive yet |
| `PendingWrites.Server.PrepareClientToWrite` | src/redis-ae/networking.c:188-209 | true exactly for clients that accept replies, and then somebody will write them |
| `PendingWrites.Server.AddReply` | src/redis-ae/networking.c:314-319 | output grows for a client that accepts it, and no reply is stranded |
| `PendingWrites.Client.WriteTo` | src/redis-ae/networking.c:1100-1191 | a write leaves what the socket does not take, removes the handler exactly when it drained the output, and gives the client up exactly on failure or when drained and to be closed |
| `PendingWrites.Server.SendReplyToClient` | src/redis-ae/networking.c:1197-1201 | likewise for the write handler, which strands no reply |
| `PendingWrites.Server.HandleClientsWithPendingWrites` | src/redis-ae/networking.c:1207-1247 | the queue ends empty, and every client still owed output has a handler, is closing or is protected; a queued client that is not protected has been written to, and is given up exactly if its write failed, no handler could be registered, or it was to be closed when drained; no other client changes |
| `PendingWrites.Server.HandleClientsWithPendingWritesUsingThreads` | src/redis-ae/networking.c:2684-2746 | the same for the threaded batch, which writes to protected clients too |
| `PendingWrites.Server.ProtectClient` | src/redis-ae/networking.c:1286-1290 | handlers are removed, and no reply is stranded |
| `PendingWrites.Server.UnprotectClient` | src/redis-ae/networking.c:1293-1299 | output queued meanwhile is scheduled again |
| `ThreadedWrites.StepKeeps` | src/redis-ae/networking.c:2565-2746 | every action of every thread keeps the invariant that ties lists, counts, mutexes and positions together |
| `ThreadedWrites.Safety` | src/redis-ae/networking.c:2565-2659 | in every reachable state: no assertion failed; a thread works only with its count set and while the main thread keeps away from its list and clients; the count is zero whenever the main thread uses them; when the wait is over every list is empty; stopped threads are idle with empty lists; and nobody waits for somebody who waits |
| `ThreadedWrites.Progress` | src/redis-ae/networking.c:2565-2607 | a thread whose count is not zero can always act, and each action brings the count nearer to zero |
| `ThreadedWrites.EachWrittenOnce` | src/redis-ae/networking.c:2684-2746 | when a round is over: with fewer than `2n` clients each was written to exactly once by the main thread, or not at all if protected; with more, client `k` exactly once by thread `k % n` and by nobody else |
| `ThreadedWrites.ShareCounts` | src/redis-ae/networking.c:2699-2710 | a client of the queue is in the share of exactly one thread, once |
| `ThreadedRounds.RoundCanEnd` | src/redis-ae/networking.c:2684-2746 | from every reachable state in a round some run of the main thread and the I/O threads ends it, with the queue empty |
| `ThreadedRounds.WaitingTakes` | src/redis-ae/networking.c:2720-2745 | with all counts zero, a sum begun afresh ends the round in one action of the main thread for each thread it has to look at, one for each client, and two more |
| `ThreadedRounds.RoundEnds` | src/redis-ae/networking.c:2684-2746 | unless the main thread is stopping the I/O threads, the round ends in every interleaving, after at most `3q + 4n + 11` stretches in which every thread acts, for `n` threads and `q` clients |
| `ThreadedRounds.MutexStarves` | src/redis-ae/networking.c:2647-2659 | while the main thread is to take a mutex to stop a thread, for any number of stretches in which every thread acts there is a run in which it does not get it |
| `ThreadedRounds.SomeStop` | src/redis-ae/networking.c:2670-2692 | such a state is reached: after four clients on two threads, a single client |
| `FileEvents.EventLoop.constructor` | src/redis-ae/ae.c:63-95 | nothing registered, `maxfd` is -1 |
| `FileEvents.EventLoop.ApiAddEvent` | src/redis-ae/ae_epoll.c:73-88 | epoll, kqueue and select end with the merged interest for the descriptor; epoll adds only unknown descriptors and modifies only known ones |
| `FileEvents.EventLoop.ApiDelEvent` | src/redis-ae/ae_epoll.c:90-106 | they end with what is left; epoll forgets the descriptor exactly when nothing is |
| `FileEvents.ChangedAgrees` | src/redis-ae/ae_kqueue.c:75-102 | a changed registration and the changed kernel state agree again, on every descriptor |
| `FileEvents.CreateMaxIff` | src/redis-ae/ae.c:153-160 | `maxfd` after registering is exact if and only if something is registered or the descriptor was not above it |
| `FileEvents.CreateAgreesIff` | src/redis-ae/ae_epoll.c:73-88 | after registering, the kernel agrees if and only if something is registered or it is not epoll |
| `FileEvents.EventLoop.CreateFileEvent` | src/redis-ae/ae.c:143-162 | refused exactly beyond the set size; the registration gains the mask and handlers; kernel and `maxfd` agree if and only if something is registered then, or the descriptor is not above `maxfd` and the kernel interface is not epoll |
| `FileEvents.EventLoop.DeleteFileEvent` | src/redis-ae/ae.c:164-187 | the registration loses the mask, the barrier with the writable event; kernel and `maxfd` agree |
| `FileEvents.EventLoop.ResizeSetSize` | src/redis-ae/ae.c:109-130 | succeeds exactly when every registered descriptor fits; all registrations kept, whatever the new memory held |
| `FileEvents.EventLoop.Dispatch` | src/redis-ae/ae.c:425-469 | each event of a fired descriptor is handled at most once, reading first, and with a barrier writing never after reading; unless a handler touched the descriptor, exactly the events that fired and are registered are handled, a handler registered for both once |
| `Timers.AddedTime` | src/redis-ae/ae.c:205-218 | the deadline is the delay from now; exactly when its milliseconds are normal, and exactly when they are not below -1 |
| `Timers.SearchNearestTimer` | src/redis-ae/ae.c:265-278 | a timer that no other is earlier than |
| `Timers.DueIff` | src/redis-ae/ae.c:335-336 | a timer with normal milliseconds is due if and only if its deadline, in milliseconds, is not after now |
| `Timers.EarlierIff` | src/redis-ae/ae.c:270-273 | of timers with normal milliseconds the search prefers exactly the one with the earlier deadline |
| `Timers.SleepTime` | src/redis-ae/ae.c:384-403 | the sleep is the time to the timer the search finds; when no timer is below -1 ms it is not longer than to any deadline |
| `Timers.HiddenIff` | src/redis-ae/ae.c:265-278 | a timer can be hidden from the search by a normal one with a later deadline if and only if its milliseconds are below -1 |
| `Timers.OversleptIff` | src/redis-ae/ae.c:205-218 | the timer a call makes can be hidden if and only if the delay is negative and borrows more than one millisecond |
| `Timers.Overslept` | src/redis-ae/ae.c:265-278 | a delay of -2 at a full second beside one of 999 from the second before: the search prefers the later deadline |
| `Timers.EventLoop.CreateTimeEvent` | src/redis-ae/ae.c:220-239 | the new timer is at the head with the next id and its deadline |
| `Timers.EventLoop.DeleteTimeEvent` | src/redis-ae/ae.c:241-253 | true exactly for an id in the list; that timer is marked and no other |
| `Timers.EventLoop.ForceAll` | src/redis-ae/ae.c:294-300 | after the clock went back every timer is due, at any time after the epoch |
| `Timers.EventLoop.Fire` | src/redis-ae/ae.c:339-346 | a timer fires once and has the deadline its callback asked for, from the time it returned, or is deleted, whatever else its callback creates and deletes |
| `Timers.EventLoop.Unlink` | src/redis-ae/ae.c:310-323 | a deleted timer is unlinked and finalized |
| `Timers.EventLoop.Visit` | src/redis-ae/ae.c:305-348 | a deleted timer is unlinked; another fires exactly when it is due |
| `Timers.EventLoop.ProcessTimeEvents` | src/redis-ae/ae.c:280-351 | a pass fires, from the newest to the oldest, exactly the timers of its start that are due at their turn and have not been deleted, each once; each is rescheduled or deleted as its callback returned; every timer deleted before is unlinked; the history never has a timer firing after its deletion, nor unlinked twice |
| `ClusterRebalance.SomeoneMayReceive` | src/redis-ae/redis-cli.c:5786-5792 | with every slot owned, some master has no more slots than it should, for weights of any sign; so the rounding loop ends |
| `ClusterRebalance.ExpectedIff` | src/redis-ae/redis-cli.c:5789-5791 | a master's share is to all slots as its weight to the total, and what it should have is the integer next to it towards zero |
| `ClusterRebalance.WithinIff` | src/redis-ae/redis-cli.c:5797-5804 | a master is within the threshold if and only if there is none, or it is off by at most that percentage of the slots it has, or has none and should have at most one |
| `ClusterRebalance.BalancedSum` | src/redis-ae/redis-cli.c:5786-5825 | the balances sum to what the rounded shares leave, so after the rounding loop to zero if and only if the shares fit |
| `ClusterRebalance.NoNegativeFits` | src/redis-ae/redis-cli.c:5789-5792 | the rounded shares of weights that are not negative fit into the slots and are not negative |
| `ClusterRebalance.NegativeWeights` | src/redis-ae/redis-cli.c:5789-5792 | with negative weights the rounded shares can add up to more than all slots |
| `ClusterRebalance.NegativeShare` | src/redis-ae/redis-cli.c:5789-5792 | the shares can fit although one of them is negative |
| `ClusterRebalance.ComputeBalances` | src/redis-ae/redis-cli.c:5779-5806 | each master's balance, their sum, and whether some master is over the threshold |
| `ClusterRebalance.RoundBalances` | src/redis-ae/redis-cli.c:5813-5825 | the rounding loop ends; a positive sum becomes zero and any other stays; only receivers changed |
| `ClusterRebalance.TakeSlots` | src/redis-ae/redis-cli.c:4921-4930 | the lowest slots of a bitmap, as many as allowed |
| `ClusterRebalance.ComputeReshardTable` | src/redis-ae/redis-cli.c:4901-4934 | distinct slots that their sources own; the size is what was asked for or what all sources offer, whichever is less, a source offering its quota or all it has |
| `ClusterRebalance.QuotaSum` | src/redis-ae/redis-cli.c:4915-4920 | all quotas together are what was asked for, less all remainders, plus the first rounding |
| `ClusterRebalance.FullTable` | src/redis-ae/redis-cli.c:4913-4930 | with right counts the table has all the slots asked for if and only if there are that many and the remainders of all the divisions are not more than the rounding up of the first quota adds |
| `ClusterRebalance.SingleSource` | src/redis-ae/redis-cli.c:4901-4934 | from one source the table has all the slots asked for if the source has them |
| `ClusterRebalance.ShortTable` | src/redis-ae/redis-cli.c:4915-4920 | five slots from any three sources with three each: four are found |
| `ClusterRebalance.MoveSlots` | src/redis-ae/redis-cli.c:3463-3467 | the slots of the table change hands, and every slot still has exactly one owner |
| `ClusterRebalance.WindowStep` | src/redis-ae/redis-cli.c:5847-5899 | a step of the two-index loop keeps the sum of the remaining balances with receivers before givers, and finishes a master or brings the receiver nearer |
| `ClusterRebalance.LastStays` | src/redis-ae/redis-cli.c:5847-5899 | when the shares do not fit, a step leaves the last receiver in the order the last one |
| `ClusterRebalance.MatchPair` | src/redis-ae/redis-cli.c:5850-5896 | fails exactly when the source has fewer slots than are to be moved; otherwise that many change hands, or none in a simulation, and the balances follow |
| `ClusterRebalance.Cluster.MoveLoop` | src/redis-ae/redis-cli.c:5843-5899 | the loop ends; each master has got or given what its balance changed by, every slot has one owner; no balance is left, or, from a negative sum, that sum with the last receiver in the order; it fails only if a giver has fewer slots than it should give or the last receiver fewer than the others then lack |
| `ClusterRebalance.Cluster.Rebalance` | src/redis-ae/redis-cli.c:5727-5904 | for any weights that do not sum to zero: nothing moves exactly when all are within the threshold; when the rounded shares fit, a real run succeeds if and only if no share is negative, and then every overfull master has its share and the others at least theirs; when they do not fit, a real run succeeds if and only if the shares, less the excess for the last receiver, are not negative, and then these are what everyone has; every slot keeps one owner |
| `HotKeys.LargestUnique` | src/redis-ae/redis-cli.c:7249-7262 | the largest elements of a multiset are determined by it, so the pool's counters are |
| `HotKeys.Pool.Replace` | src/redis-ae/redis-cli.c:7253-7262 | a zero or the smallest counter gives way, or the smaller ones move down, keys together with counters; the new entry is the sampled key if and only if that has no NUL |
| `HotKeys.Pool.Sample` | src/redis-ae/redis-cli.c:7242-7262 | the counters stay sorted and the largest of all frequencies seen; a nonzero one stands beside the C string of a key sampled with it |
| `HotKeys.NamesNoKey` | src/redis-ae/redis-cli.c:7262 | after the single sample of a key with a NUL inside, the pool names a key that was not sampled |
| `HotKeys.FindHotKeys` | src/redis-ae/redis-cli.c:7202-7290 | for any stream of samples the counters are its largest frequencies padded with zeros; if no key has a NUL each nonzero one stands beside a key sampled with it |
| `ConfigRewrite.ReadOldFile` | src/redis-ae/config.c:1712-1777 | every line is kept in place; an option's lines are exactly its directives; the signature is noticed |
| `ConfigRewrite.TrimIs` | src/redis-ae/config.c:1730 | trimming takes off exactly the blanks at both ends |
| `ConfigRewrite.LowerSame` | src/redis-ae/config.c:1756 | two names are the same option if and only if they differ in the case of letters only |
| `ConfigRewrite.AliasIs` | src/redis-ae/config.c:1765-1773 | the first "slave" in a name becomes "replica", and a name without it stays |
| `ConfigRewrite.ClassifyWords` | src/redis-ae/config.c:1730-1775 | a line of plain words, with blanks around it, is a directive for its first word, or a comment kept as it is |
| `ConfigRewrite.ClassifyUnbalanced` | src/redis-ae/config.c:1744-1754 | a line with unbalanced quotes is kept as a comment |
| `ConfigRewrite.UnreadableIff` | src/redis-ae/config.c:1730-1755 | a line has no first argument to read if and only if it is all blank and has a blank that is not trimmed |
| `ConfigRewrite.Unreadable` | src/redis-ae/config.c:1743-1755 | a line without a first argument |
| `ConfigRewrite.State.MarkAsProcessed` | src/redis-ae/config.c:1701-1705 | the option is processed, nothing else changes |
| `ConfigRewrite.ProcessedIff` | src/redis-ae/config.c:1701-1705 | an option is processed if and only if it was emitted or marked |
| `ConfigRewrite.State.RewriteLine` | src/redis-ae/config.c:1796-1829 | an emission takes the option's first unused line, or the end of the file when forced, or is dropped; other options are untouched |
| `ConfigRewrite.EmissionsAre` | src/redis-ae/config.c:1796-1829 | as many emissions of an option are kept as it has old lines, and of the others exactly the forced ones |
| `ConfigRewrite.State.RemoveOrphaned` | src/redis-ae/config.c:2128-2153 | exactly the unused old lines of processed options become blank |
| `ConfigRewrite.Rewrite` | src/redis-ae/config.c:2220-2250 | text and unknown options keep line and place; of each processed option's emissions as many are kept as it has old lines, and of the others the forced ones, in the order they were made: first in its own old lines, from the first on, then after all old lines; its other old lines are blank; no line serves two options; after the old lines come the signature, unless the old file has it, and nothing but kept emissions |
| `ConfigRewrite.GetContent` | src/redis-ae/config.c:2094-2110 | the lines joined, with every run of blank lines made one |
| `ConfigRewrite.CollapseKeeps` | src/redis-ae/config.c:2098-2106 | that loses no text and leaves no two blank lines together |
| `ConfigRewrite.CollapseRun` | src/redis-ae/config.c:2098-2106 | text stays as it is, and a run of blank lines after it becomes exactly one |
| `ConfigRewrite.ReadBack` | src/redis-ae/config.c:2094-2110 | reading the content back gives those lines, if none contains a line feed |
| `Adlist.List.constructor` | src/redis-ae/adlist.c:41-53 | an empty list |
| `Adlist.List.AddNodeHead` | src/redis-ae/adlist.c:88-106 | the value is put first; pointers both ways, head, tail and length agree with the sequence |
| `Adlist.List.AddNodeTail` | src/redis-ae/adlist.c:114-132 | the value is put last, likewise |
| `Adlist.List.InsertNode` | src/redis-ae/adlist.c:134-161 | the value is put before or after the given node, likewise |
| `Adlist.List.DelNode` | src/redis-ae/adlist.c:167-180 | exactly the given node is taken out, likewise |
| `Adlist.List.Rotate` | src/redis-ae/adlist.c:330-343 | the last element becomes the first |
| `Adlist.List.Join` | src/redis-ae/adlist.c:347-362 | the lists are concatenated and the argument is empty, whichever was empty before |
| `Adlist.List.Index` | src/redis-ae/adlist.c:315-327 | the node at an index from either end, or null outside |
| `Adlist.Iter.Next` | src/redis-ae/adlist.c:229-240 | returns the node and has moved on already |
| `Adlist.IterateDeleting` | src/redis-ae/adlist.c:229-240 | iterating while deleting the returned node visits every original element once, in order |

## Left out

- Remove: requires every key to be within RAX_NODE_MAX_SIZE (as do `Recompress` and `Run`), because beyond that the second scan of the recompression does not fit what the first one measured, as `ScansAgree` states.
- Serve: inline lines over the limit are not among the commands; `ArriveExact` says what becomes of one.
- ProcessCommandAndReset: what a command does is abstract; the state of a client that a module has blocked is reset at once, where the program waits for the end of the blocking, and nothing reads it in between.
- HandleClientsWithPendingWritesUsingThreads: states the outcome for output and handlers; that each client is written to once, and by whom, is `EachWrittenOnce`.
- Rebalance: requires weights that do not sum to zero, because the program divides by the sum, and counts that match the bitmaps, which clusterManagerCheckCluster, called before, is for; of a simulated run it states that it moves nothing and succeeds whenever a real one would, not when else it does.
- ComputeBalances: weights and shares are exact, where the program uses floating point; so are the quotas of `ComputeReshardTable`.
- Dispatch: one reported descriptor; kqueue may report a descriptor twice in a poll, and no order is claimed across reports.
- CreateFileEvent: kernel calls succeed.
- Rewrite: rewriting twice is not claimed to give the same file.
- ReadOldFile: a line that is split into no arguments is excluded (also in `Rewrite`), because the program then reads the first of them; `UnreadableIff` says which lines.
- ReadQuery: the size of a single read is arbitrary.
- Fire: what else a callback does to the timers is arbitrary, as is what a handler does to the descriptors it touches in `Dispatch`.
- Recompress: says what is merged around a node; that a tree has no more nodes than it needs is not claimed, because removing a key held by a longer compressed node does not merge it.
- Out-of-memory paths, which end the process in this program.
- isprint, qsort, read, write, the clock and the effects of commands and callbacks are parameters or arbitrary; isspace is that of the C locale.
- The threaded read batch, replica states and the teardown of clients.
- Output buffer limits and gopher requests.
- evport, whose bookkeeping relies on the mask being updated before it is called.
- sdsMakeRoomFor and the other length and capacity functions of sds; raxRandomWalk, raxCompare and the debugging functions; listDup, listSearchKey and backward iteration.
- Parsing of configuration options, the interactive client, cluster commands other than rebalance, and the network layer.
