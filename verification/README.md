# A verified model of a Bitcoin library

The library under study is written in C. This project models its state-changing core in Dafny and proves what
that core is for. Hashing, signature checking and the work of a compact target are function-valued parameters, so
every theorem holds for every choice of them. Difficulty is a real number.

| Part | Files | What is proved |
|---|---|---|
| AVL tree | `AvlSpec`, `AvlTree`, `AvlIter` | insertion, deletion and search over linked nodes with a fixed array of slots; ordering, balance, exact stored heights; the array is never overrun; the iterator visits every node once, in order |
| Chain assembly | `BlockNodes`, `MainChain`, `BlockTree`, `BlockFamily`, `BlockInheritance`, `Candidates`, `CandidateList`, `Locator`, `Powers` | blocks of a chain without forks in any order of arrival; abandoning and adding on the main array for arbitrary forks; difficulty sums and inheritance on arbitrary trees, apart and one after the other; the block locator |
| Script | `Script`, `ScriptTree`, `Opcodes`, `Interpreter`, `MultiSig`, `MultiSigOp` | what each opcode does by its number and by the items on the stack; the byte-scanning interpreter evaluates a structured program; CHECKMULTISIG decides whether an order-preserving assignment exists |
| Wire format | `Bytes`, `Wire`, `Tx`, `TxLayout`, `TxExamples`, `TxObject`, `Block` | which bytes stand for which contents; parser and printer of transactions and blocks undo each other, and exactly when they do |
| Signature hashes | `Sighash` | the cached digest is the direct one (section "Specification" of BIP 143) |
| Codecs | `Radix`, `Base58`, `MerkleTree`, `CompactInt`, `AutoBuffer`, `Framing` | Base58, Merkle roots, compact targets, and cutting a byte stream into messages |

Objects that the library updates in place are classes here, and each method is proved against a function of the
old state. The functions' properties are the lemmas in the table. Three results share this shape: a failed
assertion of the library, or a read of memory that it does not own, is the outcome `Halt`, `Halted`, `Undefined`
or `Aborted`; a negative return code is `Reject`, `Rejected`, `Failed` or -1; anything else is a value.

## Where the code does something else than one expects

Each of these is a theorem below, stated as an exact condition or with a concrete input.

- CHECKMULTISIG returns success without pushing a result exactly if a missing or malformed signature follows ones
  that can be assigned to keys (`MultiSig.SilentSuccess`), and a script then goes on without a verdict
  (`MultiSig.MultisigInRun`, `MultiSig.SilentRunExample`).
- OP_EQUAL and OP_EQUALVERIFY free a boolean that all scripts share, and OP_DUP fails an assertion on an empty push;
  both are the outcome `Halted` (`Interpreter.ScriptMachine.ParseOp`, `ScriptTree.EqualFlagsExample`,
  `ScriptTree.CopyEmptyExample`).
- OP_RETURN does nothing, so that the rest of the script is run (`Opcodes.OtherRun`).
- A code that a message handler returns is seen exactly when its frame is the last complete one of its read
  (`Framing.ScanSucceeds`, `Framing.ReadsSucceed`, `Framing.HandlerCodeLostExample`).
- Re-serializing a parsed transaction gives other bytes, or stops the process, unless its counts were minimal and
  its witnesses were there when flagged (`Tx.TxReserialized`, `TxExamples.FlagWithoutWitnesses`,
  `TxExamples.WideCount`).
- Base58 adds a digit when all bytes are zero (`Base58.DecodeEncoded`, `Base58.ZerosEncoded`).
- Compact targets from 2^231 on lose more than their low bytes (`CompactInt.RoundsDownExactly`), and
  the comparison of encodings puts them above numbers that are decoded to more (`CompactInt.ComparesExactly`).
- The cached digest drops the unused bits of a signature hash type (`Sighash.MaskedPreimage`,
  `Sighash.UnusedBitExample`), and the direct preimage ignores code separators and keeps a prefix that is not
  minimal (`Sighash.DirectAgrees`, `Sighash.SeparatorIgnoredExample`).
- A recalculation of a Merkle tree without items keeps the old root (`MerkleTree.MerkleTree.Recalc`,
  `MerkleTree.RootStays`).
- The locator reports one hash more than it has written exactly when the last entry that it has room for lies above
  the genesis block, or the chain is empty (`MainChain.BlockChain.KnownHashes`, `Locator.CutOffExample`).
- A block that returns to the main chain after having been abandoned has lost its version, Merkle root and nonce
  (`MainChain.Reinstated`, `MainChain.ReinstatedExample`).

## Model

| member | source | states |
|---|---|---|
| AvlTree.AvlTree.Add | utils/avl_tree.c:141-174 | ordering, balance, exact heights and `count` are kept; an absent key enters the in-order sequence of keys at one place, with a new node; for a present one the old node is returned and nothing changes; the 96 slots suffice |
| AvlTree.AvlTree.Del | utils/avl_tree.c:178-221 | ordering, balance, exact heights and `count` are kept; the in-order keys lose exactly this key, and one node, its own or its predecessor's, leaves the tree; null and no change exactly for an absent key, otherwise the parent of the node that held the key, or that node itself if it was the root; the 97 slots suffice |
| AvlTree.AvlTree.Find | utils/avl_tree.c:225-236 | null exactly when no entry has the key, otherwise the node of the entry that has it |
| AvlTree.AvlTree.Rotate | utils/avl_tree.c:62-102 | the heap below the slot becomes the single or double rotation, the rest of the path is untouched, and the change of height is returned |
| AvlTree.AvlTree.Balance | utils/avl_tree.c:104-115 | the heap below the slot becomes the balanced tree; 0 exactly when its height is the stored one |
| AvlTree.AvlTree.Climb | utils/avl_tree.c:166-169 | stopping at the first ancestor whose height is unchanged leaves the whole tree balanced with exact heights and the same content |
| AvlTree.AvlTree.Search | utils/avl_tree.c:149-159 | the slots of the path are recorded in order, no path in a tree of fewer than 2^64 nodes is longer than 92, and everything left and right of the path is smaller and larger than the key |
| AvlTree.AvlTree.DelPredecessor | utils/avl_tree.c:199-220 | the predecessor's key overwrites the deleted one and the predecessor's node leaves the tree; one key disappears |
| AvlSpec.AvlHeight | utils/avl_tree.c:104-115 | in a balanced tree every stored height is the real one |
| AvlSpec.BalancedIsAvl | utils/avl_tree.c:62-115 | balancing a node that leans by at most two gives a balanced tree over the same nodes in the same order, at most one lower |
| AvlSpec.RotatedKeepsContent | utils/avl_tree.c:62-102 | a rotation keeps the in-order sequence and the set of nodes |
| AvlSpec.ClimbingFrame | utils/avl_tree.c:166-169 | one round of rebalancing moves the invariant of the climb one ancestor up |
| AvlSpec.PlugAvl | utils/avl_tree.c:166-169 | a subtree may be replaced by any balanced one of the same height without touching its ancestors, the reason for the early stop |
| AvlSpec.PlugEntries | utils/avl_tree.c:141-174 | content, nodes and sharing of a tree in terms of a path and the subtree at its end |
| AvlSpec.RemovedKeys | utils/avl_tree.c:178-221 | either way of deleting takes exactly one key out of the sequence and keeps the order |
| AvlSpec.InsertedKeys | utils/avl_tree.c:141-174 | insertion puts exactly one key into the sequence |
| AvlSpec.ParentNode | utils/avl_tree.c:191-199 | the node above the end of a path is the parent of the node there |
| AvlSpec.FibonacciBound | utils/avl_tree.c:139-150 | a balanced tree of height h has at least Fib(h+2) - 1 nodes |
| AvlSpec.HeightBound | utils/avl_tree.c:139-150 | fewer than 2^64 nodes means a height of at most 91, so the fixed path arrays are long enough |
| AvlIter.TreeIterator.GetNext | utils/avl_tree.c:297-376 | returns the first of the nodes still owed, in order, and leaves the others owed; null exactly when none is |
| AvlIter.TreeIterator.Begin | utils/avl_tree.c:379-398 | starts over: the first node in order is returned and all others are owed |
| AvlIter.TreeIterator.Next | utils/avl_tree.c:400-406 | the next node in order, or the first if no walk has been started, or null and no change if there is none to start with |
| AvlIter.TreeIterator.Walk | utils/avl_tree.c:275-406 | begin and then next until null returns every node exactly once, in order |
| AvlIter.PoppedRemaining | utils/avl_tree.c:297-376 | dropping a finished frame and advancing the one below leaves exactly what was owed below |
| AvlIter.EndorderPop | utils/avl_tree.c:297-376 | a finished frame owes nothing, and dropping it lowers the termination measure |
| CandidateList.Store.Add | src/chains.c:481-667 | in every valid state, for every block of the chain: -1 and no change of any field exactly for the genesis block and for a block already delivered, otherwise 0 and the block counts as delivered; the state stays valid, so every node of a candidate chain holds the sum of the work from the start of its chain |
| CandidateList.Assemble | src/chains.c:481-667 | for every order of delivery, with repeats, the state is valid, running sums included, and holds exactly the delivered blocks |
| CandidateList.Store.LongestPrefix | src/chains.c:481-667 | the main chain is the longest prefix without a gap that has been delivered |
| CandidateList.Store.MaximalRuns | src/chains.c:481-667 | the candidate list has exactly one chain for each maximal run of the other delivered blocks |
| CandidateList.Store.IndexedBlocks | src/chains.c:481-667 | the search index holds exactly the blocks of those runs and the missing parents that their heads stand for |
| CandidateList.Store.Collect | src/chains.c:517-562 | a new block takes over the chain that was waiting for it, if any; block and chain then form one run with sums |
| CandidateList.Store.TakeOver | src/chains.c:520-553 | the chain that waited for the block leaves the list, and the block takes the place of its head in the index |
| CandidateList.Store.Attach | src/chains.c:564-602 | the run joins the chain that ends directly below it or becomes a chain of its own; list, index and covered blocks are exact |
| CandidateList.Store.JoinChain | src/chains.c:568-583 | the chain of the parent grows by the run, the other chains are untouched and stay apart from it |
| CandidateList.Store.FoundChain | src/chains.c:584-598 | a new chain whose head, indexed under the parent's hash, waits for the parent |
| CandidateList.Store.Promote | src/chains.c:604-667 | a chain that waits for the tip moves onto the main chain as a whole and leaves list and index |
| CandidateList.Store.Advance | src/chains.c:604-667 | exactly the chain that waits for the tip is promoted, and what counts as delivered does not change |
| CandidateList.Store.Remove | src/chains.c:1038-1052 | the last chain moves into the hole and the head leaves the index |
| CandidateList.Store.CurrentChain | src/chains.c:449-455 | from the end of a chain the way up leads to the chain itself |
| CandidateList.Store.FindHead | src/chains.c:433-439 | a block is found on the main chain exactly when its height is not above the tip |
| CandidateList.LookUp | src/chains.c:517-521 | what the index finds under a hash is a node with a parent exactly when a chain holds the block, and a head without one only when a chain waits for it |
| CandidateList.Store.FindParent | src/chains.c:564-572 | the parent's hash finds the last node of the chain that ends directly below, or nothing |
| CandidateList.WithoutGroup | src/chains.c:1038-1052 | removing a chain keeps the others valid and apart |
| CandidateList.ExtendedHolds | src/chains.c:604-667 | the main chain extended by a line holds the blocks of the line |
| Candidates.Claim | src/chains.c:528-551 | a new node becomes the parent of the first node of the chain that waited for it, and every node below gets its sum |
| Candidates.Join | src/chains.c:568-583 | the run hangs below the chain's end, its sums count on from the sum of the parent, the longest end is the last node, and the first-child line is the whole chain |
| Candidates.SummedRunning | src/chains.c:851-882 | on a line the sums that the update leaves are exactly the running sums |
| Candidates.Found | src/chains.c:584-598 | the new chain has a head with the parent's hash above the run, and its longest end is the last node |
| Candidates.NewChain | src/chains.c:908-936 | the head has the previous hash of the first block, owns the chain and has that block as its only child |
| Candidates.LastLeads | src/chains.c:851-882 | on a line the last node has the largest sum and is the one selected, also when it already led |
| Candidates.SingleUnchanged | src/chains.c:884-905 | declaring inheritance changes nothing on a line |
| MainChain.BlockChain.Abandon | src/chains.c:241-274 | at any fork point: the chain becomes the prefix, index and database follow, and the suffix is returned as a line in order with hashes, parents, bits, times and sums |
| MainChain.BlockChain.AddInheritances | src/chains.c:276-303 | for any fork point and any linked branch: the chain becomes the prefix with the branch, the old suffix is returned in order, index and database are those of the new chain |
| MainChain.BlockChain.AddNext | src/chains.c:211-236 | one added heir is linked, gets the running sum, and enters index and database |
| MainChain.BlockChain.AbandonLast | src/chains.c:191-209 | one abandoned heir becomes the head of the line and leaves index and database |
| MainChain.BlockChain.AddHeir | src/chains.c:211-236 | the next cell holds the block with the parent's sum plus its work, and no other cell changes |
| MainChain.BlockChain.Find | src/chains.c:433-439 | the position of the hash on the main chain, or none |
| MainChain.BlockChain.KnownHashes | src/chains.c:318-351 | the hashes written are those at the heights of the locator; the count is their number exactly when the last entry that there is room for would reach the genesis block, and one more otherwise; below height 2^31 it is their number for a limit of 0 or at least 64 |
| MainChain.BlockChain.constructor | src/chains.c:360-400 | a chain of the genesis block alone |
| MainChain.ExtendedLinked | src/chains.c:211-236 | extending by blocks that fit keeps hashes distinct, links by previous hash and sums running |
| MainChain.ExtendedAt | src/chains.c:211-236 | every entry of the extension is the block on top of the entry before |
| MainChain.Reinstated | src/chains.c:191-236 | what is abandoned and added again differs exactly in the header fields that are not exported |
| MainChain.ReinstatedExample | src/chains.c:191-236 | a chain of two blocks that comes back without its version |
| MainChain.DropLast | src/spv_node_app.c:213-227 | removing the last block's hash makes index and database those of the shorter chain |
| MainChain.AddLast | src/spv_node_app.c:229-249 | storing a block with its height makes index and database those of the longer chain |
| MainChain.RecordAt | src/spv_node_app.c:229-249 | the database holds every block above the genesis block with its height and its header |
| MainChain.IndexMembers | src/chains.c:211-236 | the index holds exactly the hashes of the chain, each with its position |
| BlockTree.Update | src/chains.c:851-882 | on any tree: every visited node gets the sum of the work on its way from the root, and the tracked heir is the first visit with the largest sum |
| BlockTree.BestIsTop | src/chains.c:851-882 | the selected node is one of the visited, or the one before, and none has a larger sum |
| BlockTree.BestAgain | src/chains.c:851-882 | visiting again the siblings that have been visited does not change the selection |
| BlockTree.VisitOrder | src/chains.c:851-882 | a node, its child and its sibling are visited in this order, which decides between equal sums |
| BlockTree.VisitedNodes | src/chains.c:851-882 | exactly the nodes of the tree are visited |
| BlockFamily.AddChild | src/chains.c:753-764 | the child goes to the end of the sibling list |
| BlockFamily.Promote | src/chains.c:884-905 | one node comes first among its siblings and the others keep their order |
| BlockFamily.DeclareInheritance | src/chains.c:884-905 | on any tree: afterwards the first-child path from the root passes through the heir, and child lists are only permuted along the way up |
| BlockFamily.InheritedAt | src/chains.c:884-905 | each list on the way has its node moved to the front, every other list is as it was |
| BlockFamily.MovedAt | src/chains.c:884-905 | moving to the front permutes a list and keeps the order of the others |
| BlockFamily.Head | src/chains.c:449-455 | the way up ends at the node without parent |
| BlockInheritance.UpdateAndDeclare | src/chains.c:851-905 | on any tree with forks and any part of it, the whole tree included: every node holds the work of its way up from the root, the selected node has the largest sum of the part, the first-child path from the root leads to it, and child lists are permuted only along that way, the other siblings keeping their order |
| BlockInheritance.SumUp | src/chains.c:851-882 | updating a part from the sum of its parent makes all sums of the tree right and selects a maximal node |
| BlockInheritance.DeclareHeir | src/chains.c:884-905 | declaring any node of any tree makes the first-child path from the root lead to it |
| BlockInheritance.VisitSum | src/chains.c:851-882 | the sum with which a node is visited is the work of its way up |
| BlockInheritance.TreeFamily | src/chains.c:851-905 | sibling lists with right parents are a family: every node is in the list of its parent and nowhere else |
| BlockInheritance.AncestryPath | src/chains.c:884-905 | from every node the parents lead to the root without repetition |
| BlockInheritance.UpThrough | src/chains.c:851-882 | the way up from a node of a part leads through the parent of the part |
| BlockInheritance.PromotedOnly | src/chains.c:884-905 | declaring changes only the lists on the way, each by one move to the front |
| Locator.LocatorShape | src/chains.c:318-351 | heights fall strictly from the tip; the k-th lies k below it up to ten, then 2^(k-9)+8, clamped at the genesis block; they end there unless the limit cuts them off; at most 12 + log2 of the height |
| Locator.LimitSuffices | src/chains.c:318-351 | below height 2^31 a limit of 64 cuts nothing off and the step stays within a signed 32-bit number |
| Locator.GenesisFits | src/chains.c:337-347 | the genesis block is written exactly when the last entry that there is room for would lie at or below it |
| Locator.CutOffExample | src/chains.c:337-347 | a tip and a limit for which it is cut off |
| Locator.OffsetGrows | src/chains.c:318-351 | each step of the loop leads to the next offset |
| ScriptTree.FlattenedRun | src/satoshi-script.c:1439-1653 | for every tree of pushes, opcodes and conditionals, running its bytes has exactly the outcome of evaluating the tree |
| ScriptTree.ScanFindsOwn | src/satoshi-script.c:927-1077 | the scan that a conditional starts finds its own ELSE and its own ENDIF, whatever is nested or pushed in between |
| ScriptTree.ScanSkips | src/satoshi-script.c:927-1077 | no byte of a subtree, pushed data included, is taken for the ELSE or ENDIF looked for |
| ScriptTree.PushExtent | src/satoshi-script.c:584-629 | a push in any encoding is read back with exactly its own extent |
| ScriptTree.ExecConditional | src/satoshi-script.c:927-1077 | running a conditional in the bytes is evaluating its node and going on behind its ENDIF |
| ScriptTree.ExecRestoresDepth | src/satoshi-script.c:927-1077 | on any bytes, a successful run restores the nesting counter and keeps the stack within its capacity |
| ScriptTree.EvalIgnoresDepth | src/satoshi-script.c:927-1077 | within the nesting limit of 256 the outcome does not depend on how deep the script itself is nested |
| ScriptTree.LaidOut | src/satoshi-script.c:1439-1653 | the flattened bytes lay a tree out where it is placed |
| ScriptTree.EqualFlagsExample | src/satoshi-script.c:648-680 | two empty pushes compared: the shared boolean is freed |
| ScriptTree.CopyEmptyExample | src/satoshi-script.c:630-646 | an empty push with a length byte, copied: the assertion fails |
| Opcodes.EqualVerifyRun | src/satoshi-script.c:150-167 | 0x88, for every pair of items: both are taken off exactly when they are alike by their types and contents, a shared boolean ends the process, anything else fails |
| Opcodes.EqualVerifyStrings | src/satoshi-script.c:648-668 | on two strings 0x88 succeeds exactly when they are the same and not empty |
| Opcodes.EqualRun | src/satoshi-script.c:669-675 | 0x87 pushes that verdict in place of the two items, and false if there are fewer than two |
| Opcodes.EqualStrings | src/satoshi-script.c:669-675 | on two strings 0x87 pushes true exactly when they are the same and not empty |
| Opcodes.VerifyRun | src/satoshi-script.c:1656-1679 | 0x69 goes on, without the item, exactly for a true boolean and a small number that is not zero |
| Opcodes.HashRun | src/satoshi-script.c:530-583 | 0xa6, 0xa8, 0xa9 and 0xaa replace the item by the hash of its bytes, eight of them for a small number |
| Opcodes.DupRun | src/satoshi-script.c:630-646 | 0x76 pushes the item again; an empty string ends the process, and the copy of a boolean is not the shared one |
| Opcodes.NumberRun | src/satoshi-script.c:1506-1515 | 0x51 to 0x60 push 1 to 16 |
| Opcodes.PushRun | src/satoshi-script.c:584-629 | a length byte, or 0x4c or 0x4d and a length: exactly the bytes behind it are pushed and skipped |
| Opcodes.FalseRun | src/satoshi-script.c:1483-1486 | the byte zero pushes false |
| Opcodes.SignatureRun | src/satoshi-script.c:1545-1558 | the three signature opcodes see the whole stack and the code separator |
| Opcodes.SeparatorRun | src/satoshi-script.c:1598-1600 | 0xab notes the position behind it; without a redeem script it fails, at the end of the script the process stops |
| Opcodes.OtherRun | src/satoshi-script.c:1560-1640 | the words without effect, the numbers that end a run, and 0x4e, which stops the process |
| Opcodes.PayToHash | src/satoshi-script.c:1439-1653 | payment to the hash of a key, byte by byte: it fails unless the key has the hash, and otherwise CHECKSIG gets signature and key |
| Opcodes.ConditionalRun | src/satoshi-script.c:927-1077 | 0x63 runs the first of two branches exactly for a true item and 0x64 for any other, without the item, up to a nesting of 256 |
| Interpreter.ScriptMachine.Parse | src/satoshi-script.c:1439-1653 | verdict, stack, nesting counter and separator after parsing any bytes |
| Interpreter.ScriptMachine.ParseIfNotif | src/satoshi-script.c:927-1077 | the branch that the condition selects is run, on the slice between the marks of this level |
| Interpreter.ScriptMachine.FindMarks | src/satoshi-script.c:991-1040 | the loop finds the marks of the current level |
| Interpreter.ScriptMachine.ParsePushData | src/satoshi-script.c:584-629 | the pushed item and the number of bytes consumed, or rejection when the length or the data is cut off |
| Interpreter.ScriptMachine.ParseOp | src/satoshi-script.c:1477-1640 | the effect of every other opcode on the stack, which the lemmas of `Opcodes` state item by item |
| Interpreter.ScriptMachine.ParseEqualVerify | src/satoshi-script.c:648-668 | two items are popped and compared; empty items are never equal; a shared boolean among them must not be freed, which ends everything |
| Interpreter.ScriptMachine.ParseHash | src/satoshi-script.c:530-583 | the item on top is replaced by its hash |
| Interpreter.ScriptMachine.Verify | src/satoshi-script.c:1656-1679 | pops an item and accepts true and non-zero small numbers only |
| Interpreter.ScriptMachine.StackPush | src/satoshi-script.c:425-445 | pushes within the capacity of the first allocation |
| Interpreter.ScriptMachine.StackPop | src/satoshi-script.c:447-464 | returns the item on top and removes it |
| Interpreter.ScriptMachine.RunTree | src/satoshi-script.c:1439-1653 | the machine run on a flattened tree ends as the evaluation of the tree says, and with the nesting counter it began with |
| MultiSig.CheckMultisigDecides | src/satoshi-script.c:779-925 | for any stack and any keys: true is pushed exactly when every signature can be read and some non-decreasing assignment of signatures to verifying keys exists |
| MultiSig.MultisigByPosition | src/satoshi-script.c:779-925 | with the items laid out bottom first as signatures, their number, keys of 33 or 65 bytes, and their number: all of it is replaced by true exactly when there is a key for every signature that verifies it, in the same order |
| MultiSig.PopKeysExactly | src/satoshi-script.c:809-827 | the keys are read exactly when so many items on top are strings of 33 or 65 bytes that are keys |
| MultiSig.SignatureAt | src/satoshi-script.c:841-900 | each signature is its item without the last byte, which is the type of the digest that it is checked against |
| MultiSig.PassDecides | src/satoshi-script.c:841-900 | the greedy pass from any state computes that verdict |
| MultiSig.GreedyFirst | src/satoshi-script.c:887-900 | the exchange argument: the first signature may as well take the first key that verifies it |
| MultiSig.CompletionRemoves | src/satoshi-script.c:779-925 | on completion exactly the keys, the signatures and two counts have been removed |
| MultiSig.SilentSuccess | src/satoshi-script.c:779-925 | success is returned although nothing is pushed exactly when counts and keys are in order and a signature other than the topmost cannot be read while those above it can be assigned to keys in order |
| MultiSig.SilentSuccessExample | src/satoshi-script.c:779-925 | a stack for which that happens |
| MultiSig.MultisigInRun | src/satoshi-script.c:1555-1558 | a script run goes on with the verdict pushed, goes on without one, or fails, as the opcode decides |
| MultiSig.SilentRunExample | src/satoshi-script.c:1555-1558 | a script run that succeeds with nothing left to verify |
| MultiSigOp.ParseOpCheckMultisig | src/satoshi-script.c:779-925 | the stack afterwards and the return code, on every path |
| MultiSigOp.PopSignatures | src/satoshi-script.c:841-900 | the loop over the signatures: verdict, number verified, stack and return code, which is 0 without a verdict only when the pass says so |
| MultiSigOp.PopPubkeys | src/satoshi-script.c:809-827 | the keys in the order popped, or failure at the first item that is none |
| MultiSigOp.TryKeys | src/satoshi-script.c:887-900 | the first key from the index on that verifies, the index staying on it |
| Wire.VarintRoundTrip | src/satoshi-types.c:52-154 | a number below 2^64 is read back from its encoding, whatever follows |
| Wire.VarintReencoded | src/satoshi-types.c:52-154 | re-encoding never takes more bytes, and gives the bytes read exactly when they were minimal |
| Wire.VarstrRoundTrip | src/satoshi-tx.c:79-98 | a string with its prefix is read back, whatever follows |
| Wire.NewVarstrParsed | src/satoshi-types.c:163-177 | a new string parses and has the given content |
| Wire.ManyRoundTrip | src/satoshi-tx.c:166-198 | a list of records is read back if each record is |
| Wire.ManyReprints | src/satoshi-tx.c:166-198 | printing a list that was read gives the bytes exactly when every record does |
| Tx.TxinRoundTrip | src/satoshi-types.c:395-473 | an input is read back from its serialization, whatever follows |
| Tx.TxinReprinted | src/satoshi-types.c:395-473 | every input that is read is well formed and printed as it was read |
| Tx.TxoutRoundTrip | src/satoshi-types.c:508-572 | an output is read back from its serialization, whatever follows |
| Tx.TxoutReprinted | src/satoshi-types.c:508-572 | every output that is read is well formed and printed as it was read |
| Tx.WitnessRoundTrip | src/satoshi-tx.c:219-253 | a witness is read back from its serialization, whatever follows |
| Tx.TxRoundTrip | src/satoshi-tx.c:116-280 | every well-formed transaction is read back from its serialization, whatever follows, over exactly its length |
| TxLayout.ContentsRead | src/satoshi-tx.c:116-280 | from any contents, written field by field with sizes and counts, exactly these contents are read, whatever follows, with the ids as double hashes of the written parts; above 4,000,000 bytes nothing is |
| TxLayout.SpendRead | src/satoshi-types.c:395-473 | id, index, script and sequence number of an input, written one after the other, are read back |
| TxLayout.PaymentRead | src/satoshi-types.c:508-572 | value and script of an output are read back |
| TxLayout.StackRead | src/satoshi-tx.c:219-253 | the items of a witness, each behind its size, are read back |
| Tx.TxinFields | src/satoshi-types.c:350-473 | where the fields of an input lie; it is a coinbase input exactly for 32 zero bytes and the index 0xffffffff |
| Tx.TxReserialized | src/satoshi-tx.c:334-456 | re-serializing a parsed transaction gives the bytes read exactly when its witnesses are present if flagged and the input, output and witness-item counts were minimal |
| TxExamples.FlagWithoutWitnesses | src/satoshi-tx.c:416-446 | bytes with marker and flag but without witnesses, which parse and then stop serialization |
| TxExamples.WideCount | src/satoshi-tx.c:334-456 | bytes with an input count of one in three bytes, which parse and are serialized to other bytes |
| Tx.TransactionIds | src/satoshi-tx.c:116-280 | for every transaction that is read, the transaction id is the double hash of version, lists of inputs and outputs as they were read, and lock time, without marker, flag and witnesses; the witness id is the one of all bytes read |
| Tx.ParsedIsValid | src/satoshi-tx.c:116-280 | under those conditions what is parsed is well formed, so it makes the round trip |
| Tx.PrintedNoLonger | src/satoshi-tx.c:334-456 | printing never takes more bytes than were read, and as many only for the same bytes |
| TxObject.SatoshiTx.Parse | src/satoshi-tx.c:116-280 | the object's fields, the bytes consumed and the error cases are those of the parsing function |
| TxObject.SatoshiTx.Serialize | src/satoshi-tx.c:334-456 | the new buffer holds the printed transaction, or an assertion fails exactly when the recorded witness size is wrong or a flagged transaction lacks witnesses |
| TxObject.SatoshiTx.ParseLists | src/satoshi-tx.c:152-199 | the loops over inputs and outputs |
| TxObject.SatoshiTx.ParseRest | src/satoshi-tx.c:201-264 | witnesses only if flagged and more than the lock time is left; the lock time |
| TxObject.SatoshiTx.PutWitnesses | src/satoshi-tx.c:416-446 | the witnesses behind what is in the buffer; false exactly when a count is negative |
| TxObject.ParseRecords | src/satoshi-tx.c:166-253 | the loop over records agrees with the recursive list parser and stops at the first failure |
| TxObject.PutMany | src/satoshi-tx.c:395-443 | the loop over records appends exactly their bytes |
| Block.BlockRoundTrip | src/satoshi-block.c:81-237 | every well-formed block is read back from its serialization |
| Block.AcceptedExactly | src/satoshi-block.c:81-162 | for a header of version, previous hash, root, time, bits and nonce with something behind it: accepted exactly when the verdict on the header is, the transactions can be read, the pairwise double hash of their ids is the root, and the size is at most 4,000,000 |
| Block.HeaderFields | src/satoshi-block.c:145-150 | the root is the third field of the 80 bytes |
| Block.BlockReserialized | src/satoshi-block.c:180-237 | re-serializing a parsed block gives the bytes read exactly when its transaction count is minimal and every transaction is exact |
| Block.SatoshiBlock.Parse | src/satoshi-block.c:81-162 | an accepted full block's header root is the Merkle root of its transaction ids; fields, length and error cases |
| Block.SatoshiBlock.ParseTxs | src/satoshi-block.c:127-143 | the loop fills the Merkle tree with the transaction ids in order |
| Block.SatoshiBlock.Serialize | src/satoshi-block.c:180-237 | the new buffer holds the printed block, or the process stops exactly when a transaction cannot be serialized or the block is too large |
| MerkleTree.MerkleTree.Recalc | src/merkle_tree.c:97-151 | a full recalculation sets the root to the recursive pairwise root of the current items, whatever older ones left in the layer buffers |
| MerkleTree.RootStays | src/merkle_tree.c:97-151 | one hash added, recalculated, removed and recalculated again: an empty tree with its old root |
| MerkleTree.MerkleTree.ClimbLayers | src/merkle_tree.c:120-148 | the first layer of one hash holds the root, within 31 layers for any 31-bit count |
| MerkleTree.MerkleTree.Add | src/merkle_tree.c:169-184 | the items are appended |
| MerkleTree.MerkleTree.Remove | src/merkle_tree.c:186-196 | the last item moves into the hole; -1 and no change for a wrong index |
| MerkleTree.MerkleTree.Set | src/merkle_tree.c:198-203 | one item is replaced; -1 and no change for a wrong index |
| MerkleTree.MerkleTree.Resize | src/merkle_tree.c:153-166 | there is room, and the items stay |
| MerkleTree.Layer.Resize | src/merkle_tree.c:48-60 | an even size that never shrinks, old contents stay |
| MerkleTree.Layer.HashFrom | src/merkle_tree.c:124-141 | a layer is the pairwise hashes of the one below, an odd last one hashed with itself |
| MerkleTree.SingleIsRoot | src/merkle_tree.c:97-151 | the first layer of a single hash holds the recursive root |
| MerkleTree.RootOfThree | src/merkle_tree.c:97-151 | the root of three hashes, the last of which is paired with itself |
| MerkleTree.LayerSize | src/merkle_tree.c:97-151 | k layers above at most 2^n hashes lie at most 2^(n-k) |
| MerkleTree.EnoughLayers | src/merkle_tree.c:97-151 | 31 layers reduce any 31-bit number of hashes to one |
| Sighash.RawTx.GetDigest | src/segwit-tx.c:212-335 | after an attach, for every input, hash type and order of calls: the double hash of the ten-field preimage; an assertion fails exactly for an unknown type or an exhausted script |
| Sighash.StandardPreimage | src/segwit-tx.c:212-335 | the ten fields for each of the six standard types: which of the three hashes are taken over what, and which are zeros |
| Sighash.PreimageSlices | src/segwit-tx.c:224-314 | where these hashes lie: outpoints at 4, sequence numbers at 36, outputs 40 bytes before the end |
| Sighash.RemainingBytes | src/satoshi-types.c:355-366 | of the redeem script exactly the bytes from the code separator on are hashed |
| Sighash.RawTx.Attach | src/segwit-tx.c:337-370 | the cached state holds the first three fields and the output hash |
| Sighash.RawTx.Start | src/segwit-tx.c:224-268 | the first three fields, from the cache for type ALL and afresh otherwise |
| Sighash.RawTx.Outputs | src/segwit-tx.c:294-314 | the output hash that the type asks for |
| Sighash.PrehashPrevouts | src/segwit-tx.c:116-138 | the hash of all outpoints is fed |
| Sighash.PrehashSequences | src/segwit-tx.c:140-165 | the hash of all sequence numbers is fed |
| Sighash.HashOfOutputs | src/segwit-tx.c:167-210 | the hash of all outputs or of one |
| Sighash.GeneratePreimage | src/satoshi-tx.c:480-607 | the direct form of the preimage, for the types that it accepts |
| Sighash.DirectAgrees | src/satoshi-tx.c:480-625 | for type ALL direct and cached preimage agree exactly when no code separator has been executed and the script's prefix is minimal |
| Sighash.SeparatorIgnoredExample | src/satoshi-tx.c:480-607 | a script behind a code separator for which the two preimages differ |
| Sighash.UnusedBitExample | src/segwit-tx.c:212-335 | type 0x41, hashed as if it were ALL |
| Sighash.MaskedPreimage | src/segwit-tx.c:212-335 | the preimage of the type as it is hashed is the one of the type given exactly when no other bit is set, as in all six standard types |
| Base58.DecodeEncoded | src/base58.c:59-168 | decoding undoes encoding exactly for inputs that are empty or have a non-zero byte |
| Base58.EncodeDecoded | src/base58.c:59-168 | encoding undoes decoding exactly for valid texts that are empty or have a character other than '1' |
| Base58.LeadingZeros | src/base58.c:64-65 | leading zero bytes become leading '1's one for one |
| Base58.ZerosEncoded | src/base58.c:59-111 | zero bytes alone get one '1' too many |
| Base58.EncodedExample | src/base58.c:38-111 | the byte 0x61 is the text 2g |
| Base58.Encode | src/base58.c:59-111 | the text and its closing NUL, within a buffer of 138/100 of the length |
| Base58.Decode | src/base58.c:113-168 | the bytes, or -1 exactly for a character outside the alphabet |
| Base58.EncodeDigits | src/base58.c:76-94 | the carry loops turn the bytes into base-58 digits in place |
| Base58.DecodeDigits | src/base58.c:128-152 | the carry loops turn the characters into bytes in place; -1 exactly for an invalid character |
| Base58.DecodeDigit | src/base58.c:130-152 | one character; at most one byte per character is used |
| Base58.ReverseIn | src/base58.c:154-159 | reverses in place and touches nothing else |
| Base58.Shift | src/base58.c:79-93 | one round of carries is multiplication by the other base plus a digit |
| Base58.ShiftedDigits | src/base58.c:79-93 | long multiplication on canonical digits gives the canonical digits of the product |
| Base58.CarryBound | src/base58.c:79-93 | one step keeps a carry below the factor: at most 255 when encoding and 57 when decoding |
| Base58.ShiftDigits | src/base58.c:82-86 | the first carry loop multiplies the digits that are there, and the carry is below the factor after every step |
| Base58.ShiftCarry | src/base58.c:88-93 | the second carry loop appends the digits of the carry, which stays below the factor, within the buffer |
| Base58.HundredBytes | src/base58.c:63-63 | 256^100 is at most 58^138 |
| Base58.EncodeRoom | src/base58.c:63-63 | the digits of n bytes fit in n*138/100+1 cells |
| Base58.DecodeFits | src/base58.c:118-152 | a number of n base-58 digits has at most n bytes |
| Base58.DigitLookup | src/base58.c:38-57 | the table undoes the alphabet |
| Base58.LookupDigit | src/base58.c:38-57 | the alphabet undoes the table |
| CompactInt.RoundsDownExactly | src/compact_int.c:40-95 | for every number, encoding and decoding loses less than 256^(exp-3), downwards, exactly below 2^231 and for 2^256 - 1 |
| CompactInt.DecodedBytes | src/compact_int.c:40-95 | below 2^231 exactly the bytes below the mantissa are cleared |
| CompactInt.RoundsDown | src/compact_int.c:40-95 | below 2^231 the result is at most the input and less than 256^(exp-3) away |
| CompactInt.CutTooShort | src/compact_int.c:66-75 | above, at least 256^(exp-3) is lost |
| CompactInt.NotANumber | src/compact_int.c:54-64 | from 2^255 on there is no encoding, and the mark for that is decoded to 2^256 - 1 |
| CompactInt.ExponentLimit | src/compact_int.c:40-79 | the exponent is at most 29 exactly below 2^231 |
| CompactInt.CompareSign | src/compact_int.c:145-166 | comparing two encodings has the sign of comparing the decoded numbers, small and padded mantissas included |
| CompactInt.CutDisagrees | src/compact_int.c:81-166 | a number from 2^231 on that has an encoding looks larger than 0x7fffff * 256^26 and is decoded to less |
| CompactInt.ComparesExactly | src/compact_int.c:81-166 | a number compares as it is decoded with all numbers below 2^231 exactly when it is one of them or has no encoding |
| CompactInt.CompareWords | src/compact_int.c:168-179 | the sign of the numeric comparison; 0 exactly for equal bytes |
| CompactInt.Encode | src/compact_int.c:40-79 | the loop and the branches compute the encoding that the lemmas are about |
| CompactInt.CountDown | src/compact_int.c:44-48 | the end of the significant bytes |
| AutoBuffer.Buffer.Push | utils/auto_buffer.c:81-99 | the bytes are appended, or -1 and no change when the size does not fit in a word |
| AutoBuffer.Buffer.Pop | utils/auto_buffer.c:101-123 | what is taken and what stays make up what was there |
| AutoBuffer.Buffer.Resize | utils/auto_buffer.c:52-70 | there is room, and the contents stay |
| Framing.Node.OnRead | src/spv-node.c:155-212 | messages, leftover and return code for the pieces that are read |
| Framing.Node.Deliver | src/spv-node.c:181-206 | the inner loop delivers the complete frames and moves the rest to the front |
| Framing.CutIndependence | src/spv-node.c:155-204 | for every way of cutting a stream of accepted frames: the same messages in the same order and the same leftover as framing the whole stream at once |
| Framing.MessagesDelivered | src/spv-node.c:155-204 | messages written with magic number, 12 bytes of command, length, checksum and payload, cut in any way, are delivered as exactly these messages, and the beginning of an incomplete one is kept |
| Framing.WrittenFrame | src/spv-node.c:182-198 | whatever follows it, a written message is cut off at the end that its length announces |
| Framing.CallIndependence | src/spv-node.c:155-204 | the same over several calls |
| Framing.ScanInParts | src/spv-node.c:155-204 | framing what is there and then the leftover with the rest is framing everything |
| Framing.LeftIncomplete | src/spv-node.c:155-204 | without an error the leftover never holds a complete frame |
| Framing.HandlerCodeLost | src/spv-node.c:184-200 | with two frames in one buffer a handler's code is overwritten by the next one's |
| Framing.ScanSucceeds | src/spv-node.c:184-199 | for any buffer: the loop ends with 0 exactly when every complete frame has the right magic number and parses, and the handler of the last one returns 0 |
| Framing.ReadsSucceed | src/spv-node.c:166-204 | for any stream in any pieces: reading an open connection ends with 0 exactly when every complete frame parses and no read ends with a frame whose handler fails |
| Framing.ScanParsable | src/spv-node.c:184-199 | when all frames parse, whatever the handlers return, all frames of a buffer are delivered and the code is the one for the last |
| Framing.FailureSeen | src/spv-node.c:184-199 | when all frames parse and some handler fails, that is seen exactly when the handler of the last complete frame fails |
| Framing.NoFailureSeen | src/spv-node.c:166-204 | when all frames parse and no read ends with a handler that fails, everything is delivered and 0 returned, whatever failed in between |
| Framing.FirstFailureSeen | src/spv-node.c:166-204 | when all frames parse, the first read that ends with a handler that fails ends reading, and its code is returned |
| Framing.FailureSeenByReads | src/spv-node.c:166-204 | when all frames parse, reading fails exactly when some read ends with a frame whose handler fails |
| Framing.HandlerCodeLostExample | src/spv-node.c:166-204 | two messages whose code is seen in two reads and lost in one |

## Left out

- Sockets, polling, threads, locks, configuration, the database engine: the headers database is a map that the callbacks keep, and both callbacks are always set.
- Hash functions, public keys and signatures: parameters. CHECKSIG and CHECKSIGVERIFY are one parameter of the interpreter, with every possible effect on the stack.
- Scripts of P2SH and segregated witness inputs before and after the interpreter loop (src/satoshi-script.c:1136-1397).
- Stack items beyond the first allocation of 64, where growing clears the wrong part: the run is `Halted`.
- Growth of the array of main chain blocks, which has the same defect: the capacity is fixed and large enough.
- The comparison function of the AVL tree: keys are integers with their order.
- Allocation failure, freeing and leaks.
- ParseVarstr: a total size of 2^63 or more is negative as a signed number, passes the length check and stops the process at the next assertion; the eight sizes that wrap around to less than nine bytes are treated alike.
- ParseVarint: a number that is cut off by the end of the bytes is rejected; the library may have read past the end before it rejects.
- The `flags` of an output, which are read from the first bytes of its script.
- The proof-of-work verdict on a block header: a parameter of the block parser.
- The signature hash state of transactions without witnesses (src/satoshi-tx.c:778-895), and attaching a transaction to no existing object.
- `blockchain_add` on chains with forks: a head that several children claim is linked into a cycle. Fork choice is proved on the array and the trees separately.
- Add: the work of a block is positive, and all blocks come from one chain without forks with distinct hashes; so for Assemble.
- Assemble: see Add.
- Claim: the head that is replaced has one child, as it has on chains without forks.
- Remove: the chain is in the list and its head has no children any more, as wherever the library calls it.
- AddChild: a child that still has a next sibling would bring its siblings along under a wrong parent.
- search_tree_traverse_BFS: only its effect on a line of first children is modelled.
- Update: a tracked heir must be unset, the first node, or a leader with its right sum; a stale sum would stay.
- UpdateAndDeclare: the selection starts from nothing, as it does when a branch joins a chain; one that starts from an earlier leader, as for a new chain, is `Update` followed by `DeclareHeir`.
- NewChain: the pointer from a head back to its chain is a field `owner`, where the library casts the head's address.
- Decode: a length that is given separately, be it shorter than the string or beyond its closing NUL, and characters outside ASCII.
- Encode: in `Base58`, the form that writes into a buffer of the caller.
- CompareSign: numbers below 2^231; ComparesExactly is about the others.
- ScanParsable: buffers in which every complete frame parses; so for FailureSeen, NoFailureSeen, FirstFailureSeen and FailureSeenByReads. ScanSucceeds and ReadsSucceed are about all.
- FailureSeen: see ScanParsable.
- NoFailureSeen: see ScanParsable.
- FirstFailureSeen: see ScanParsable.
- FailureSeenByReads: see ScanParsable.
- Compact targets with a set sign bit, division, addition and floating-point difficulty.
- Parse: in `TxObject`, the object is blank before, as it is in the library; flag and witnesses of an older transaction would stay.
- Push: in `AutoBuffer`, totals in the last 4096 values below 2^64, where rounding the size up wraps around and the copy overruns the buffer.
- Resize: in `AutoBuffer`, the same sizes.
- ParseRecords: the library has this loop once for inputs, once for outputs and once for witness items; so has PutMany for writing, and Base58.Shift for both directions.
- Base64, hex, dumps, message tables and command-line tools.
