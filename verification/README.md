# Verified models of the server components

A Dafny 4.11 project beside the repository.  It models six groups of components and proves
what they promise: the two pointer red-black trees, the JSON reader and printers, the consistent
hashing ring, streaming MD5, the two C thread pools, and the timers and the radix tree.
`dafny verify dfyconfig.toml` checks all of it.

## Reading guide

Code that changes things in place is a class whose methods change the same fields in the same
order; each method is proved against a function of the old state or against a property that
does not mention the code.  The properties themselves are lemmas about those functions.

**Red-black trees.**  `RbShape` reads the links of a tree as a value: a `Memory` records the
fields of every node, `State` says that this record spells out a context around a subtree, with
every parent link right and no node twice.  `RbMemory`, `RbBalance` and `RbUnlink` say what the
stores, the fix-up cases and the removal of a successor do to such a value; `RbOrder` is about
the in-order sequence.  `RbTree` is `tree/rbtree/rbtree.c` over them.  The loop invariants are
`RedAt` (everything in order, but a red node may have a red parent) and `Deficit` (the paths
through the focus have one black node too few).  `UtilRbtree` is `libconhash/util_rbtree.c`:
the same shapes, read through a sentinel.  Its early return leaves the new root with a parent
link to the node just deleted, so nothing is claimed of the root's parent link but that it
leads out of the tree, and the insertion asks that what it leads to be black
(`RootParentBlack`), which every operation keeps.

**JSON.**  `JsonScan` and `JsonParse` describe the reader as functions of the unread text, the
class in `JsonReader` follows the source with a cursor, a stack and an error list and is proved
to deliver those outcomes, errors and recovery included.  `JsonPrint` says what the printers
write and `JsonWriter` is the printers.  A text is tied to a value through its lexemes
(`JsonText`): both printers spell the lexemes of the value, the reader reads any text that
spells them as the value (`JsonRoundTrip`), and whatever the reader makes of any text is a
value that comes back unchanged (`JsonSound`).  `JsonLexical` says by the characters where the
tokens begin and end, `JsonGrammar` which texts are accepted, and as what; `JsonLayout` how the
printed texts look; `JsonOrder` which order `operator<` is.  A character is a byte and a string
is a C string.  `sscanf` and `sprintf` are not modelled: a double is known by the text that prints it,
and `Config.scan` is any function from number texts to doubles.

**Consistent hashing.**  `HashRing` is the ring as a map from points to servers, with the
guarantee that only necessary objects move; `ReplicaNames` has the texts that are hashed;
`ConHash` keeps such a map in the tree, under any hash function.

**MD5.**  `Md5` folds any block function over a padded message and proves that the buffered,
piecewise state arrives at the same digest (sections 3.1 to 3.5 of RFC 1321).

**Thread pools.**  `ThreadPool` has the critical sections of the monitor queue over its linked
list, `ThreadPoolRuns` all their interleavings, spurious wake-ups included, `ThreadPoolEnds` how
these end, and `ThreadPoolCalls` what the calls come back with.  `TaskRing` is the ring buffer of the other pool.

**Timers and index.**  `TimeWheel` refines the bag of countdowns of `TimerRuns`; `TimeHeap` is
the array heap; `RadixTree` keeps a map, for any digit width and any greatest height.

Where the code differs from what its comments or messages say, the model follows the code, and a
lemma says when.  The JSON reader takes null for a strict root, though the message asks for an
array or an object; it takes any token but a closing bracket for a comma in an array (the test of
a bad token can never be true), and in an object any token behind a comment; it skips comments
before a name even when comments are switched off, reads `-` as zero, and lets a brace close an
object after a trailing comma when the last name was empty (`JsonLenient`).  It does not check
the second half of a surrogate pair (`JsonUtf8`), and turns integers close to the ends of their
ranges into doubles (`JsonRoundTrip`).  The pool never gets stuck exactly when it has a worker
and its bound is not 0, both of which `threadpool_init` leaves to its caller (`ThreadPoolRuns`),
and `threadpool_destroy` can free the pool under a call exactly when one is under way as it
closes the queue (`ThreadPoolEnds`).

## Model

| member | source | states |
|---|---|---|
| RbShape.ShapeIsDetermined | tree/rbtree/rbtree.h:115-128 | the links of the nodes determine the tree they form |
| RbShape.OrderNoDup | tree/rbtree/rbtree.c:314-340 | an in-order walk meets no node twice |
| RbShape.PlugRedBlack | tree/rbtree/rbtree.c:71-134 | a tree is red-black exactly when its subtree at any place and everything around it are, and they fit |
| RbMemory.TurnKeepsOrder | tree/rbtree/rbtree.c:25-69 | neither rotation changes the in-order sequence |
| RbMemory.TurnsAreInverse | tree/rbtree/rbtree.c:25-69 | the two rotations undo each other |
| RbMemory.TurnLeftState | tree/rbtree/rbtree.c:25-46 | after the stores of a left rotation every link and parent link is that of the rotated tree |
| RbMemory.TurnRightState | tree/rbtree/rbtree.c:48-69 | the same for a right rotation |
| RbBalance.RecolorStep | tree/rbtree/rbtree.c:81-91 | with a red uncle, recolouring moves the only violation two levels up |
| RbBalance.LineUpLeft | tree/rbtree/rbtree.c:93-100 | the first rotation keeps the violation where it is and lines the two red nodes up |
| RbBalance.LineUpRight | tree/rbtree/rbtree.c:118-125 | the mirror image |
| RbBalance.RaiseParentRight | tree/rbtree/rbtree.c:102-104 | the second rotation ends the violation |
| RbBalance.RaiseParentLeft | tree/rbtree/rbtree.c:127-129 | the mirror image |
| RbBalance.InsertDone | tree/rbtree/rbtree.c:133-134 | when the loop ends, a black root makes the whole tree red-black |
| RbBalance.RedSiblingLeft | tree/rbtree/rbtree.c:146-153 | a red sibling is traded for a black one, the missing black node staying below the focus |
| RbBalance.RedSiblingRight | tree/rbtree/rbtree.c:180-187 | the mirror image |
| RbBalance.PassUp | tree/rbtree/rbtree.c:154-160 | a black sibling with black children turns red and the missing node is one level up |
| RbBalance.FarRedLeft | tree/rbtree/rbtree.c:163-169 | a rotation at the sibling makes its far child red and keeps everything else |
| RbBalance.FarRedRight | tree/rbtree/rbtree.c:197-203 | the mirror image |
| RbBalance.SettleLeft | tree/rbtree/rbtree.c:170-175 | the last rotation makes up for the missing black node |
| RbBalance.SettleRight | tree/rbtree/rbtree.c:204-209 | the mirror image |
| RbBalance.EraseDone | tree/rbtree/rbtree.c:213-215 | painting the red focus, or the root, black makes the whole tree red-black |
| RbUnlink.OutBalance | tree/rbtree/rbtree.c:222-262 | taking out a red node costs nothing, a black one leaves the paths through its place one black node short |
| RbUnlink.SuccessorBalance | tree/rbtree/rbtree.c:226-256 | the same when the in-order successor takes the place and colour of the node |
| RbUnlink.OrderOut | tree/rbtree/rbtree.c:257-277 | a node with at most one child leaves the rest of the sequence as it was |
| RbUnlink.OrderSuccessorOut | tree/rbtree/rbtree.c:226-256 | so does a node replaced by its successor |
| RbUnlink.SuccessorMoved | tree/rbtree/rbtree.c:226-256 | the stores of that replacement leave every link and parent link right |
| RbOrder.NextPrev | tree/rbtree/rbtree.c:314-365 | the successor and predecessor relations are inverse to each other |
| RbOrder.TwiceShortest | tree/rbtree/README.txt:9-11 | the longest way from the root of a red-black tree to a leaf is at most twice as long as the shortest |
| RbOrder.Shallow | tree/rbtree/README.txt:9-11 | a red-black tree of n nodes has at most 2 log2(n + 1) levels |
| RbTree.Root.RotateLeft | tree/rbtree/rbtree.c:25-46 | the stores of a left rotation, in their order, and the root pointer after it |
| RbTree.Root.RotateRight | tree/rbtree/rbtree.c:48-69 | the stores of a right rotation, in their order, and the root pointer after it |
| RbTree.Root.InsertColor | tree/rbtree/rbtree.c:71-134 | after a red leaf has been linked anywhere, the loop ends with a red-black tree, all links right, whose sequence has just that node more, at that place |
| RbTree.Root.EraseColor | tree/rbtree/rbtree.c:137-215 | when one black node is missing below the focus, the loop ends with a red-black tree with the same sequence |
| RbTree.Root.Erase | tree/rbtree/rbtree.c:217-282 | the tree stays red-black with all links right and its sequence is the old one without the node |
| RbTree.Root.First | tree/rbtree/rbtree.c:288-298 | the first node in order, or null |
| RbTree.Root.Last | tree/rbtree/rbtree.c:301-311 | the last node in order, or null |
| RbTree.Root.Next | tree/rbtree/rbtree.c:314-340 | the node after the given one in order, null at the end and for a node in no tree |
| RbTree.Root.Prev | tree/rbtree/rbtree.c:343-365 | the node before the given one, null at the start and for a node in no tree |
| RbTree.Root.Walk | tree/rbtree/rbtree.c:288-340 | from the first node on, successors visit the whole in-order sequence, each node once, and end in null |
| RbTree.Root.WalkBack | tree/rbtree/rbtree.c:301-365 | from the last node on, predecessors visit it backwards |
| RbTree.Root.ReplaceNode | tree/rbtree/rbtree.c:368-389 | the sequence with one node for the other, everything else unchanged and valid |
| RbTree.Root.LinkNode | tree/rbtree/rbtree.h:165-172 | a red leaf at the given free link |
| RbTree.Root.Search | tree/rbtree/ex-rbtree.c:10-28 | the node with that id, or null when there is none |
| RbTree.Root.Insert | tree/rbtree/ex-rbtree.c:30-55 | 0 with the node added and the order kept, or -1 with nothing changed when a node with its id is there |
| RbTree.Root.Delete | tree/rbtree/ex-rbtree.c:57-70 | afterwards the nodes are the old ones with other ids |
| UtilRbtreeOrder.PlaceEnd | libconhash/util_rbtree.c:62-75 | the descent ends where the key belongs, behind equal keys |
| UtilRbtreeOrder.PlacedBetween | libconhash/util_rbtree.c:62-75 | that place lies between the keys that are not greater and those that are |
| UtilRbtreeOrder.CeilingEnd | libconhash/util_rbtree.c:414-429 | the search ends at the first node not below the key, or the first of all |
| UtilRbtreeOrder.TakenOverState | libconhash/util_rbtree.c:191-241 | the stores that put the successor in the place of the deleted node leave every link right |
| UtilRbtreeOrder.RootOut | libconhash/util_rbtree.c:178-184 | the early return leaves a red-black tree without the old root |
| UtilRbtree.Rbtree.constructor | libconhash/util_rbtree.c:25-33 | an empty tree with a black sentinel |
| UtilRbtree.Rbtree.RotateLeft | libconhash/util_rbtree.c:329-359 | the stores of a left rotation; the root's parent link is handed on |
| UtilRbtree.Rbtree.RotateRight | libconhash/util_rbtree.c:361-391 | the stores of a right rotation; the root's parent link is handed on |
| UtilRbtree.Rbtree.InsertFixup | libconhash/util_rbtree.c:87-143 | the loop, which looks above the root too, ends with a red-black tree with the new node in its place |
| UtilRbtree.Rbtree.Insert | libconhash/util_rbtree.c:49-84 | the sequence with the node behind all keys not above its own, size included; a black node stays above the root |
| UtilRbtree.Rbtree.DeleteFixup | libconhash/util_rbtree.c:252-327 | from one missing black node to a red-black tree with the same sequence, the sentinel standing in for an empty focus |
| UtilRbtree.Rbtree.Delete | libconhash/util_rbtree.c:146-249 | the tree stays valid and its sequence is the old one without the node; a black node stays above the root |
| UtilRbtree.Rbtree.Search | libconhash/util_rbtree.c:393-407 | a node with that key, or null when there is none |
| UtilRbtree.Rbtree.Lookup | libconhash/util_rbtree.c:409-432 | the first node whose key is not below the given one, else the first of all, null in an empty tree |
| UtilRbtree.Rbtree.Min | libconhash/util_rbtree.c:35-40 | the first node in order, or null |
| UtilRbtree.Rbtree.MidTravel | libconhash/util_rbtree.c:530-551 | the callback gets the nodes in order, each once |
| HashRing.OneServer | libconhash/conhash.c:93-111 | at most one server serves a hash value |
| HashRing.SomeServer | libconhash/conhash.c:93-111 | on a ring with any point every hash value has a server, wrap-around included |
| HashRing.AddedPoints | libconhash/conhash_inter.c:38-60 | adding takes exactly the points that are free and leaves the others with their servers |
| HashRing.RemovedPoints | libconhash/conhash_inter.c:62-86 | deleting takes away exactly the server's points among its own hash values |
| HashRing.AddMovesToNew | libconhash/conhash.c:57-73 | after a server is added every object is where it was or on the new server |
| HashRing.DeleteMovesOwn | libconhash/conhash.c:75-91 | after a server is deleted only objects it served have moved |
| HashRing.AddedMoves | libconhash/conhash.c:57-73 | the same for the hash values of all objects at once |
| HashRing.RemovedMoves | libconhash/conhash.c:75-91 | the same for the hash values of all objects at once |
| HashRing.DeleteLeavesNone | libconhash/conhash_inter.c:62-86 | no point leads to a deleted server |
| HashRing.AddThenDelete | libconhash/conhash.c:57-91 | adding a server and deleting it restores the ring, whatever collides |
| HashRing.DeleteThenAdd | libconhash/conhash.c:57-91 | the other way round restores it if and only if all its hash values were taken |
| ReplicaNames.NameIs | libconhash/conhash_inter.c:29-36 | the text hashed for a replica: the name, a dash, and at least three digits that denote its number |
| ReplicaNames.NamesDiffer | libconhash/conhash_inter.c:29-36 | replicas of different servers, or with different numbers, have different texts |
| ReplicaNames.AllReplicas | libconhash/conhash_inter.c:38-60 | under a hash function that tells such texts apart, a server none of whose points is taken gets one for each replica |
| ReplicaNames.PointsDiffer | libconhash/conhash_inter.c:38-60 | and servers with other names have other points |
| ConHash.Server.SetNode | libconhash/conhash.c:50-55 | the name cut or filled up to 63 characters, the last one as it was; the C string is the name cut to 63 characters if, and it ends in the buffer if and only if, the name is shorter or the last character was a NUL; flags that allow the node to be added |
| ConHash.NameOfCopy | libconhash/conhash.c:52-52 | the C string in a buffer that strncpy filled, whatever its last character was |
| ConHash.LookupServes | libconhash/conhash.c:101-109 | the node the tree finds is the point that serves the hash value |
| ConHash.Ring.AddReplicas | libconhash/conhash_inter.c:38-60 | the loop adds the free points of the server |
| ConHash.Ring.DelReplicas | libconhash/conhash_inter.c:62-86 | the loop deletes the server's points |
| ConHash.Ring.AddNode | libconhash/conhash.c:57-73 | 0 if and only if the node is initialised and not in; then it is in, no point led to it before, the ring has its free points, and every object is where it was or on it; as many points more as it has replicas, when its name is its own and the hash function tells the texts apart |
| ConHash.Ring.DelNode | libconhash/conhash.c:75-91 | 0 if and only if the node is in; then it is out, no point leads to it, and only objects it served have moved |
| ConHash.Ring.AddThenDel | libconhash/conhash.c:57-91 | a server added and deleted again leaves ring and servers as they were |
| ConHash.Ring.Lookup | libconhash/conhash.c:93-111 | the server that serves the hash of the key, one of those in the ring; null if and only if there are no points |
| ConHash.Ring.CountsPoints | libconhash/conhash_inter.h:24-29 | ivnodes is the number of points |
| ConHash.Ring.Fini | libconhash/conhash.c:35-48 | deleting the root until there is none empties the tree |
| Md5.FoldLast | libconhash/md5.c:351-353 | folding one more block is one more call of the block function |
| Md5.CountStep | libconhash/md5.c:333-337 | the two-word addition with carry counts the bits of the longer message |
| Md5.CountOffset | libconhash/md5.c:327-327 | the offset and the padding length computed from the bit count are those of the byte length |
| Md5.PaddedInjective | libconhash/md5.c:360-378 | different messages below 2^61 bytes are padded to different texts |
| Md5.WordBytesDenote | libconhash/md5.c:373-380 | the four bytes of a word, low byte first, make up the word |
| Md5.LengthBytesDenote | libconhash/md5.c:372-377 | the last eight bytes are the number of bits modulo 2^64, byte by byte, the low one first |
| Md5.PaddedIs | libconhash/md5.c:360-378 | what is folded: the message, 0x80, as few zeros as fill the last block, and the length |
| Md5.RegisterBytesDenote | libconhash/md5.c:379-380 | the digest is the four registers, the low byte of each first |
| Md5.StartBytes | libconhash/md5.c:312-320 | the registers begin as section 3.3 of RFC 1321 has them, 01 23 45 67 89 ab cd ef fe dc ba 98 76 54 32 10 |
| Md5.State.CountsBits | libconhash/md5.c:333-337 | the two words hold 8 times the length modulo 2^64 |
| Md5.State.Append | libconhash/md5.c:322-358 | the state of the longer message, however it is cut into calls |
| Md5.State.Finish | libconhash/md5.c:360-381 | the digest of the whole message: the block function folded over the one-shot padding |
| Md5.DigestOf | libconhash/conhash_util.c:7-14 | init, one append and finish compute the digest |
| JsonValue.StrTrichotomy | http_codec/json/json_value.cpp:229-243 | exactly one of less, equal, greater for keys |
| JsonValue.StrTransitive | http_codec/json/json_value.cpp:229-243 | the order of keys is transitive |
| JsonValue.PutAscending | http_codec/json/json_value.cpp:1062-1082 | the map stays ordered and finds what was put under a key |
| JsonValue.PutLookup | http_codec/json/json_value.cpp:1062-1082 | what was put is found under its key, and every other key leads where it led before |
| JsonValue.PutAllLookup | http_codec/json/json_value.cpp:1062-1082 | each key leads to the value put last under it |
| JsonValue.EqualIsEquality | http_codec/json/json_value.cpp:666-708 | operator== is equality of whole trees without reals |
| JsonValue.Trichotomy | http_codec/json/json_value.cpp:604-646 | exactly one of less, equal, greater, over all nested values without reals |
| JsonValue.Transitive | http_codec/json/json_value.cpp:604-646 | operator< is transitive over them |
| JsonOrder.StrLessIs | http_codec/json/json_value.cpp:229-235 | keys: a proper prefix comes first, or the lesser character at the first difference |
| JsonOrder.KindsAscend | http_codec/json/json_value.cpp:604-609 | of values of different kinds: null, ints, unsigned ints, strings, bools, arrays, objects |
| JsonOrder.ScalarsAscend | http_codec/json/json_value.cpp:610-627 | ints and unsigned ints by their numbers, false before true, strings by their first difference |
| JsonOrder.ArraysAscend | http_codec/json/json_value.cpp:628-636 | a shorter array comes first, and of two as long the first element that differs decides |
| JsonOrder.ObjectsAscend | http_codec/json/json_value.cpp:628-636 | the same for objects by their members, the name of a member before its value |
| JsonReader.Reader.GetNextChar | http_codec/json/json_reader.cpp:806-813 | the next character, NUL at the end, the cursor never beyond it |
| JsonReader.Reader.SkipSpaces | http_codec/json/json_reader.cpp:348-359 | the cursor at the first character that is no blank |
| JsonReader.Reader.ReadToken | http_codec/json/json_reader.cpp:273-345 | one token of the text, and the text left |
| JsonReader.Reader.ReadString | http_codec/json/json_reader.cpp:463-476 | stops behind the first quote that is not escaped |
| JsonReader.Reader.ReadCStyleComment | http_codec/json/json_reader.cpp:425-435 | stops behind the end of the comment, or fails at the end of the text |
| JsonReader.Reader.DecodeStringTo | http_codec/json/json_reader.cpp:657-701 | the decoded text, or the error and its token |
| JsonReader.Reader.DecodeUnicodeCodePoint | http_codec/json/json_reader.cpp:703-731 | the code point and how far it reads, or the error |
| JsonReader.Reader.DecodeNumber | http_codec/json/json_reader.cpp:581-616 | an int, an unsigned or a double, or the error |
| JsonReader.Reader.RecoverFromError | http_codec/json/json_reader.cpp:773-787 | skips to the given token or the end, without new errors |
| JsonReader.Reader.ReadArray | http_codec/json/json_reader.cpp:538-578 | the array, text left and errors of the description, lenient commas included |
| JsonReader.Reader.ReadObject | http_codec/json/json_reader.cpp:479-535 | the object, text left and errors of the description |
| JsonReader.Reader.ReadValue | http_codec/json/json_reader.cpp:194-242 | ends on every text with the described value, errors and text left, the stack as deep as before |
| JsonReader.Reader.Parse | http_codec/json/json_reader.cpp:150-191 | ends on every text; true if and only if the error list is empty; the stack holds only the root |
| JsonLexeme.EscapeBack | http_codec/json/json_writer.cpp:111-172 | decoding an escaped string gives it back, control characters included |
| JsonLexeme.EscapeSkipped | http_codec/json/json_reader.cpp:463-476 | no quote inside an escaped string ends it |
| JsonLexeme.StringLexeme | http_codec/json/json_reader.cpp:294-297 | a quoted string is read as one token that decodes to the string |
| JsonLexeme.NumberLexeme | http_codec/json/json_reader.cpp:451-461 | a number is read as one token when no number character follows |
| JsonLexeme.DecBack | http_codec/json/json_reader.cpp:597-608 | the digit loop gives a number back if and only if a tenth of it is below the threshold |
| JsonRoundTrip.NegativeLimit | http_codec/json/json_reader.cpp:597-606 | for negative integers that means down to -2147483639 |
| JsonRoundTrip.ReadsNumber | http_codec/json/json_reader.cpp:581-643 | a printed number is read as the integer of the right type or as a double |
| JsonRoundTrip.ReadsElems | http_codec/json/json_reader.cpp:549-576 | the elements of an array come back in order |
| JsonRoundTrip.ReadsMembers | http_codec/json/json_reader.cpp:485-531 | the members of an object, in any order and with names repeated, are put into its map one after the other |
| JsonRoundTrip.LastSpelled | http_codec/json/json_reader.cpp:479-535 | whatever their order and repetitions, the object has the names that are spelled, and each leads to the value spelled last under it |
| JsonRoundTrip.ReadsValue | http_codec/json/json_reader.cpp:194-242 | any text that spells a value is read as it, up to the ends of the integer ranges |
| JsonRoundTrip.ParsesSpelling | http_codec/json/json_reader.cpp:150-191 | parse gives the value back without an error, save for a strict root that is neither an array nor an object nor null |
| JsonRoundTrip.RereadIsSame | http_codec/json/json_reader.cpp:597-615 | it is the same value if and only if its ints are not below -2147483639, its unsigned ints lie in 2147483648..4294967289, its doubles print exactly and its members are in order, as they are in a map |
| JsonSound.AccumulateBounded | http_codec/json/json_reader.cpp:597-608 | the digit loop never leaves the range of an unsigned int |
| JsonSound.ReadsSound | http_codec/json/json_reader.cpp:194-616 | from any text, errors or not, come only values in those ranges, with C strings and ascending keys |
| JsonSound.RereadsWhatWasRead | http_codec/json/json_reader.cpp:150-191 | what was read from any text is read again from every text that spells it |
| JsonLexical.BlanksSkipped | http_codec/json/json_reader.cpp:347-357 | exactly space, tab, line feed and carriage return are skipped |
| JsonLexical.KindIs | http_codec/json/json_reader.cpp:273-345 | the first characters decide which token it is, and anything else is an error token |
| JsonLexical.StringEnds | http_codec/json/json_reader.cpp:463-476 | a string ends at the first quote that is not escaped |
| JsonLexical.StringBegins | http_codec/json/json_reader.cpp:463-476 | and every string token is such a text |
| JsonLexical.CommentEnds | http_codec/json/json_reader.cpp:425-435 | a comment that began with slash and star ends at the first star with a slash behind it |
| JsonLexical.CommentUnclosed | http_codec/json/json_reader.cpp:425-435 | and is an error when there is none |
| JsonLexical.LineCommentEnds | http_codec/json/json_reader.cpp:438-448 | a comment that began with two slashes ends with its line or with the text |
| JsonLexical.HexDigitIs | http_codec/json/json_reader.cpp:741-755 | the sixteen digits of either case |
| JsonLexical.EscapeIs | http_codec/json/json_reader.cpp:666-690 | the eight one-letter escapes and the codes they stand for |
| JsonLexical.EscapeIsNot | http_codec/json/json_reader.cpp:691-693 | any other letter but u is an error |
| JsonLexical.DigitsRead | http_codec/json/json_reader.cpp:597-608 | the digit loop computes what the digits denote, leading zeros or not, unless all but the last reach the threshold |
| JsonGrammar.NumberIs | http_codec/json/json_reader.cpp:581-616 | which number, or double, a number token is accepted as |
| JsonGrammar.TextRead | http_codec/json/json_reader.cpp:194-578 | a text that a document derives is read as the value it denotes |
| JsonGrammar.Derived | http_codec/json/json_reader.cpp:194-578 | and what is accepted is such a text |
| JsonGrammar.Accepts | http_codec/json/json_reader.cpp:194-578 | a text is accepted as a value if and only if a document of the grammar derives it and denotes the value |
| JsonGrammar.ParseAccepts | http_codec/json/json_reader.cpp:150-191 | parse returns true if and only if the text begins with such a document, an array, object or null where the root must be |
| JsonGrammar.RecoverIs | http_codec/json/json_reader.cpp:773-787 | recovery goes on behind the first token of the kind it looks for, or at the end of the text |
| JsonGrammar.OneError | http_codec/json/json_reader.cpp:773-798 | a value that is not accepted is reported once, with a message that fits the token it is about |
| JsonWriter.UintToString | http_codec/json/json_writer.cpp:30-40 | the digits, filled in backwards before a NUL, and no other place of the buffer before them |
| JsonWriter.IntToString | http_codec/json/json_writer.cpp:42-54 | the decimal text of any Int, the least one included |
| JsonWriter.UIntToString | http_codec/json/json_writer.cpp:57-64 | the decimal text of any UInt |
| JsonWriter.ValueToQuotedString | http_codec/json/json_writer.cpp:111-172 | the escaped string, by the short cut or the loop |
| JsonWriter.FastWriter.WriteValue | http_codec/json/json_writer.cpp:207-263 | appends the compact text of the value |
| JsonWriter.FastWriter.Write | http_codec/json/json_writer.cpp:197-204 | that text and a newline, YAML mode on or off |
| JsonWriter.StyledWriter.WriteIndent | http_codec/json/json_writer.cpp:445-457 | at most one newline and the indentation, by the last character |
| JsonWriter.StyledWriter.Unindent | http_codec/json/json_writer.cpp:475-480 | its assertion holds and the old indentation comes back |
| JsonWriter.StyledWriter.IsMultilineArray | http_codec/json/json_writer.cpp:404-432 | whether the array needs lines; childValues_ has one entry per element, or none in an array that does |
| JsonWriter.StyledWriter.WriteArrayValue | http_codec/json/json_writer.cpp:351-401 | the styled array, with the assertion at line 390 proved |
| JsonWriter.StyledWriter.WriteValue | http_codec/json/json_writer.cpp:290-348 | the styled document, or one collected entry while child values are collected |
| JsonWriter.StyledWriter.Write | http_codec/json/json_writer.cpp:276-287 | the styled text of the root and a newline |
| JsonPrint.FastSpells | http_codec/json/json_writer.cpp:207-263 | the compact text spells the lexemes of the value |
| JsonPrint.StyledSpells | http_codec/json/json_writer.cpp:290-457 | what the styled printer adds to a document spells the same lexemes, blanks apart |
| JsonLayout.FastIs | http_codec/json/json_writer.cpp:207-263 | the compact text is the lexemes and nothing else, save a blank behind each colon in YAML mode |
| JsonLayout.StyledRoot | http_codec/json/json_writer.cpp:276-287 | the styled text is the value laid out: each element and member on a line of its own, three blanks to the right of its bracket |
| JsonLayout.MultiLineIs | http_codec/json/json_writer.cpp:404-432 | an array goes on one line if and only if it has fewer than 25 elements, no containers but empty ones, and the line is shorter than 74 characters |
| JsonLayout.EscapedOnly | http_codec/json/json_writer.cpp:111-172 | quotes, backslashes and control characters are escaped, and nothing else is |
| JsonLayout.NoControls | http_codec/json/json_writer.cpp:111-172 | no control character is left in a printed string |
| JsonTokens.WritesTokens | http_codec/json/json_reader.cpp:273-345 | the tokens of a text are the lexemes it was written with |
| JsonTokens.SameTokens | http_codec/json/json_writer.cpp:207-480 | both printers' outputs have the same token sequence |
| JsonTokens.RoundTrip | http_codec/json/json_writer.cpp:207-480 | parsing either output succeeds, and gives an equal value if and only if the value is one that is kept |
| JsonTokens.RoundTripStrict | http_codec/json/json_reader.cpp:177-189 | with a strict root parsing either output succeeds if and only if the value is an array, an object or null |
| JsonTokens.ReadWriteRead | http_codec/json/json_reader.cpp:150-191 | read any text, write what came of it in either style, read that: the value is the same |
| JsonLenient.NullRoot | http_codec/json/json_reader.cpp:177-189 | null, written in any way, passes as a strict root, because isArray and isObject hold of it |
| JsonLenient.LoneMinus | http_codec/json/json_reader.cpp:597-611 | a minus sign that no number character follows is read as 0 |
| JsonLenient.AnySeparator | http_codec/json/json_reader.cpp:553-576 | any token does for a comma of an array, save a closing bracket; comments are skipped |
| JsonLenient.AfterElement | http_codec/json/json_reader.cpp:558-574 | after any element, any token but a closing bracket leads to the next element |
| JsonLenient.AnyPunctuation | http_codec/json/json_reader.cpp:553-576 | in particular punctuation of any kind does, with blanks or without |
| JsonLenient.CommasMissing | http_codec/json/json_reader.cpp:553-576 | `[1 2 3]` is read as the array of 1 and 3, without an error |
| JsonLenient.CommaOfObject | http_codec/json/json_reader.cpp:516-525 | a missing comma in an object is reported if and only if no comment follows the value |
| JsonLenient.AfterComment | http_codec/json/json_reader.cpp:526-531 | behind such a comment any token but a closing brace leads to the next member |
| JsonLenient.TrailingComma | http_codec/json/json_reader.cpp:485-531 | an object with one member and a comma behind it is accepted if and only if the name is empty |
| JsonLenient.BraceAfterComma | http_codec/json/json_reader.cpp:485-495 | wherever a name is due, a brace ends the object if and only if the name before was empty |
| JsonLenient.CommentBeforeValue | http_codec/json/json_reader.cpp:194-200 | a comment before a value is skipped when comments are on and the one error when they are off |
| JsonLenient.CommentBeforeName | http_codec/json/json_reader.cpp:485-491 | a comment before a name is skipped, whether comments are on or off |
| JsonUtf8.EscapesDecode | http_codec/json/json_reader.cpp:646-756 | scalar values written as escapes or surrogate pairs decode to their UTF-8, one after the other |
| JsonUtf8.Utf8Read | http_codec/json/json_reader.cpp:69-103 | a decoder by the grammar of section 4 of RFC 3629 reads each encoding back |
| JsonUtf8.Utf8Injective | http_codec/json/json_reader.cpp:69-103 | different sequences of scalar values give different bytes |
| JsonUtf8.ScalarExactly | http_codec/json/json_reader.cpp:703-731 | an escape gives well-formed UTF-8 if and only if its first unit is no low surrogate |
| JsonUtf8.SecondHalf | http_codec/json/json_reader.cpp:711-728 | after a high surrogate any second escape is taken, and the character read is the one that was written if and only if the second unit is a low surrogate |
| JsonUtf8.ReadAsWritten | http_codec/json/json_reader.cpp:703-756 | an escape that is taken is a scalar value's own, read as that value, if and only if no low surrogate comes first and after a high one a low one comes second |
| JsonUtf8.SecondHalfUnchecked | http_codec/json/json_reader.cpp:720-722 | two escapes, one of them no pair, that decode to the same character |
| ThreadPool.Pool.constructor | threadpool/threadpool(C Implement)/threadpool.c:19-61 | an empty open queue |
| ThreadPool.Pool.TryAdd | threadpool/threadpool(C Implement)/threadpool.c:81-112 | sleeps, refuses, or appends the job to the linked list; the count is the length of the list |
| ThreadPool.Pool.TryTake | threadpool/threadpool(C Implement)/threadpool.c:121-153 | sleeps, exits, or takes the first job, and whom it wakes |
| ThreadPool.Pool.TryDestroy | threadpool/threadpool(C Implement)/threadpool.c:164-178 | refuses a second call, sleeps while there are jobs, or closes the pool |
| ThreadPoolRuns.FifoKept | threadpool/threadpool(C Implement)/threadpool.c:75-159 | every step keeps: accepted jobs are those taken followed by those queued, each accepted once, and exactly those whose add returned 0 |
| ThreadPoolRuns.BoundedKept | threadpool/threadpool(C Implement)/threadpool.c:82-110 | every step keeps the queue within queue_max_num |
| ThreadPoolRuns.OnceEachKept | threadpool/threadpool(C Implement)/threadpool.c:134-157 | every step keeps: a job taken is with one worker or has been carried out once |
| ThreadPoolRuns.NoLostWakeupKept | threadpool/threadpool(C Implement)/threadpool.c:100-180 | every step keeps, for any queue_max_num: nobody sleeps on a condition that holds, and no worker after the closing broadcasts |
| ThreadPoolRuns.RunsAreSafe | threadpool/threadpool(C Implement)/threadpool.c:75-185 | all of these in every state of every run, for any number of threads and any queue_max_num |
| ThreadPoolRuns.DestroyedMeansDone | threadpool/threadpool(C Implement)/threadpool.c:161-200 | when destroy returns 0 every accepted job has been taken in order and carried out exactly once |
| ThreadPoolRuns.DestroyedOnce | threadpool/threadpool(C Implement)/threadpool.c:165-169 | only one call of destroy returns 0 |
| ThreadPoolRuns.NeverStuckExactly | threadpool/threadpool(C Implement)/threadpool.c:75-185 | in every state of every run some thread can move while any call or job is unfinished, if and only if there is a worker and queue_max_num is not 0 (a negative one is no bound) |
| ThreadPoolRuns.NoRoomNoJobs | threadpool/threadpool(C Implement)/threadpool.c:82-85 | with queue_max_num 0 no job is ever accepted |
| ThreadPoolRuns.StuckWithoutRoom | threadpool/threadpool(C Implement)/threadpool.c:82-85 | with queue_max_num 0 and any number of workers, a run that ends with an adder and all workers asleep on an empty queue |
| ThreadPoolRuns.StuckWithoutWorkers | threadpool/threadpool(C Implement)/threadpool.c:171-174 | with no workers and any other queue_max_num, a run that ends with the destroyer asleep on a job that nobody takes |
| ThreadPoolEnds.ProgressNearer | threadpool/threadpool(C Implement)/threadpool.c:75-185 | every step that a thread takes of itself lowers, in this order: calls of add to come back, queue length, jobs under way, stages of destroy to go, threads awake |
| ThreadPoolEnds.ComesToRest | threadpool/threadpool(C Implement)/threadpool.c:75-185 | without new calls and spurious wake-ups no run goes on forever |
| ThreadPoolEnds.CarriedOn | threadpool/threadpool(C Implement)/threadpool.c:75-200 | any run can be carried on, without new calls, to where no thread can move |
| ThreadPoolEnds.AtRest | threadpool/threadpool(C Implement)/threadpool.c:75-200 | with a worker and queue_max_num not 0, where no thread can move every call has come back, the queue is empty, and every accepted job has been carried out exactly once |
| ThreadPoolEnds.FreedUnderCall | threadpool/threadpool(C Implement)/threadpool.c:170-200 | once destroy has closed the queue, and without another call beginning, the pool can be freed under a call if and only if one is under way then |
| ThreadPoolEnds.FreesUnderCall | threadpool/threadpool(C Implement)/threadpool.c:170-200 | how it comes to that: steps of the destroyer and the workers alone |
| ThreadPoolEnds.FreedUnderSleeper | threadpool/threadpool(C Implement)/threadpool.c:82-85 | a run to such an end, with an adder that had gone to sleep before |
| ThreadPoolCalls.AddComesTo | threadpool/threadpool(C Implement)/threadpool.c:81-112 | an add is refused if and only if the queue is closed, sleeps if and only if it is open and full, and else is appended |
| ThreadPoolCalls.TakeComesTo | threadpool/threadpool(C Implement)/threadpool.c:121-153 | a worker leaves if and only if the pool is closed, sleeps if and only if there is no job, and else takes the first |
| ThreadPoolCalls.DestroyComesTo | threadpool/threadpool(C Implement)/threadpool.c:164-178 | destroy is refused if and only if the queue is closed already, and closes the pool once the queue is empty |
| ThreadPoolCalls.ClosedForGood | threadpool/threadpool(C Implement)/threadpool.c:81-90 | over any run, once the queue is closed no job is accepted any more |
| ThreadPoolCalls.AnswersAtRest | threadpool/threadpool(C Implement)/threadpool.c:75-200 | where no thread can move: without a call of destroy every add has returned 0; else just one of those calls has, and all workers have left |
| TaskRing.PlacesDiffer | threadpool/threadpool(C Implement+plus)/threadpool.c:76-78 | less than a lap from the start no place comes twice, from place 0 or later |
| TaskRing.Ring.AddTask | threadpool/threadpool(C Implement+plus)/threadpool.c:59-84 | 0 and appended if and only if fewer than max_task_num - 1 are pending; no pending entry is overwritten |
| TaskRing.Ring.Take | threadpool/threadpool(C Implement+plus)/threadpool.c:127-145 | the oldest pending entry, or none if and only if there is none |
| TaskRing.FirstInFirstOut | threadpool/threadpool(C Implement+plus)/threadpool.c:59-149 | over any run of a queue: accepted in order is given out in order followed by pending, within capacity |
| TaskRing.Ring.Play | threadpool/threadpool(C Implement+plus)/threadpool.c:59-149 | any run of additions and takes on the ring is that run of a queue of capacity max_task_num - 1; what is given out and left is, in order, what was there and accepted |
| TimerRuns.FiresOnTime | timer/时间轮/time_wheel.h:80-204 | over any run a timer added with n ticks fires exactly in the (n+1)-th later tick, if left alone |
| TimerRuns.DeletedNeverFires | timer/时间轮/time_wheel.h:129-155 | a deleted timer never fires |
| TimerRuns.CountsDown | timer/时间轮/time_wheel.h:160-204 | a live timer counts the ticks and is gone one tick after its countdown reaches zero |
| TimerRuns.RunKeepsTime | timer/时间轮/time_wheel.h:80-204 | both at every place of any run of additions, deletions and ticks |
| TimeWheel.Wheel.WaitsFor | timer/时间轮/time_wheel.h:86-100 | the rotation and slot chosen for n ticks make a countdown of n |
| TimeWheel.Wheel.AddTimer | timer/时间轮/time_wheel.h:80-125 | the bag of countdowns with the new timer, at least one tick; null for a negative timeout; lists well formed |
| TimeWheel.Wheel.DelTimer | timer/时间轮/time_wheel.h:129-155 | the bag without the timer; lists well formed |
| TimeWheel.Wheel.Tick | timer/时间轮/time_wheel.h:160-204 | fires exactly the timers whose countdown is 0, once each, and takes one from all others; lists well formed |
| TimeWheel.Wheel.Play | timer/时间轮/time_wheel.h:80-204 | any run of a client on the wheel: each timer it adds fires in the tick it was added for and in no other, and never once deleted |
| TimeHeap.RootIsLeast | timer/时间堆/time_heap.h:127-134 | the first timer of a heap is the earliest |
| TimeHeap.FromArray | timer/时间堆/time_heap.h:56-83 | a heap of the given timers, or the exception if they exceed the capacity |
| TimeHeap.Heap.Heapify | timer/时间堆/time_heap.h:56-83 | the sift-down loop makes a heap with the same timers |
| TimeHeap.Heap.PercolateDown | timer/时间堆/time_heap.h:174-195 | a heap from the start place on, with the same timers |
| TimeHeap.Heap.Resize | timer/时间堆/time_heap.h:196-214 | twice the room, the same timers at the same places |
| TimeHeap.Heap.AddTimer | timer/时间堆/time_heap.h:94-116 | a heap with one timer more |
| TimeHeap.Heap.DelTimer | timer/时间堆/time_heap.h:117-125 | the callback is gone, the timer stays |
| TimeHeap.Heap.Top | timer/时间堆/time_heap.h:127-134 | an earliest timer, or null |
| TimeHeap.Heap.PopTimer | timer/时间堆/time_heap.h:136-148 | a heap without its first timer |
| TimeHeap.Heap.Tick | timer/时间堆/time_heap.h:149-170 | removes exactly the timers that are due, in order of expiry, and calls exactly the callbacks still there, once each |
| TimeHeap.CallableConcat | timer/时间堆/time_heap.h:160-165 | the callbacks called are those of the removed timers, one after the other, that are still there |
| RadixTree.MaxIndexFits | tree/radix-tree/radix-tree.c:26-38 | the table entry of a height is the greatest index without a digit above it |
| RadixTree.Digits | tree/radix-tree/radix-tree.c:126-130 | different indices part at some slot |
| RadixTree.Head.constructor | tree/radix-tree/radix-tree.c:40-47 | an empty tree with its table |
| RadixTree.Head.Extend | tree/radix-tree/radix-tree.c:49-86 | a height with room for the index, and the same map |
| RadixTree.Head.Place | tree/radix-tree/radix-tree.c:106-146 | the descent: the item is put, or the slot was taken and nothing changed |
| RadixTree.Head.Insert | tree/radix-tree/radix-tree.c:88-146 | 0 and the map with the item if the index was free, else 1 and nothing changed; every count is the number of slots in use |
| RadixTree.Head.Lookup | tree/radix-tree/radix-tree.c:149-179 | what the map has for the index, or null |

## Left out

- JSON reals: what `sscanf` and `sprintf` make of them; a double is known by its printed text, and infinities and not-a-number are not number texts.
- JSON comments in values: they are skipped where the reader skips them, but not collected or printed.
- JSON arrays with gaps and null string pointers; `StyledStreamWriter`; the internal map and array, which are compiled out.
- JSON strings with an embedded NUL: a value's string is the characters before its terminating NUL.
- JsonReader.Reader.ReadValue: the node stack holds values that are written back when they are popped, where the source holds pointers into the tree.
- The place inside a token that some JSON errors carry (`extra_`), and line and column messages.
- ReplicaNames.ReplicaName: takes the number of a replica as it is; from 2147483648 on the source prints it as a negative number.
- ConHash.Server.Name: without a NUL the name is all 64 characters of the buffer, where the source reads on behind it.
- UtilRbtree.Rbtree.Insert: does not admit the node that the root's parent link still leads to, because later fix-ups may then take it for the parent of the root.  It can only come back through the reuse of freed memory: `conhash_inter.c` frees every node it deletes, and `ConHash.Ring.AddNode` meets the condition with new nodes.
- util_rbtree_check, which skips right subtrees without a left child, and conhash_get_vnodes.
- The default hash function of the ring, and the width of `size` and `ivnodes`: they count without bound.
- The bit packing of rb_parent_color: parent and colour are two fields.
- Md5.State.Append: asks that the offset and the length of the data together fit an int, because the source adds them as ints.
- The rounds of the MD5 block function and its byte order.
- Failure of malloc, of mutex and thread creation, and memory reuse after free.
- The order in which the operating system grants a mutex: runs are any interleaving, and nothing is said about fairness.
- What a call does that is still in the pool when threadpool_destroy frees it: here it goes on as if the pool were there.
- Threads and condition variable of the ring pool: only what happens between its lock and unlock.
- Timer callbacks that add or delete timers themselves: a callback is an event in a list.
- TimeHeap.Heap.Valid: asks for a capacity of at least 1, because with 0 the first timer is written and `tick` reads outside the array; the constructors do not ask for it.
- TimeWheel.Wheel.DelTimer: asks that the timer be in the wheel, as a deleted timer is freed.
- RadixTree.Head.Insert: asks for an index below the greatest height, because the source looks beyond its table for any other; items are not null.
- radix_tree_delete and gang lookup, which mix up nodes and slot addresses; radix_tree_destroy does nothing.
- Sockets, event loops, processes, logging and the other programs of the repository.
