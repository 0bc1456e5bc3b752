# A verified model of uv-cpp

uv-cpp wraps libuv in C++ classes. Between the system calls sit a number of self-contained
algorithms, and those are what this project models and proves correct:

- **Red-black trees** of `tree.h`: a value model of the tree with a zipper for positions
  (`RedBlackModel`), and the loops over linked nodes with parent pointers and colours
  (`RedBlackTree`), proved against it.
- **Splay trees** of `tree.h`: the top-down splay with its two open spines (`SplayModel`,
  `SplayTree`), and what it does to the depth of the nodes it meets (`SplayDepth`).
- **The router's radix tree**: `RadixModel` says what a sequence of updates builds, `RadixOrder`
  what the order of the updates decides, and `RadixTree` splits and extends the nodes in place.
- **Byte order, buffers and frames**: `ByteOrder`, `Buffers` (the list, the wrap-around ring, and
  the abstract buffer over both), `Packets`.
- **The HTTP messages**: `Text` (searching and numbers as text), `HttpCommon`, `HttpRequest`,
  `HttpResponse` (with chunked bodies), `HttpServer`, which parses all that has arrived again
  with every fragment, `HttpStream`, which says what a connection's stream of requests comes to, and
  `HttpClient`, which parses what has arrived with every fragment and at the end of the connection.
- **The timer wheel and the heartbeat**: `TimerWheel`, the state machine `TcpServerModel` over
  accept, message, tick, close and completion, the life of a connection in it (`TcpServerLife`), and
  the objects of `TcpServer` that carry it out.
- **Callbacks posted to a loop by other threads**: the state machine `EventLoopModel` over the
  interleaved steps of the posting threads and of the loop, and the objects of `EventLoop`.

Code that changes objects in place is a class here too. Its methods are proved against functions
or relations on values, and the properties promised of the code are proved about those. In the
trees a ghost tree of nodes says what the pointers spell out, and the two mirror-image halves of
each macro are written once, with the side as a parameter. The virtual calls on `PacketBuffer` are
a choice between the two buffers. A `std::map` is gone through in an order that is left open, so
what is proved of a printed message holds for every order. Strings are sequences of characters, a
byte is a number below 256, and the widths of integers are written out where they matter: the
16-bit frame length, `stoi`'s 32-bit range, and the unsigned 64-bit sizes it is assigned to.

Where the code does not do what its callers may expect, a lemma says exactly when:

- a frame alone on its stream, however it is cut, is read if and only if its payload is at most 65531
  bytes long or no fragment ends inside it with four bytes or more there (`FrameReadIff`). The message
  size is a 16-bit number;
- only the whole of a request is taken for the whole if and only if it is *delimited*: its length is
  declared, or it has no content and no length that is a number (`OnlyWholeSucceedsIff`). A request
  with content and without such a length succeeds as soon as its header is there, with as much of
  the content as has come (`LengthlessSucceedsEarly`);
- a request with a declared length at the head of a stream is looked up if and only if some fragment
  ends where the request ends. Otherwise nothing that comes on the connection is ever looked up
  (`LookedUpIffCutAtEnd`, `OverfullStaysStuck`). A request without a numeric length takes whatever
  came with its header, a second request too, for its content (`LengthlessTakesAll`);
- of a stream of delimited requests, cut anywhere, those are looked up, once each and in order, up to
  the first that does not end where a fragment ends, if and only if nothing has run over into that one
  while it has no numeric length (`LeadingRunLookedUpIff`);
- of the responses that do not come in chunks, only those whose length is declared are completed by
  their whole and by nothing less (`HttpResponse.OnlyWholeSucceedsIff`). One with neither
  a numeric length nor chunks is never completed (`UnboundedNeverSucceeds`);
- a response in chunks succeeds as soon as its line of size zero is there, whatever has come of the
  trailer and the line break that section 4.1 of RFC 7230 puts behind it (`ChunkedReply`). So only its
  whole succeeds if and only if nothing is behind that line (`OnlyWholeChunkedIff`), which is so of no
  response that keeps to that section;
- the client does not clear its buffer when it has reported a response: it reports it again with every
  fragment that comes later (`ReportedWithEachLater`), and once more, with its chunks undecoded, when
  the connection ends (`ReportedAtEnd`). Only a response with nothing in it to tell where it is
  complete is reported exactly once (`OnceInAllIff`). A response whose connection ends early is reported
  as delivered if its header is there (`CutReportedAtEnd`);
- the client forgets a response whose size line holds no number (`ReportedAfterBad`), but not one whose
  header cannot be read: after that nothing is reported until the connection ends (`StuckOnMalformed`);
- a response is printed so that it can be read if and only if it has a reason, which a new one has not
  (`HttpResponse.RoundTrip`, `NoReasonIsError`);
- a path with a colon ends there, and the parameters behind it are part of the value (`ColonRoundTrip`);
- a frame with a wrong end byte takes what follows it for its rest, in steps of three bytes, up to the
  first step that meets an end byte (`WrongEnd`);
- a route with a wildcard character that is not its last can answer for other queries than its own
  (`StarInMiddle`), and a wildcard character in a query is matched by none (`StarInQuery`);
- what is queued when a loop ends stays queued for ever (`EndIsFinal`);
- the chunk decoder need not end: it does unless it is still going after as many turns as the body
  has positions and one more (`UndefinedIffStillGoing`), it does if no size line it reads is
  negative (`NonNegativeEnds`), and it does not on the body of `NegativeSizeNeverEnds`;
- a stored route is found unless some wildcard on the beginning of it was set before any route that
  goes along with it further than that wildcard does. Then the shortest such wildcard is found
  instead (`UnshadowedFindsItself`, `ShadowedFindsWildcard`; two runs are in
  `OrderDecidesShadowing`). With `UnshadowedFindsNext` for queries that are not stored, this says
  all that `get` returns for a non-empty query without a wildcard character, when wildcards stand only
  at the end of routes;
- a value stored under the empty key is never found (`GetIsLookUp`, and `SetEmptyKey` for why);
- a whole request is looked up through a null root if and only if nothing was registered for its
  method (`RequestCrashesIff`, `GetCrashes`). The model calls this `Crash`;
- the first of no lines is read if and only if the data begins with the end of a header
  (`UndefinedIff` for requests and for responses). The model calls this `Undefined`.

## Model

| member | source | states |
|---|---|---|
| RedBlackModel.HeightBound | libuv1.30.0/include/uv/tree.h:53-61 | a red-black tree of n nodes is at most 2 lg(n+1) high |
| RedBlackModel.PlugFits | libuv1.30.0/include/uv/tree.h:53-59 | a tree is red-black exactly when the subtree at any position is, and fits its surroundings |
| RedBlackModel.RotatedKeepsOrder | libuv1.30.0/include/uv/tree.h:342-380 | a rotation, to either side, keeps the order of the elements |
| RedBlackModel.InsertFixIsRedBlack | libuv1.30.0/include/uv/tree.h:407-449 | recolouring and rotating after an insertion ends with a red-black tree |
| RedBlackModel.InsertFixKeepsOrder | libuv1.30.0/include/uv/tree.h:407-449 | it keeps the elements and their order |
| RedBlackModel.RemoveFixIsRedBlack | libuv1.30.0/include/uv/tree.h:451-528 | repairing a missing black level, wherever it is, ends with a red-black tree |
| RedBlackModel.RemoveFixKeepsOrder | libuv1.30.0/include/uv/tree.h:451-528 | it keeps the elements and their order |
| RedBlackModel.HoleFits | libuv1.30.0/include/uv/tree.h:530-595 | where a removed element, or its successor, leaves a gap, the rest is red-black or one black level short there |
| RedBlackModel.RemovedIsRight | libuv1.30.0/include/uv/tree.h:530-595 | removal makes a red-black tree of all elements but the one removed, in order |
| RedBlackTree.Rotate | libuv1.30.0/include/uv/tree.h:342-380 | the pointers spell out the rotated tree, and all other links and the parents are right |
| RedBlackTree.InsertColour | libuv1.30.0/include/uv/tree.h:407-449 | the loop over the pointers does what the fix-up of the value does, keeps the set of nodes, and turns no more often than the position is deep |
| RedBlackTree.RemoveColour | libuv1.30.0/include/uv/tree.h:451-528 | the same for the fix-up after a removal |
| RedBlackModel.DepthWithin | libuv1.30.0/include/uv/tree.h:60-61 | a position is no deeper than the tree is high |
| RedBlackTree.Borrow | libuv1.30.0/include/uv/tree.h:472-490 | the rotations that end the loop when the sibling has a red child |
| RedBlackTree.Sibling | libuv1.30.0/include/uv/tree.h:458-464 | a red sibling is turned up so that a black one takes its place |
| RedBlackTree.Insert | libuv1.30.0/include/uv/tree.h:598-626 | order, colours and parents stay right; the element is added just when no other has its key, and otherwise that one is returned; at most twice as many turns as the tree was high |
| RedBlackTree.InsertedAt | libuv1.30.0/include/uv/tree.h:598-626 | a red leaf put where the search ends, with the fix-up, is one more element in its place |
| RedBlackTree.Remove | libuv1.30.0/include/uv/tree.h:530-595 | order, colours and parents stay right, exactly the given element is gone, and the search for the successor and the fix-up take no more turns each than the tree was high |
| RedBlackTree.RemoveAt | libuv1.30.0/include/uv/tree.h:530-595 | taking the element at a position out and repairing the colours makes of the nodes the removed tree of the model |
| RedBlackTree.RemovedAt | libuv1.30.0/include/uv/tree.h:530-595 | the tree after a removal is ordered, red-black and lacks just that element |
| RedBlackTree.RemoveInner | libuv1.30.0/include/uv/tree.h:539-582 | the successor takes the place of an element with two children, its own child moving up; found in fewer turns than the subtree is high |
| RedBlackTree.Find | libuv1.30.0/include/uv/tree.h:628-644 | finds the element with a key, or null exactly when there is none, in no more turns than the tree is high |
| RedBlackTree.FindAtLeast | libuv1.30.0/include/uv/tree.h:646-665 | finds the least element with at least the given key, or null exactly when there is none, in no more turns than the tree is high |
| RedBlackTree.Next | libuv1.30.0/include/uv/tree.h:667-687 | finds the element that comes right after another, through its right subtree or its parents, in no more turns than the tree is high |
| SplayModel.SplayedKeepsOrder | libuv1.30.0/include/uv/tree.h:209-242 | splaying keeps the elements and their order |
| SplayModel.SplayedIsNear | libuv1.30.0/include/uv/tree.h:209-242 | it brings the sought key, or a neighbour of it in order, to the root |
| SplayDepth.SplayHalves | libuv1.30.0/include/uv/tree.h:209-242 | every node met on the way to the key comes to lie no deeper than half as many as were met, and one |
| SplayModel.NearDecides | libuv1.30.0/include/uv/tree.h:128-137 | after it the key is in the tree just when it is at the root, and otherwise the root splits the elements around it |
| SplayModel.CrownedIsRight | libuv1.30.0/include/uv/tree.h:173-184 | the new root with the two halves below it is ordered and has one more element |
| SplayModel.NothingAbove | libuv1.30.0/include/uv/tree.h:199-203 | when no element is above the key, the splayed tree has no right subtree |
| SplayModel.UprootedIsRight | libuv1.30.0/include/uv/tree.h:195-205 | removal overwrites a right link that is empty, and leaves an ordered tree without the root's element |
| SplayTree.SplayStep | libuv1.30.0/include/uv/tree.h:218-240 | one turn of the loop makes the middle tree smaller or is the last, and keeps what the splay comes to |
| SplayTree.PutTogether | libuv1.30.0/include/uv/tree.h:112-117 | the two open spines and the middle tree are closed into one tree of all nodes |
| SplayTree.Splay | libuv1.30.0/include/uv/tree.h:209-242 | the pointers spell out the splayed tree of the same nodes |
| SplayTree.Find | libuv1.30.0/include/uv/tree.h:127-137 | finds the element with a key and leaves it at the root, or null exactly when there is none; the elements stay |
| SplayTree.Insert | libuv1.30.0/include/uv/tree.h:164-186 | stays ordered; the element is added, as root, just when no other has its key |
| SplayTree.Remove | libuv1.30.0/include/uv/tree.h:188-207 | stays ordered; the element with the key is taken out, or nothing changes when there is none |
| RadixModel.SetStores | uv/include/http/RadixTree.hpp:106-173 | setting a key stores that value under it and changes nothing else |
| RadixModel.SetIsProper | uv/include/http/RadixTree.hpp:106-173 | siblings keep differing in their first character; if no node key is empty, none becomes so |
| RadixModel.SetEmptyKey | uv/include/http/RadixTree.hpp:109-123 | setting the empty key in a tree that has nodes changes nothing that is stored |
| RadixModel.BuildRepresents | uv/include/http/RadixTree.hpp:65-173 | after any updates the tree stores exactly the map the same updates build, less the empty key |
| RadixModel.GetIsLookUp | uv/include/http/RadixTree.hpp:91-232 | with wildcard-free keys, getting any key is looking it up in that map |
| RadixModel.SetIsWild | uv/include/http/RadixTree.hpp:106-173 | with wildcards only at the end of keys, a node key that ends in one is a leaf after any splits |
| RadixModel.WildcardSound | uv/include/http/RadixTree.hpp:175-232 | what is found is the latest value of the query itself or of a wildcard whose stem is a prefix of it |
| RadixModel.WildcardComplete | uv/include/http/RadixTree.hpp:175-232 | a wildcard that alone covers a query, no other key sharing more with it, is found whatever the order of updates |
| RadixModel.StarInMiddle | uv/include/http/RadixTree.hpp:106-232 | two routes that part behind a wildcard character make every query that goes along with them just up to there find the value of the first |
| RadixModel.StarInQuery | uv/include/http/RadixTree.hpp:175-232 | a route that ends in a wildcard is found by itself and by no query that goes on behind the same character |
| RadixModel.EmptyQuery | uv/include/http/RadixTree.hpp:175-232 | the empty query finds nothing but a route that is only a wildcard |
| RadixOrder.SetFollows | uv/include/http/RadixTree.hpp:106-232 | how an update changes which wildcard stops a search: it can only bring one to where no key goes on yet |
| RadixOrder.ShadowedFindsWildcard | uv/include/http/RadixTree.hpp:175-232 | a query shadowed by wildcards finds the one with the shortest stem, with its latest value |
| RadixOrder.UnshadowedFindsItself | uv/include/http/RadixTree.hpp:175-232 | a stored query that no wildcard shadows finds its own latest value |
| RadixOrder.UnshadowedFindsNext | uv/include/http/RadixTree.hpp:175-232 | one that is not stored finds the wildcard right behind it if no other key begins with it, and otherwise nothing |
| RadixOrder.OrderDecidesShadowing | uv/include/http/RadixTree.hpp:175-232 | the same two updates in one order and in the other give two answers to the same query |
| RadixTree.CommonLength | uv/http/HttpCommon.cpp:95-106 | how many leading characters two strings share |
| RadixTree.Node.Split | uv/include/http/RadixTree.hpp:127-133 | a node becomes the prefix, its old contents its only child |
| RadixTree.Node.SetNode | uv/include/http/RadixTree.hpp:106-173 | the update in place makes of the nodes what the update of the value makes |
| RadixTree.Node.GetNode | uv/include/http/RadixTree.hpp:175-232 | the recursion over the nodes is the look-up in the value |
| RadixTree.RadixTree.Set | uv/include/http/RadixTree.hpp:65-77 | the nodes spell out what all updates so far, with this one, build |
| RadixTree.RadixTree.Get | uv/include/http/RadixTree.hpp:91-95 | with wildcard-free keys, what was last stored under the key, or none |
| ByteOrder.RoundTrip | uv/include/Packet.hpp:65-109 | unpacking undoes packing for every width and both orders |
| ByteOrder.RoundTripBytes | uv/include/Packet.hpp:65-109 | packing undoes unpacking |
| ByteOrder.ByteAt | uv/include/Packet.hpp:65-109 | which byte holds which digit of a number, in either order |
| ByteOrder.BitsOfByte | uv/include/Packet.hpp:74-106 | the shifts, the or and the mask are the sums, products and remainders that stand for them |
| ByteOrder.UnpackNum | uv/include/Packet.hpp:65-87 | the shifting loops, in an unsigned type of that width, give the number the bytes stand for |
| ByteOrder.PackNum | uv/include/Packet.hpp:89-109 | the masking loops write the digits of the number, and no byte beyond them |
| Buffers.ListBuffer.Append | uv/ListBuffer.cpp:28-33 | adds the bytes at the end |
| Buffers.ListBuffer.ReadBufferN | uv/ListBuffer.cpp:36-47 | adds the first bytes to the string and takes none off; refused, with the string unchanged, if there are fewer |
| Buffers.ListBuffer.ClearBufferN | uv/ListBuffer.cpp:54-63 | takes that many bytes off, or all |
| Buffers.SpanExtended | uv/CycleBuffer.cpp:28-50 | copying behind the write position, across the wrap, adds to what is readable and overwrites none of it |
| Buffers.CycleBuffer.UsableSize | uv/CycleBuffer.cpp:96-108 | usable and readable bytes are together one fewer than the slots |
| Buffers.CycleBuffer.UsableSizeInfo | uv/CycleBuffer.cpp:110-124 | the two free stretches, which together are as large |
| Buffers.CycleBuffer.ReadSizeInfo | uv/CycleBuffer.cpp:133-146 | the two readable stretches, which together are what is buffered |
| Buffers.CycleBuffer.Append | uv/CycleBuffer.cpp:28-50 | refused exactly when the bytes do not fit, and then nothing changes; otherwise they are added at the end |
| Buffers.CycleBuffer.ReadBufferN | uv/CycleBuffer.cpp:52-77 | the first bytes in order, across the wrap; refused exactly when there are fewer |
| Buffers.CycleBuffer.ClearBufferN | uv/CycleBuffer.cpp:79-87 | takes that many bytes off, or all |
| Buffers.Perform | uv/CycleBuffer.cpp:28-94 | every operation of either buffer is that of a queue: bounded by the slots less one, or unbounded |
| Buffers.SameUnlessRefused | uv/ListBuffer.cpp:28-69 | over any operations, the two buffers are told apart only by a refused append |
| Packets.Packet.Pack | uv/Packet.cpp:72-82 | the frame: head byte, length in the chosen order, payload, end byte |
| Packets.Packet.Swap | uv/Packet.cpp:105-109 | takes over a frame; the data size is that of the frame less four, modulo 2^16 |
| Packets.FrameHead | uv/Packet.cpp:50-53 | the first three bytes of a frame announce the length of its payload, and the rest is payload and end byte |
| Packets.OnTheWire | uv/Packet.cpp:72-82 | the bytes of a frame one by one, in either order |
| Packets.WrongEnd | uv/Packet.cpp:32-70 | after a frame with a wrong end byte a longer one is found if and only if one of the places 2, 5, 8 and so on behind it holds an end byte, and what is left in either case |
| Packets.ReadFromBuffer | uv/Packet.cpp:32-70 | the loop over either buffer is the scan of its bytes: the frame found or none, and the bytes left |
| Packets.ScanShrinks | uv/Packet.cpp:32-70 | on every byte stream a suffix is left, and every frame found takes at least four bytes |
| Packets.ScanFrame | uv/Packet.cpp:49-69 | a frame at the front of the buffer is read when it is whole and left untouched when it is not |
| Packets.OnMessage | examples/all_example/EchoServer.cpp:52-68 | append and read until refused ends, with the frames that draining gives, the payload of each, and the rest |
| Packets.FoundIsLong | uv/Packet.cpp:43-68 | no frame is found that is too short to hold its own head, length and end |
| Packets.Packet.GetData | uv/Packet.cpp:85-93 | of a packed payload, the payload |
| Packets.CarriesMore | uv/Packet.cpp:72-82 | head-free garbage, a packed frame and a stream of packets are together a stream of one packet more |
| Packets.FramingSurvivesFragmentation | uv/Packet.cpp:32-109 | packets with head-free garbage between them, cut in any way and drained after each append, are read exactly once each and in order, and their payloads are those packed |
| Packets.NotFromFewer | uv/Packet.cpp:32-70 | draining fewer bytes than a frame has never gives that frame |
| Packets.PartialFrameKept | uv/Packet.cpp:52-58 | one scan leaves a part of at least four bytes of a frame untouched if and only if its payload is at most 65531 bytes long |
| Packets.Deliver | examples/all_example/EchoServer.cpp:52-68 | over any fragments that fit the buffer, list or ring, the frames read, their payloads and the bytes kept are those of feeding the fragments one by one |
| Packets.FrameReadIff | uv/Packet.cpp:32-70 | however a frame that is alone on its stream is cut, it and nothing else is read if and only if its payload is at most 65531 bytes long or it is never there in part with four bytes or more |
| Packets.TwoPartsReadIff | uv/Packet.cpp:32-70 | a frame that arrives in two parts is what is read if and only if its payload is at most 65531 bytes long or the first part is shorter than four bytes |
| Text.StoiOfPrint | uv/http/Response.cpp:187-189 | `stoi` recovers a printed number of 32 bits, behind blanks and in front of anything that is no digit |
| Text.StoiOfDecimal | uv/http/Response.cpp:93-97 | `stoi` recovers every signed number of 32 bits that `to_string` prints |
| Text.StoiOfNumeral | uv/http/Response.cpp:187-189 | what any numeral is worth: blanks, either sign, the prefix of a hexadecimal one, digits in either case, anything behind; none out of the range of 32 bits |
| Text.StoiOfNoNumeral | uv/http/Response.cpp:187-189 | where there is no digit behind blanks and sign there is no number |
| Text.PrintSpells | uv/http/Response.cpp:93-97 | a number is printed in digits worth it, without a zero in front |
| HttpCommon.VersionRecovered | uv/http/HttpCommon.cpp:16-40 | a known version is recovered from its name |
| HttpCommon.VersionIff | uv/http/HttpCommon.cpp:16-40 | which two names are known, and that no others are |
| HttpCommon.SplitHttpOfCRLF | uv/http/HttpCommon.cpp:42-67 | the loop gives the end of the header and the lines before it |
| HttpCommon.HeaderEndsAt | uv/http/HttpCommon.cpp:44-45 | the header of non-empty lines ends at the first empty line, whatever the body holds |
| HttpCommon.SplitOfHeaded | uv/http/HttpCommon.cpp:42-67 | splitting a header gives back exactly its lines |
| HttpCommon.NoLinesIff | uv/http/HttpCommon.cpp:52-66 | a header without lines is one that ends at once |
| HttpCommon.SplitStrOfSpace | uv/http/HttpCommon.cpp:69-93 | the loop cuts off two words and the rest; 0 exactly when there are three |
| HttpCommon.WordsOfThree | uv/http/HttpCommon.cpp:69-93 | three words are recovered, and the third keeps its inner spaces |
| HttpCommon.ThreeWordsIff | uv/http/HttpCommon.cpp:69-93 | a line has three words if and only if it is two words with any spaces before each, a space, and something more |
| HttpCommon.WordsOfThreeSpaced | uv/http/HttpCommon.cpp:69-93 | those words are what is read |
| HttpCommon.ReadHeads | uv/http/Response.cpp:126-132 | the fields of the lines up to the first without a separator, later ones overwriting earlier |
| HttpCommon.AppendHeads | uv/http/Response.cpp:99-105 | the fields in the order of the map, each on a line |
| HttpCommon.HeadOfLine | uv/http/HttpCommon.cpp:108-119 | a key without ": " and any value are recovered from their line |
| HttpCommon.HeadsOfLines | uv/http/HttpCommon.cpp:108-119 | the lines of fields put them over those there were |
| HttpCommon.HeadsReadIff | uv/http/HttpCommon.cpp:108-119 | the fields are read to the end if and only if each line holds a separator |
| HttpCommon.HeadsUpToBad | uv/http/Request.cpp:169-177 | the fields before a bad line are kept, and those after it are not read |
| HttpRequest.MethonRecovered | uv/http/Request.cpp:212-278 | every method is recovered from its name |
| HttpRequest.MethonIff | uv/http/Request.cpp:212-278 | which nine names are known, and that no others are |
| HttpRequest.Request.PackPathParam | uv/http/Request.cpp:280-300 | the path with a leading slash and the parameters, the last ampersand taken off again |
| HttpRequest.Request.Pack | uv/http/Request.cpp:132-152 | prints the request, its maps in some order |
| HttpRequest.Request.UnpackParams | uv/http/Request.cpp:337-365 | the loop over the parameters, with its three ways to stop |
| HttpRequest.Request.UnpackPath | uv/http/Request.cpp:325-367 | a path with a value after a colon, or with parameters, or plain |
| HttpRequest.Request.UnpackUrl | uv/http/Request.cpp:302-323 | method, path and version, and the fields that are set before it fails |
| HttpRequest.Request.Unpack | uv/http/Request.cpp:155-180 | the request after parsing, in success and in each kind of failure |
| HttpRequest.Request.UnpackAndCompleted | uv/http/Request.cpp:182-210 | success, or not yet, by the declared length; a length that is no number counts as success |
| HttpRequest.UndefinedIff | uv/http/Request.cpp:157-168 | the first of no lines is read if and only if the data begins with the end of a header |
| HttpRequest.PathRecovered | uv/http/Request.cpp:280-367 | path and parameters are recovered, in whatever order they are printed |
| HttpRequest.LineRecovered | uv/http/Request.cpp:302-323 | so is the whole request line |
| HttpRequest.RoundTrip | uv/http/Request.cpp:132-180 | parsing recovers every printable request, the path with its leading slash, and any content |
| HttpRequest.RootedRoundTrip | uv/http/Request.cpp:132-180 | a request whose path begins with a slash is recovered as it was |
| HttpRequest.RootlessRoundTrip | uv/http/Request.cpp:280-300 | one whose path does not gains the slash and nothing else |
| HttpRequest.ColonCutsPath | uv/http/Request.cpp:325-336 | a target with a colon is a path up to and with its first colon, a value after it, and no parameters |
| HttpRequest.ColonRoundTrip | uv/http/Request.cpp:325-336 | so a printed request with a colon in its path is recovered with the path up to there, the printed rest as its value |
| HttpRequest.ParamsUpToBad | uv/http/Request.cpp:337-365 | parameters are read up to the first without an equals sign, and those before it are kept |
| HttpRequest.OnTheWire | uv/http/Request.cpp:132-152 | a printed request with two parameters and a field, character by character |
| HttpRequest.BlankOnTheWire | uv/http/Request.cpp:132-152 | so is a new request |
| HttpRequest.LineOfThree | uv/http/Request.cpp:302-323 | what any three words make of the request: only the name of the method can make them a bad line |
| HttpRequest.NotThreeWords | uv/http/Request.cpp:302-323 | a line of fewer words is bad and changes nothing |
| HttpRequest.ErrorIffMalformed | uv/http/Request.cpp:155-180 | a header is an error if and only if its first line is not three words with a known method, or a later one has no separator |
| HttpRequest.ArrivedCompleteIff | uv/http/Request.cpp:182-210 | whatever part of the content has come, the request is complete if and only if that is as long as Content-Length says, or if that is missing content-length, or no number is said |
| HttpRequest.CutUnpacked | uv/http/Request.cpp:155-180 | parsing a part of a printed request fails and sets nothing until the header is there, and from then on gives the request with the content so far |
| HttpRequest.PrefixFails | uv/http/Request.cpp:182-210 | no proper prefix of a delimited request is taken for the whole, or for a bad one; delimited means that its length is declared, or that it has neither content nor a length that is a number |
| HttpRequest.WholeSucceeds | uv/http/Request.cpp:182-210 | the whole of a delimited request is |
| HttpRequest.LengthlessSucceedsEarly | uv/http/Request.cpp:186-209 | without a length that is a number, the header with whatever has come behind it is taken for the whole |
| HttpRequest.OnlyWholeSucceedsIff | uv/http/Request.cpp:182-210 | every proper prefix fails and the whole succeeds if and only if the request is delimited |
| HttpResponse.Response.Pack | uv/http/Response.cpp:89-109 | prints the response, its fields in some order |
| HttpResponse.Response.UnpackStatus | uv/http/Response.cpp:210-231 | version, code and reason, and what is set before it fails |
| HttpResponse.Response.Unpack | uv/http/Response.cpp:111-136 | the response after parsing, in success and in each kind of failure |
| HttpResponse.Response.IsCompletedChunked | uv/http/Response.cpp:176-208 | the decoder's loop: result, and the decoded body on success only |
| HttpResponse.Response.UnpackAndCompleted | uv/http/Response.cpp:138-174 | by the declared length, or by the chunks, or not yet; an error counts as not yet |
| HttpResponse.UndefinedIff | uv/http/Response.cpp:113-124 | the same for responses |
| HttpResponse.StatusRecovered | uv/http/Response.cpp:210-231 | version, any signed 32-bit code and any non-empty one-line reason are recovered |
| HttpResponse.RoundTrip | uv/http/Response.cpp:89-136 | parsing recovers every printable response, with any content |
| HttpResponse.OnTheWire | uv/http/Response.cpp:89-109 | a printed response with a field, character by character |
| HttpResponse.BlankOnTheWire | uv/http/Response.cpp:18 | so is a new response |
| HttpResponse.NoReasonIsError | uv/http/Response.cpp:210-231 | a response without a reason, which a new one is, cannot be read when it is printed |
| HttpResponse.StatusOfThree | uv/http/Response.cpp:210-231 | what any three words make of the response: only a code that is no number makes them a bad line |
| HttpResponse.ErrorIffMalformed | uv/http/Response.cpp:111-136 | a header is an error if and only if its first line is not three words with a number, or a later one has no separator |
| HttpResponse.ArrivedCompleteIff | uv/http/Response.cpp:138-163 | whatever part of the content has come, a response not in chunks is complete if and only if that is as long as the field says |
| HttpResponse.DeclaredReply | uv/http/Response.cpp:138-163 | with its length declared, every proper prefix fails and the whole is recovered |
| HttpResponse.UnboundedNeverSucceeds | uv/http/Response.cpp:138-174 | with neither a length that is a number nor chunks, no part of a response succeeds and neither does the whole |
| HttpResponse.OnlyWholeSucceedsIff | uv/http/Response.cpp:138-174 | of a response that is not chunked, every proper prefix fails and the whole succeeds if and only if its length is declared |
| HttpResponse.PrintedSize | uv/http/Response.cpp:189 | a printed hexadecimal size, with or without an extension, is a size line |
| HttpResponse.SpelledSize | uv/http/Response.cpp:189 | so is one in digits of either case, with the prefix of a hexadecimal number or without |
| HttpResponse.BadSizeIsError | uv/http/Response.cpp:176-208 | good chunks and then a line without a number are an error, and nothing is decoded |
| HttpResponse.BadChunkedReply | uv/http/Response.cpp:138-208 | a response with such a line, cut anywhere, fails before the end of the line and is an error from there on |
| HttpResponse.TurnOverNegative | uv/http/Response.cpp:189-200 | a negative size takes all that is behind its line for a piece and goes back, or ends the loop when that is before the start |
| HttpResponse.FailureKeepsContent | uv/http/Response.cpp:176-208 | without success the content is what has come, undecoded |
| HttpResponse.DechunkedOfEncoded | uv/http/Response.cpp:176-208 | decoding recovers the data of the chunks, whatever follows the chunk of size zero (section 4.1 of RFC 7230) |
| HttpResponse.PartOfEncodedFails | uv/http/Response.cpp:176-208 | a body cut anywhere before the end of the line of size zero is neither complete nor bad |
| HttpResponse.PrefixUnpacked | uv/http/Response.cpp:111-136 | parsing a part of a printed response fails and sets nothing until the header is there, and from then on gives the response with the content so far |
| HttpResponse.ChunkedReply | uv/http/Response.cpp:138-208 | a chunked response with anything behind its line of size zero: cut before the end of that line it fails, and from there on it succeeds, decoded |
| HttpResponse.OnlyWholeChunkedIff | uv/http/Response.cpp:138-208 | every proper prefix of a chunked response fails and the whole succeeds if and only if nothing is behind its line of size zero |
| HttpResponse.UndefinedNeverEnds | uv/http/Response.cpp:180-207 | the model's outcome for not returning is that of exactly the bodies on which every number of turns is followed by one more |
| HttpResponse.UndefinedIffStillGoing | uv/http/Response.cpp:180-207 | that is so if and only if the loop is still going after as many turns as the body has positions, and one more |
| HttpResponse.NonNegativeEnds | uv/http/Response.cpp:189-200 | a body none of whose size lines, as far as they are read, is negative is always decoded to an end |
| HttpResponse.NoMinusEnds | uv/http/Response.cpp:180-207 | a body without a minus sign is always decoded to an end |
| HttpResponse.NegativeSizeNeverEnds | uv/http/Response.cpp:189-195 | a body on which the loop does not end |
| HttpServer.HttpServer.Register | uv/http/HttpServer.cpp:23-66 | the handler is added for its path and method, and no other method's handlers change |
| HttpServer.HttpServer.OnMessage | uv/http/HttpServer.cpp:68-109 | all that has arrived is parsed; the buffer is emptied on success and on error; a look-up happens exactly on success, among the handlers of the request's method |
| HttpServer.HttpServer.Deliver | uv/http/HttpServer.cpp:68-109 | over any fragments that fit the buffer, list or ring, the outcomes are those of serving them one by one |
| HttpServer.UndefinedIffNoLine | uv/http/HttpServer.cpp:79-80 | what has arrived makes the parser read the first of no lines exactly when it begins with the end of a header |
| HttpServer.HttpServer.CrashIff | uv/http/HttpServer.cpp:91 | a look-up goes through a null root exactly when a whole request is there for whose method nothing was registered |
| HttpServer.HttpServer.RequestCrashesIff | uv/http/HttpServer.cpp:86-107 | however a delimited request is cut, its last fragment does so if and only if its method has no route |
| HttpServer.HttpServer.GetCrashes | uv/http/HttpServer.cpp:86-107 | the plainest request does so when nothing was registered for GET |
| HttpServer.HttpServer.RequestFindsHandler | uv/http/HttpServer.cpp:68-109 | however a delimited request is cut, nothing is looked up before its last fragment, and then the handler registered last for its method and path is found |
| HttpServer.HttpServer.RequestFindsNothing | uv/http/HttpServer.cpp:86-93 | none is found if none was registered for its path |
| HttpServer.HttpServer.ValueFindsHandler | uv/http/HttpServer.cpp:86-93 | a request for "/value:1234" finds the handler of "/value:" |
| HttpServer.ServedOnce | uv/http/HttpServer.cpp:68-109 | however a delimited request is cut, each parse before the last fragment fails and the last recovers it, leaving the buffer empty |
| HttpServer.EachLookedUpOnce | uv/http/HttpServer.cpp:68-109 | of delimited requests that arrive one after the other on a connection, no two sharing a fragment, each is looked up exactly once and in order |
| HttpServer.ServedAfterBad | uv/http/HttpServer.cpp:81-85 | however a header that cannot be read arrives, after the fragment that completes it the connection is served as if it were new |
| HttpServer.LookedUpAfterBad | uv/http/HttpServer.cpp:81-91 | so a delimited request that follows it is looked up, exactly once |
| HttpServer.LengthlessTakesAll | uv/http/HttpServer.cpp:76-91 | behind a header without a length that is a number, all that has come is taken for the content, looked up with it and cleared |
| HttpServer.OverfullFails | uv/http/HttpServer.cpp:76-108 | a request with a declared length and more behind it is not found complete, and stays in the buffer |
| HttpServer.OverfullStaysStuck | uv/http/HttpServer.cpp:68-109 | from then on no fragment leads to a look-up |
| HttpServer.LookedUpIffCutAtEnd | uv/http/HttpServer.cpp:68-109 | on a stream that begins with a request of declared length, anything is ever looked up if and only if some fragment ends where that request ends |
| HttpStream.LeadingRunLookedUpIff | uv/http/HttpServer.cpp:68-109 | at any moment of a stream of delimited requests cut anywhere, what has been looked up is exactly the longest leading run of requests whose ends are ends of fragments, if and only if nothing has run over into a next request without a numeric length |
| HttpClient.HttpClient.OnMessage | uv/http/HttpClient.cpp:91-111 | all that has arrived is parsed; a complete response is reported and kept, a bad one is cleared |
| HttpClient.HttpClient.OnDisconnect | uv/http/HttpClient.cpp:76-88 | what has arrived is reported once more if it has a good header, and a parse failure otherwise |
| HttpClient.HttpClient.Deliver | uv/http/HttpClient.cpp:91-111 | over any fragments the outcomes are those of receiving them one by one |
| HttpClient.ReportedWithEachLater | uv/http/HttpClient.cpp:91-111 | a response is reported with every fragment that ends where it is complete or later, always the same, and never before |
| HttpClient.DeclaredCompleteFrom | uv/http/Response.cpp:138-163 | with its length declared it is complete at its end and not before |
| HttpClient.ChunkedCompleteFrom | uv/http/Response.cpp:138-208 | in chunks it is complete from the end of the line of size zero on, decoded |
| HttpClient.UnboundedCompleteFrom | uv/http/Response.cpp:138-174 | with neither it is never complete |
| HttpClient.ReportedOnceIff | uv/http/HttpClient.cpp:91-111 | its fragments report a response exactly once if and only if the last of them is the one that completes it |
| HttpClient.ReportedAtEnd | uv/http/HttpClient.cpp:76-88 | the end of the connection reports a response that has arrived, its chunks undecoded, whether or not it was reported before |
| HttpClient.CutReportedAtEnd | uv/http/HttpClient.cpp:76-88 | a response cut short is reported as delivered with what has come of its content, and as a parse failure exactly when its header is not all there |
| HttpClient.HeaderReportedAtEnd | uv/http/HttpClient.cpp:76-88 | whatever lines have arrived as a header, the end reports a response if they are a good one and a parse failure otherwise |
| HttpClient.NoHeaderReportedAtEnd | uv/http/HttpClient.cpp:76-88 | without the end of a header it reports a parse failure |
| HttpClient.AlwaysReported | uv/http/HttpClient.cpp:76-88 | nothing is left unreported but what begins with the end of a header, which makes the parser read the first of no lines |
| HttpClient.BadForgotten | uv/http/HttpClient.cpp:105-110 | what has become bad is cleared with the fragment that made it so, and what follows is received as if it were the first |
| HttpClient.ReportedAfterBad | uv/http/HttpClient.cpp:91-111 | so a response with a bad size line does not keep the next one from being reported |
| HttpClient.StuckOnMalformed | uv/http/HttpClient.cpp:91-111 | a header that cannot be read is kept, and nothing that follows it is reported |
| HttpClient.OnceInAllIff | uv/http/HttpClient.cpp:62-111 | over fragments and end a response is reported exactly once, as it was sent, if and only if no part of it is taken for complete |
| HttpServer.LookUpIsRoute | uv/http/HttpServer.cpp:91-93 | with wildcard-free routes, what is called is the handler last registered for the path, if it is not null |
| TimerWheel.TimerWheel.Start | uv/include/TimerWheel.hpp:70-78 | as many empty slots as the timeout has seconds |
| TimerWheel.TimerWheel.Insert | uv/include/TimerWheel.hpp:80-86 | the value is put in the slot in use, unless it is null or there is no timeout |
| TimerWheel.TimerWheel.WheelCallback | uv/include/TimerWheel.hpp:95-104 | the next slot is cleared; let go are those of its values that no other slot holds |
| TimerWheel.SlotHolds | uv/include/TimerWheel.hpp:80-104 | after any run each slot holds exactly the values inserted while it was last in use |
| TimerWheel.HeldWhileRecent | uv/include/TimerWheel.hpp:69-104 | after any run a value is held if and only if its last insertion is fewer ticks ago than the timeout |
| TimerWheel.TickReleases | uv/include/TimerWheel.hpp:95-104 | a tick lets go exactly the values last inserted as many ticks before as the timeout |
| TcpServerModel.RunIsSound | uv/TcpServer.cpp:50-154 | in every run: callbacks are set just while closing has not begun, the wheel is that of the activity, and no open connection is idle |
| TcpServerModel.TimerClosesExactlyTheSilent | uv/include/TcpConnection.hpp:94-113 | in every run a tick starts to close exactly the open connections silent for the timeout, and so none that sent a message since |
| TcpServerModel.OpenIsRecent | uv/TcpServer.cpp:146-154 | a connection silent for the timeout is not open any more |
| TcpServerModel.ClosingIsFinal | uv/TcpConnection.cpp:81-119 | in every run, after its close began no message callback of a connection runs and its close does not begin again |
| TcpServerLife.LifeCycle | uv/TcpServer.cpp:50-154 | in every run a connection that was let in is exactly one of open and never closed, closing since exactly one event, or gone by exactly one later event |
| TcpServerLife.AcceptMeans | uv/TcpServer.cpp:50-75 | a connection is let in, open, if and only if its address is free; no other entry changes |
| TcpServerLife.MessageMeans | uv/TcpServer.cpp:146-154 | a message of an open connection, and of no other, runs the user's callback, which closes each connection as often as it names it |
| TcpServerLife.CloseMeans | uv/TcpServer.cpp:124-143 | an open connection begins to close, a closing one is dropped; no other entry changes |
| TcpServerLife.FailedMeans | uv/TcpConnection.cpp:87-91 | an open connection begins to close, a closing one stays |
| TcpServerLife.CompletedMeans | uv/TcpServer.cpp:129-140 | a closing connection is dropped, and an open one stays |
| TcpServerLife.TimerMeans | uv/include/TcpConnection.hpp:94-113 | in every run a tick begins to close the open connections silent for the timeout and changes no other entry |
| TcpServerLife.FreedForTheNext | uv/TcpServer.cpp:129-140 | when a closing connection is dropped, the next one from its address is let in |
| TcpServerModel.ExpireOneMore | uv/include/TcpConnection.hpp:102-109 | destroying wrappers in any order closes the same connections |
| TcpServer.TcpConnection.Close | uv/TcpConnection.cpp:93-119 | both callbacks are cleared; closing begins unless it had |
| TcpServer.TcpServer.CloseConnection | uv/TcpServer.cpp:124-143 | closing begins, or, if it had begun before, is complete and the connection dropped |
| TcpServer.TcpServer.OnSocketClose | uv/TcpConnection.cpp:87-91 | has an effect only while the callback is set |
| TcpServer.TcpServer.OnAccept | uv/TcpServer.cpp:50-75 | the connection is added with both callbacks, unless its address is in the table already, and its wrapper put in the slot in use |
| TcpServer.TcpServer.AddConnection | uv/TcpServer.cpp:104-107 | the entry there is for an address is kept; otherwise the connection is put in |
| TcpServer.TcpServer.OnMessage | uv/TcpServer.cpp:146-154 | the user's callback, which may close connections, and then the wrapper if it still exists |
| TcpServer.TcpServer.OnTimer | uv/include/TcpConnection.hpp:102-109 | a tick reports the connections of all wrappers let go |
| TcpServer.TcpServer.OnCloseComplete | uv/TcpConnection.cpp:242-248 | the connection is dropped when its handle is closed |
| TcpServer.TcpServer.Handle | uv/TcpServer.cpp:50-154 | every event does to the objects what the state machine says |
| EventLoopModel.NothingLostOrRepeated | uv/Async.cpp:22-61 | in every interleaving, posted is run, then taken, then queued; and with a handle, a queue that is not empty is still heard of |
| EventLoopModel.RunsAtOnceIff | uv/EventLoop.cpp:112-133 | in every run, a callback runs at once if and only if the giving thread is the one whose start led to the last entry, with no leaving since, or the loop has ended; otherwise it is about to be queued |
| EventLoopModel.OtherThreadQueues | uv/EventLoop.cpp:112-133 | while one thread runs the loop, what another one gives is never run at once |
| EventLoopModel.EndIsFinal | uv/EventLoop.cpp:60-72 | once `run` has set the loop's end, nothing queued is ever run: what was posted is what had been run by then, followed by the queue, whatever steps come after |
| EventLoopModel.ComesToRest | uv/Async.cpp:38-61 | without new posts only a bounded number of steps can follow, in any order |
| EventLoopModel.RestIsComplete | uv/Async.cpp:48-61 | a started loop at rest has run everything posted, each callback once and in order |
| EventLoopModel.Given | uv/EventLoop.cpp:122-133 | giving a callback without interference: run at once on the loop's thread or after the end, else queued, and signalled once there is a handle |
| EventLoopModel.Processed | uv/Async.cpp:48-61 | a wake-up without interference runs the whole queue in order |
| EventLoop.Async.Init | uv/Async.cpp:22-31 | a handle is made and signalled the first time only |
| EventLoop.Async.RunInThisLoop | uv/Async.cpp:38-46 | the callback is queued, and the loop signalled if there is a handle |
| EventLoop.Async.Process | uv/Async.cpp:48-61 | the queue is taken whole and run in order |
| EventLoop.EventLoop.IsRunInLoopThread | uv/EventLoop.cpp:112-120 | true exactly on the thread that runs the loop, as the steps so far say |
| EventLoop.EventLoop.Run | uv/EventLoop.cpp:60-86 | refused unless not running; otherwise the steps of the start, up to where the loop waits |
| EventLoop.EventLoop.End | uv/EventLoop.cpp:67-69 | the part of `run` after the loop has returned: the status is that of a loop that has ended, for good |
| EventLoop.EventLoop.RunInThisLoop | uv/EventLoop.cpp:122-133 | run at once exactly on the thread that runs the loop, as the steps so far say, or after its end; otherwise queued; a null callback does nothing |
| EventLoop.EventLoop.OnSignal | uv/Async.cpp:48-61 | what the machine says of one wake-up |

## Left out

- libuv's calls, sockets and handle memory: only their events appear (message, tick, wake-up, end of closing).
- `LogWriter`, `SocketAddr`, `GlobalConfig` and the write path: plumbing and output; the ring size is a parameter of at least 1, and what a handler answers is not modelled.
- SPLAY_NEXT, SPLAY_MINMAX, RB_MINMAX, RB_PREV and the FOREACH macros: easy or mirror images of what is proved.
- Comparison in the trees: elements are compared by an integer key, not by a caller's function; RB_AUGMENT, which is empty, does not appear.
- Strings of 2^31 characters and more: the position of the header's end is truncated to `int` by the source, which the model does not do; string positions in the chunk lemmas stay below 2^63.
- HttpResponse.Response.IsCompletedChunked: the model says that the loop does not end where the program might run out of memory first and then report an error, because memory is not modelled.
- HttpRequest.RoundTrip: does not cover a path with a colon, because the parser takes the rest as one value and drops the parameters; ColonRoundTrip says what becomes of it.
- HttpServer.ServedOnce: does not cover requests with a colon in their path; one that arrives whole is covered by ValueFindsHandler.
- Packets.FramingSurvivesFragmentation: does not cover garbage that holds a head byte or payloads over 65531 bytes, because a scan that meets a wrong end byte keeps its old bytes and does not find the next frame; WrongEnd says what it finds.
- HttpServer.EachLookedUpOnce: does not cover the closing of the connection once an answer is written (uv/http/HttpServer.cpp:100-104), after which a later request does not arrive; what becomes of requests that share a fragment is said by LeadingRunLookedUpIff and LengthlessTakesAll.
- TcpServer.TcpServer.OnAccept: a connection whose address is in the table already has no owner afterwards, and its memory is not modelled; the timeout is not changed after the start.
- EventLoop.EventLoop.Run: is the part of `run` before the loop waits, and End the part after it has returned; what happens between are steps of their own.
- HttpClient: that a callback may delete the client or send another request is not modelled, nor is the truncation of sizes to `unsigned` (uv/http/HttpClient.cpp:93-94); connecting only sets a flag and writes the request.
- A connection closed a second time before its handle is closed is dropped at once, and the end of closing then finds it gone; that its memory may be used then is not modelled, nor that, if a user still holds it, the end of its closing drops whatever connection has its address by then.
- A user's message callback closes connections and does nothing else to the server; the new-connection and close callbacks do nothing to it; `TcpServer::close` is not modelled.
- EventLoopModel.NothingLostOrRepeated: does not cover what closing a handle does to a signal sent to it, because that is libuv's; memory is sequentially consistent, and two threads do not start the loop at once.
- The send of a producer that meets a handle not yet initialized (uv/Async.cpp:24-29, 44-45) is a signal that the initialization clears; what libuv does with such a handle is not modelled.
- The Balance Theorem of splay trees (libuv1.30.0/include/uv/tree.h:49-51): only that the loop ends, and how deep the nodes it meets come to lie, is proved, because the theorem is about amortized cost.
- A callback that is being run counts as run; what it does is not modelled, except that it may post in turn.
