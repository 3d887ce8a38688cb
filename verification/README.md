# Verification of the dumhet DHT node

A Dafny model of the node's four algorithmic cores, with proofs that hold for every input and every run.

* **Wire codec.** `Bencode` says what it means for bytes to encode a tree and gives the parser as a function; `BencodeProofs` shows that the parser accepts exactly that language and returns the one tree. `Reading` adds what happens when the input runs out inside a list and the byte behind it decides. `BDecoder` and `KeyOrder` follow the C code: index scans, the node loop, neighbour comparison of keys and the binary search. `ProtocolEnc` writes messages into a buffer through an advancing position, `ProtocolDec` fills in a message from a tree, and `DecodeMeaning` says for every kind of message which values it must hold and what is read from them, and `RoundTrip`, `Loopback` and `MessageCreate` join the two sides: decoding undoes encoding for all nine messages, and whole exchanges of query and reply arrive intact.
* **Routing table.** `TableSpec` is the table as a value, `Buckets` and `Tables` are the classes with slots updated in place, each method tied to the value by its contract. `TableProofs` holds what one insertion keeps, moves and drops; `TableRuns` what holds after any run; `TableMeaning` what each operation does to the node it is about, field by field. `Hashes` links shared prefixes to XOR order bit by bit. `Close` and `CloseSpec` are the bounded insertion of the eight closest nodes, `Ownership` and `Handle` who owns and who frees the nodes that are copied or that replies bring in.
* **Hash map and its clients.** `HashmapSpec` refines bucket lists to a finite map, `Hashmaps` is the class over growable arrays (`DArrays`). `PeersModule` and `PendingModule` are maps of peers and of outstanding queries on top of it; `Queries` is the matching of replies to queries over all runs.
* **String search and replace.** `Binstr` is the greedy substring search, `FindReplace` the three in-place strategies of the replace engine, `ReplaceMeaning` what the result holds in each place.

Bytes are numbers below 256, pointers into a buffer are positions in it, a NULL pointer is `None` or `null`, and error bits are a set. Where the C code would stop in one of its own assertions, the decoder's result says so (`Aborted` as a value, `Stopped` as an outcome), and likewise where it would read on behind a datagram (`Strayed`, `RanAway`). The clock is read once per step and is a parameter.

`Table_CopyAndAddNode` is described in the source as copying good nodes; the code copies every node that is not Bad, and so does the model (`TableRuns.QuestionableIsCopied`). `Message_Decode` looks up a reply by the first two bytes of its transaction id even when it is longer; the error bit is set, but the entry is consumed (`DecodeProofs.ReplyIsStep`, and `Datagrams.LongReplyConsumes` for one datagram). A list or dictionary that the datagram does not close is closed by an `e` that the receive buffer happens to hold behind it (`DecodeProofs.StaleEnd`).

## Model

| member | source | states |
|---|---|---|
| Decimal.DecMeaning | src/protocol_enc.c:40-56 | printing a number gives its digits without padding, and reading them gives the number back |
| Decimal.DecOfNum | src/bencode.c:72-86 | unpadded digits are the only unpadded way to write their number |
| Decimal.Strtol | src/bencode.c:65-70 | decimal accumulation over sign and digits: the value clipped to a 64-bit long with a range flag, the end at the first non-digit, nothing consumed when there is no digit |
| KeyOrder.CompareKeysOrder | src/bencode.c:246-269 | the key comparison is a total order: zero exactly for equal strings, sign swaps with the arguments, less-than transitive |
| KeyOrder.CompareIsLex | src/bencode.c:246-261 | memcmp on the common length and then the lengths is the dictionary order, byte by byte, a prefix first |
| KeyOrder.LessMeaning | src/bencode.c:246-269 | a key is less exactly when it is a proper prefix or has the smaller byte at the first difference |
| KeyOrder.LookupFound | src/bencode.c:382-422 | in a dictionary with ascending keys a linear scan finds, behind a key wherever it stands, the one value that goes with it |
| KeyOrder.GetValue | src/bencode.c:382-422 | the binary search terminates and returns what a linear scan returns: the value when the key is there, nothing when it is not, when the dictionary is empty or when the node is no dictionary, also when both bounds collapse on a match |
| BDecoder.FindIntegerEnd | src/bencode.c:34-56 | finds the delimiter behind an optional sign and digits, exactly when it is inside the input |
| BDecoder.BDecodeInteger | src/bencode.c:58-99 | accepts exactly unpadded 64-bit integers, no negative zero, and returns value and length |
| BDecoder.FindStringLengthEnd | src/bencode.c:191-210 | finds the colon behind at least one digit, exactly when it is inside the input |
| BDecoder.BDecodeString | src/bencode.c:212-244 | returns the bytes behind the length when they are all inside the input and a non-zero length is not padded |
| BDecoder.BDecodeListOrDict | src/bencode.c:131-184 | the loop over next and next_len collects exactly the nodes up to the final delimiter and fails when one cannot be decoded; when next_len is used up, the byte behind the input decides, whatever it is, and this happens exactly when the input runs out inside this list or one below it |
| BDecoder.BDecodeList | src/bencode.c:186-189 | the reading function on an input that begins with a list |
| BDecoder.KeysStep | src/bencode.c:296-308 | comparing each key with its neighbour is enough for all keys to ascend |
| BDecoder.BDecodeDictionary | src/bencode.c:286-316 | accepts exactly even lists whose keys are strings that ascend strictly, all pairs of them, for any byte behind the input |
| BDecoder.BDecode | src/bencode.c:318-361 | computes the reading function for every input in every buffer, and looks at the byte behind the input exactly when the input runs out inside a list or dictionary |
| Reading.ReadExactly | src/bencode.c:145-166 | for any byte behind the input: a tree within the input exactly for a prefix that encodes it; a tree one byte longer exactly when an e behind the input closes it; reading on exactly when nothing is behind an input that runs out, or when the e closes a list that stands inside another, so that next_len wraps around |
| Reading.ReadIsParse | src/bencode.c:145-166 | the byte behind the input makes no difference unless it is an e or missing and the input runs out; an input that begins with valid bencode does not run out |
| Reading.OpenList | src/bencode.c:158 | the input l with an e behind it is decoded to a list of two bytes, although it is no bencode |
| Reading.OpenListInList | src/bencode.c:154-155 | for ll with an e behind it next_len wraps around and reading goes on |
| BencodeProofs.ParseSound | src/bencode.c:318-361 | what the parser consumes is valid bencode of the tree it returns |
| BencodeProofs.ParseComplete | src/bencode.c:318-361 | every prefix that is valid bencode of a tree is parsed to that tree, whatever follows |
| BencodeProofs.ParseExact | src/bencode.c:318-361 | the parser succeeds exactly when some prefix of the input is valid bencode (64-bit unpadded integers, strictly ascending string keys, zero lengths possibly zero-padded) and returns that prefix's length and tree |
| BencodeProofs.EncodingUnique | src/bencode.c:318-361 | no encoding is a proper prefix of another and none stands for two trees |
| BencodeProofs.ParseOfEnc | src/bencode.c:318-361 | the encoding of a tree followed by anything is parsed to that tree, consuming exactly the encoding, if and only if the tree has an encoding at all |
| BencodeProofs.ParsedIsEncodable | src/bencode.c:286-316 | every tree the parser returns has ordered dictionaries all the way down, which is what the binary search relies on |
| Wire.BigEndianRoundTrip | src/protocol_enc.c:331-337 | the bytes of address and port, most significant first, are read back by ntohl and ntohs |
| Wire.MostSignificantFirst | src/protocol_enc.c:331-337 | the bytes of address and port are its digits to the base 256, the most significant first |
| ProtocolEnc.DigitsArePrinted | src/protocol_enc.c:40-56 | digits() is the number of characters that are printed for every length below 100000 |
| ProtocolEnc.BStringCpy | src/protocol_enc.c:85-90 | writes length, colon and bytes at dest, advances by exactly the precomputed length, touches nothing behind |
| ProtocolEnc.ICpy | src/protocol_enc.c:218-224 | writes the bencode of the integer, the terminating zero of snprintf being overwritten by the delimiter |
| ProtocolEnc.NodesCpy | src/protocol_enc.c:317-341 | the loop writes the key and the compact form of all nodes in order, exactly NodesLen bytes |
| ProtocolEnc.ValuesCpy | src/protocol_enc.c:386-410 | the loop writes the bencode of the list of compact peers, exactly ValuesLen bytes |
| EncodeProofs.QueryBytes | src/protocol_enc.c:101-133 | the fragments around the values of a query are the bencode of its tree |
| EncodeProofs.ReplyBytes | src/protocol_enc.c:276-308 | the fragments around the values of a reply are the bencode of its tree |
| EncodeProofs.ErrorBytes | src/protocol_enc.c:545-576 | the fragments around the values of an error are the bencode of its tree |
| EncodeProofs.PingBytes | src/protocol_enc.c:101-133 | the bytes of a ping query, keys and method written out |
| EncodeProofs.AnnounceBytes | src/protocol_enc.c:226-274 | the bytes of an announce_peer query, keys and method written out |
| EncodeProofs.BareReplyBytes | src/protocol_enc.c:276-308 | the bytes of a reply to ping or announce_peer, keys written out |
| EncodeProofs.FindNodeReplyBytes | src/protocol_enc.c:343-379 | the bytes of a find_node reply, keys written out |
| EncodeProofs.ValuesReplyBytes | src/protocol_enc.c:412-455 | the bytes of a get_peers reply with peers, keys written out |
| EncodeProofs.NodesReplyBytes | src/protocol_enc.c:457-494 | the bytes of a get_peers reply with nodes, keys written out |
| ProtocolEnc.EncodeQueryPing | src/protocol_enc.c:105-133 | writes exactly the bencode of the message's tree and returns its length, or returns -1 without writing, exactly when that length is more than len |
| ProtocolEnc.EncodeQueryFindNode | src/protocol_enc.c:140-172 | writes exactly the bencode of the message's tree and returns its length, or returns -1 without writing, exactly when that length is more than len |
| ProtocolEnc.EncodeQueryGetPeers | src/protocol_enc.c:179-211 | writes exactly the bencode of the message's tree and returns its length, or returns -1 without writing, exactly when that length is more than len |
| ProtocolEnc.EncodeQueryAnnouncePeer | src/protocol_enc.c:233-274 | writes exactly the bencode of the message's tree and returns its length, or returns -1 without writing, exactly when that length is more than len |
| ProtocolEnc.EncodeResponsePing | src/protocol_enc.c:280-308 | writes exactly the bencode of the message's tree and returns its length, or returns -1 without writing, exactly when that length is more than len |
| ProtocolEnc.EncodeResponseFindNode | src/protocol_enc.c:347-379 | writes exactly the bencode of the message's tree and returns its length, or returns -1 without writing, exactly when that length is more than len |
| ProtocolEnc.EncodeResponseGetPeersValues | src/protocol_enc.c:416-455 | writes exactly the bencode of the message's tree and returns its length, or returns -1 without writing, exactly when that length is more than len |
| ProtocolEnc.EncodeResponseGetPeersNodes | src/protocol_enc.c:457-494 | writes exactly the bencode of the message's tree and returns its length, or returns -1 without writing, exactly when that length is more than len |
| ProtocolEnc.EncodeResponseAnnouncePeer | src/protocol_enc.c:515-543 | writes exactly the bencode of the message's tree and returns its length, or returns -1 without writing, exactly when that length is more than len |
| ProtocolEnc.EncodeResponseError | src/protocol_enc.c:545-576 | writes exactly the bencode of the message's tree and returns its length, or returns -1 without writing, exactly when that length is more than len |
| ProtocolEnc.MessageEncode | src/protocol_enc.c:19-38 | the same for all nine types; -1 and nothing written for an unknown type or a get_peers reply without values and nodes |
| ProtocolEnc.FullGetPeersReplyFits | src/protocol_enc.c:416-455 | a get_peers reply with at most MAXPEERS peers, a token of 20 bytes and a transaction id of at most 1931 bytes fits UDPBUFLEN, and with the maximum of all it fills it exactly |
| ProtocolDec.Message.SetQueryType | src/protocol_dec.c:108-149 | the type named by the method string, or unknown with the bit for an invalid query type |
| ProtocolDec.Message.SetTransactionId | src/protocol_dec.c:151-175 | the transaction id, or an empty one with its error bit |
| ProtocolDec.Message.SetId | src/protocol_dec.c:177-202 | the 20-byte id among the arguments, or the id unchanged with its error bit |
| ProtocolDec.Message.SetQueryData | src/protocol_dec.c:208-251 | the data for the type, only when no error bit is set; otherwise nothing, and missing data sets the bit for invalid data |
| ProtocolDec.Message.SetQueryAnnouncePeerData | src/protocol_dec.c:312-365 | data exactly when info_hash is a string of 20 bytes, port an integer from 0 to 65535 and token a string, and then those three; otherwise only the bit for invalid data |
| ProtocolDec.Message.SetCompactNodeInfo | src/protocol_dec.c:496-541 | the nodes of a compact string in order, or the error bit when its length is no multiple of 26 |
| ProtocolDec.Message.SetCompactPeerInfo | src/protocol_dec.c:603-640 | the peers of a list; at the first element that is none, the error bit with the peers read so far and zeros for the rest |
| ProtocolDec.Message.SetResponseGetPeersData | src/protocol_dec.c:545-599 | token and then either values or nodes; both, or neither in the right type, is invalid data |
| ProtocolDec.Message.DecodeQuery | src/protocol_dec.c:88-106 | all fields of a query; stopped by the source's assertion exactly for an unknown method |
| ProtocolDec.Message.DecodeResponse | src/protocol_dec.c:370-410 | consumes the entry of the transaction id and gives the message its type and context; id errors are flagged unless ids agree or the entry is new |
| ProtocolDec.Message.DecodeError | src/protocol_dec.c:642-688 | code and text of an error, the error bits for what is malformed, failure when there is no list |
| ProtocolDec.MessageDecode | src/protocol_dec.c:17-64 | computes the decoding function of the datagram, of whatever byte the buffer holds behind it, and of the outstanding queries, and leaves outstanding what that function says |
| DecodeProofs.DatagramIsMessage | src/protocol_dec.c:17-64 | a datagram that begins with valid bencode, or does not run out inside a list or dictionary, is decoded the same whatever is behind it |
| DecodeProofs.StaleEnd | src/bencode.c:158 | a datagram that an e behind it completes is taken for the message that it would be with that byte |
| DecodeProofs.StrayedExactly | src/bencode.c:154-158 | when reading goes on behind a datagram |
| DecodeProofs.AbortedExactly | src/protocol_dec.c:17-64 | over every run the source stops in an assertion exactly for a query with no or an unknown method, and a reply whose transaction id is missing, shorter than two bytes or not outstanding |
| DecodeProofs.NullExactly | src/protocol_dec.c:642-688 | over every run NULL is returned exactly for an error without a list |
| DecodeProofs.RepliesAreAwaited | src/network.c:130-144 | over every run only replies other than errors are awaited |
| Datagrams.UnknownQueryAborts | src/protocol_dec.c:208-213 | the datagram d1:q1:x1:y1:qe stops the source in an assertion, whatever is behind it |
| Datagrams.LongReplyConsumes | src/protocol_dec.c:380-387 | a reply with the transaction id abc is flagged and consumes the query with the id ab |
| DecodeProofs.ReplyIsStep | src/protocol_dec.c:370-410 | decoding a reply is the reply step of the query runs: same entry consumed, its type and context, and each error bit exactly under its condition |
| DecodeProofs.FindNodeReplyErrors | src/protocol_dec.c:476-541 | the invalid data bit of a find_node reply is set unless its nodes are a string whose length is a multiple of 26 |
| DecodeProofs.GetPeersReplyErrors | src/protocol_dec.c:545-640 | the invalid data bit of a get_peers reply is set unless there is a token and either a list of six-byte strings as values and no nodes, or no values and a string of whole compact nodes |
| DecodeProofs.ErrorFreeIsComplete | src/protocol_dec.c:17-64 | a decoded message without error bits has a known type and all the data that its type calls for |
| DecodeMeaning.QueryErrors | src/protocol_dec.c:88-106 | each error bit of a query exactly under its own condition on the values under its keys: no string as transaction id; no 20-byte id; both there and arguments that are unusable for the method (20-byte target or info hash, port from 0 to 65535, token); a query with any bit set carries no data |
| DecodeMeaning.MethodKinds | src/protocol_dec.c:108-149 | which method string gives which type |
| DecodeMeaning.QueryIds | src/protocol_dec.c:88-106 | transaction id and sender id are the strings under t and id, and their bits are set exactly when those are missing or of the wrong length |
| DecodeMeaning.FindNodeArguments | src/protocol_dec.c:253-281 | with both ids there, invalid data is absent exactly when target is a string of 20 bytes, which then is the target |
| DecodeMeaning.GetPeersArguments | src/protocol_dec.c:283-310 | with both ids there, invalid data is absent exactly when info_hash is a string of 20 bytes, which then is the info hash |
| DecodeMeaning.AnnouncePeerArguments | src/protocol_dec.c:312-365 | with both ids there, invalid data is absent exactly when info_hash is a string of 20 bytes, port an integer i with 0 <= i <= 0xffff and token a string; then the port is i and the other two are those strings |
| DecodeMeaning.FindNodeReplyData | src/protocol_dec.c:476-541 | without invalid data, the contacts are those whose compact form is the string under nodes |
| DecodeMeaning.GetPeersReplyData | src/protocol_dec.c:545-640 | without invalid data, the token is the one under its key and the peers or contacts are those whose compact forms are listed, in order |
| DecodeMeaning.PeersAfterError | src/protocol_dec.c:603-640 | behind the first element that is no peer the block stays zero, under the bit for invalid data |
| DecodeMeaning.ErrorMeaning | src/protocol_dec.c:642-688 | the bits, code and text of a decoded error, each under its own condition on the list and its two elements |
| DecodeMeaning.UnknownExactly | src/protocol_dec.c:17-64 | the bit for an unknown type is set exactly when the bytes begin with no dictionary or its type is none of q, r and e; it comes alone and no query is consumed |
| RoundTrip.NodesRoundTrip | src/protocol_dec.c:496-541 | reading compact nodes undoes writing them |
| RoundTrip.PeersRoundTrip | src/protocol_dec.c:603-640 | reading compact peers undoes writing them |
| RoundTrip.TreeGood | src/protocol_enc.c:19-38 | the tree of every message has ordered dictionaries, so it has an encoding |
| RoundTrip.QueryRead | src/protocol_dec.c:88-106 | every field of a query is read back from its tree through the key lookups |
| RoundTrip.ReplyRead | src/protocol_dec.c:370-410 | every field of a reply that answers an outstanding query is read back from its tree, and exactly that query is consumed |
| RoundTrip.ErrorRead | src/protocol_dec.c:642-688 | code, text and transaction id of an error are read back from its tree |
| RoundTrip.DecodingUndoesEncoding | src/protocol_dec.c:17-64 | for every message of all nine types, whatever follows it: decoding its bytes gives its type, transaction id, payload and (except for errors) id without error bits; a reply consumes exactly the entry it answers |
| Loopback.EncodedIsDecoded | src/protocol_enc.c:19-38 | whatever an encoder has left in a buffer, with any byte behind it, is decoded to the message it was given, which is what MessageDecode promises for that buffer |
| Loopback.DecodedAgain | src/protocol_dec.c:17-64 | any bytes that are decoded to a message without error bits, canonical or not, give a message that can be encoded and comes back as it is, a reply where a query of its type is outstanding |
| Loopback.EncodingIsInjective | src/protocol_enc.c:19-38 | messages of one type with the same bytes carry the same fields |
| MessageCreate.CreateRGetPeers | src/message_create.c:169-223 | a reply exactly when there are either peers or nodes, with the query's transaction id, the token and all of them in order |
| MessageCreate.Exchange | src/message_create.c:4-25 | a whole exchange: query created, stored, encoded, decoded by the other node, answered, decoded again; both arrive without error bits, the reply with the stored context, and the same queries are outstanding as before |
| MessageCreate.TidOnWire | src/message_create.c:15-18 | the two bytes of the transaction id of a query, little endian |
| MessageCreate.PingExchange | src/dht/dht.h:100 | a ping query and its reply, written out with the id of their senders, arrive as they are, the reply with the stored context, and the outstanding queries are restored |
| MessageCreate.FindNodeExchange | src/dht/dht.h:100 | the same for a find_node query answered by a find_node reply with any contacts |
| MessageCreate.GetPeersValuesExchange | src/dht/dht.h:100 | the same for a get_peers query answered by a get_peers reply with peers |
| MessageCreate.GetPeersNodesExchange | src/dht/dht.h:100 | the same for a get_peers query answered by a get_peers reply with contacts |
| MessageCreate.AnnouncePeerExchange | src/dht/dht.h:100 | the same for an announce_peer query and its reply |
| MessageCreate.CreatedReplyFits | src/message_create.c:169-223 | a get_peers reply to a query with a transaction id of at most 1931 bytes always fits the buffer |
| Hashes.HashSharedPrefix | src/hash.c:98-132 | the nested loops return the length of the common prefix in bits |
| Hashes.SharedPrefixMeaning | src/hash.c:98-132 | all bits before the shared prefix agree and the next one, if any, differs |
| Hashes.SharedPrefixUnique | src/hash.c:98-132 | no other number has that meaning |
| Hashes.FullPrefixIsEqual | src/hash.c:90-132 | 160 shared bits are equality |
| Hashes.SharedPrefixUltrametric | src/hash.c:98-132 | two ids that share prefixes with a third share the shorter one |
| Hashes.HashDistance | src/hash.c:149-163 | the bytewise XOR of the ids |
| Hashes.HashPrefix | src/hash.c:42-69 | overwrites exactly the first prefix_len bits, keeps all others, and refuses prefixes over 160 bits |
| Hashes.HashInvert | src/hash.c:134-145 | inverts every bit in place |
| Hashes.OrderByFirstBit | src/hash.c:165-170 | memcmp of distances is decided by the first bit at which they differ |
| Hashes.LongerPrefixIsCloser | src/hash.c:98-170 | an id that shares a longer prefix is strictly closer by XOR distance |
| Hashes.XorInjective | src/hash.c:149-163 | different ids have different distances to any target |
| Hashes.AtMostEightShare157 | src/dht/table.h:9 | at most eight ids share 157 bits with a given one |
| Nodes.StatusMeaning | src/node.c:8-30 | exactly when a node is Good, Questionable, Unknown and Bad, in terms of its two times and its pending queries |
| Nodes.NodeCopy | src/node.c:46-57 | a fresh node with id and address of the source and all times and counters zero |
| Buckets.Bucket.ContainsNode | src/bucket.c:26-45 | true exactly when some slot holds the id |
| Buckets.Bucket.ReplaceBad | src/bucket.c:47-71 | replaces the first Bad node and returns it, else changes nothing |
| Buckets.Bucket.ReplaceQuestionable | src/bucket.c:73-111 | replaces a Questionable node one of whose two times is not after either time of any other, the first such node, else changes nothing |
| Buckets.Bucket.AddNode | src/bucket.c:122-149 | fills the first free slot and counts it, or fails when all eight are taken |
| Tables.ShiftNodes | src/table.c:92-125 | moves nodes to the next bucket in slot order until it is full, as the shifting function says |
| Tables.HasShiftableNodes | src/table.c:49-73 | true exactly when the new node or one in the bucket belongs further on |
| Tables.Table.FindBucket | src/table.c:235-247 | the bucket numbered by the shared prefix, or the last |
| Tables.Table.AddBucket | src/table.c:220-233 | one more empty bucket whose index is its place |
| Tables.Table.InsertNode | src/table.c:127-185 | result code, bucket, replaced node and new table are those of the insertion function; buckets keep index and count |
| Tables.Table.FindNode | src/table.c:303-322 | the node with the id in the one bucket looked at, or nothing |
| Tables.Table.CopyAndAddNode | src/table.c:187-218 | inserts a copy of any node that is not Bad, and nothing for a Bad one; the copy is owned by the table or freed, a replaced node is freed, and no other node is |
| TableRuns.QuestionableIsCopied | src/table.c:187-194 | a node that is not good is copied into an empty table |
| Tables.Table.MarkReply | src/table.c:351-386 | the new table is that of the reply function on values, which TableMeaning describes field by field |
| Tables.Table.MarkQuery | src/table.c:388-411 | the new table is that of the query function on values, which TableMeaning describes field by field |
| TableMeaning.CopyMeaning | src/table.c:187-218 | nothing for a Bad node; any other node with a new id, an Unknown one too, is found afterwards when its bucket has room, with its address and all times and counters zero |
| TableMeaning.MarkReplyMeaning | src/table.c:351-386 | if the sender is in the table afterwards: its reply time is now, query time and address as before, one pending query less but never below zero, exactly the counter of the kind of reply one more modulo 2^32, and for a time other than zero it is Good |
| TableMeaning.MarkReplyFinds | src/table.c:351-386 | a sender that is known, or not Bad and whose bucket has room, is in the table afterwards, and nothing about any other id changes |
| TableMeaning.MarkQueryMeaning | src/table.c:388-411 | if the sender is in the table afterwards, its query time is now and every other field as before, or that of a fresh copy |
| TableMeaning.MarkQueryFinds | src/table.c:388-411 | a sender that is known, or not Bad and whose bucket has room, is in the table afterwards, and nothing about any other id changes |
| TableMeaning.ForeignNodeIsAdded | src/handle.c:217-252 | a node of a block with another address than the client's, whose id is new and whose bucket has room when its turn comes, is taken out of the block and found in the table, and when Good or Unknown still after the whole block |
| TableMeaning.OwnAddressIsNotAdded | src/handle.c:227-232 | an id that is not in the table, and that the block has only with the client's own address, is not in the table afterwards |
| SlotProofs.ShiftSeparates | src/table.c:92-125 | a split of a bucket leaves on each side exactly the entries that belong there |
| TableProofs.InsertValid | src/table.c:127-185 | insertion keeps every invariant of the table and never returns ERROR |
| TableProofs.InsertConserves | src/table.c:127-185 | the entries afterwards are the old ones, with the new one if it was taken and without the one replaced, even when a split moved nodes |
| TableProofs.EvictionPolicy | src/table.c:127-185 | a node is replaced exactly when the id is new, its bucket is full and not all Good or Unknown; Good and Unknown nodes never go, Bad ones go first; a Questionable one goes only if its reply time or its query time is not after either time of any other Questionable one |
| TableProofs.TurnedAwayExactly | src/table.c:127-185 | OKFull exactly when all eight nodes are Good or Unknown and the bucket is not last, or no bucket can be added, or the single split would leave all nine on one side |
| TableMeaning.SplitsExactly | src/table.c:127-185 | the number of buckets grows, by one, exactly when the id is new, its bucket is the last and not the 158th, its eight nodes are Good or Unknown, and one of the nine belongs further down |
| TableMeaning.InsertFinds | src/table.c:127-185 | a new id whose bucket has room is added and then found with the fields that it came with |
| TableMeaning.InsertedBucket | src/table.c:127-185 | the bucket returned holds the id afterwards, and none is returned exactly for OKFull |
| TableProofs.DeepestBucketHasRoom | src/table.c:127-185 | once bucket 157 exists, an id sharing 157 bits is always added or already there |
| TableProofs.DecreasingDistance | src/dht/table.h:11-12 | any node of an earlier bucket is strictly farther from the table's id than any node of a later one |
| TableProofs.FindNodeComplete | src/table.c:303-322 | looking in one bucket finds an id exactly when some slot of some bucket holds it |
| TableProofs.IdsUnique | src/table.c:127-185 | no id is in the table twice |
| TableRuns.StepValid | src/table.c:127-218 | insertions, copies, replies, queries and counted questions keep the invariants |
| TableRuns.StepKeepsGood | src/table.c:127-185 | no step drops a node that is Good or Unknown at that time |
| TableRuns.RunSafety | src/table.c:9-28 | over every run from an empty table: 1 to 158 buckets, nodes in the bucket of their shared prefix, no id twice, distances decreasing from bucket to bucket, lookups complete |
| CloseSpec.ClosestUnique | src/close.c:70-96 | there is only one sorted list of the closest nodes |
| CloseSpec.AddCloseClosest | src/close.c:70-96 | adding a node to the eight closest of some nodes gives the eight closest of all of them |
| CloseSpec.GatherClosestCorrect | src/table.c:329-349 | what is gathered is min(8, total) nodes of the table, sorted by distance, and every node left out is strictly farther than every one returned |
| Close.CloseNodes.FindIndex | src/close.c:98-118 | the first place that is not nearer, or -1 behind eight nearer ones |
| Close.CloseNodes.ShiftFrom | src/close.c:120-135 | moves all entries from an index on up by one cell; the entry that falls off is freed exactly when there are eight |
| Close.CloseNodes.Add | src/close.c:70-96 | the kept nodes become those of the bounded insertion function |
| Close.CloseNodes.GetNodes | src/close.c:42-65 | lists the kept nodes in order |
| Close.ForEachNode | src/table.c:249-277 | calls the operation on the nodes of all buckets in order, each once, and stops with -1 at the first that fails |
| Close.GatherClosest | src/table.c:329-349 | returns the closest nodes of the table, nearest first |
| Ownership.InsertOwnership | src/table.c:127-185 | the table owns one more node for each it takes and one less for each it replaces |
| Handle.AddSearchNodes | src/handle.c:217-252 | the table is the one after inserting, in block order, every node that does not have the client's address and port; a cell is NULL afterwards exactly when its insertion gave OKAdded or OKReplaced; table, freed nodes and block together own every node as often as before |
| Handle.DestroyBlock | src/node.c:72-82 | frees each node left in the block once and forgets it |
| Handle.AbsorbNodes | src/handle.c:119-127 | the table is that after the whole block, nothing is left in the block, and table and freed nodes together are the old table and the block, as multisets |
| Handle.FreedOrOwnedOnce | src/handle.c:119-127 | so each node is in the table or freed, exactly one of the two, and freed at most once |
| DArrays.DArray.Push | src/lcthw/darray.c:118-128 | appends an element, growing when the end is reached |
| DArrays.DArray.Pop | src/lcthw/darray.c:130-144 | removes and returns the last element and keeps the others, whether or not the array contracts; NULL when there is none |
| DArrays.DArray.Compact | src/lcthw/darray.c:146-165 | keeps exactly the non-NULL elements, in order |
| Hashmaps.Hashmap.Set | src/lcthw/hashmap.c:136-154 | fails and changes nothing for a key that is there, else adds the pair to the map |
| Hashmaps.Hashmap.Get | src/lcthw/hashmap.c:156-172 | the data of the key, or NULL |
| Hashmaps.Hashmap.Delete | src/lcthw/hashmap.c:202-223 | removes exactly the key and returns its data, although the last entry is swapped into the hole |
| Hashmaps.Hashmap.Traverse | src/lcthw/hashmap.c:182-200 | calls the callback on the nodes in order until it returns non-zero |
| HashmapSpec.GetRefines | src/lcthw/hashmap.c:156-172 | lookup in the bucket lists is lookup in the finite map |
| HashmapSpec.SetRefines | src/lcthw/hashmap.c:136-154 | insertion into the bucket lists is insertion into the finite map |
| HashmapSpec.DeleteRefines | src/lcthw/hashmap.c:202-223 | deletion by swapping is deletion from the finite map |
| HashmapSpec.TraverseExactlyOnce | src/lcthw/hashmap.c:182-200 | a traversal lists every pair of the map and no key twice |
| HashmapSpec.FoldMeaning | src/lcthw/hashmap.c:182-200 | a traversal threads the context through the nodes in order and stops at the first non-zero result |
| HashmapSpec.RunRefines | src/lcthw/hashmap.c:98-223 | over any sequence of operations the bucket lists answer as a finite map does |
| PeersModule.PeerKeyingExact | src/peers.c:13-26 | equal hashes and a comparison of zero are together exactly equality of address and port |
| PeersModule.PeerCompareIsNotEquality | src/peers.c:13-19 | the comparison alone is zero exactly when address plus port agree modulo 2^32, which two different peers can do |
| PeersModule.Peers.AddPeer | src/peers.c:64-97 | sets the peer's time, keeps the count equal to the size of the map, and refuses once MAXPEERS are stored |
| PeersModule.Peers.GetPeers | src/peers.c:112-125 | appends exactly one entry for every stored peer |
| PeersModule.Peers.Clean | src/peers.c:211-241 | removes exactly the entries older than the cutoff and keeps the count right |
| PendingModule.TidKeyingExact | src/pendingresponses.c:39-65 | hash and comparison of transaction ids are exact |
| PendingModule.PendingResponses.Add | src/pendingresponses.c:67-85 | stores an entry, or fails and changes nothing when its transaction id is outstanding |
| PendingModule.PendingResponses.Remove | src/pendingresponses.c:87-103 | removes and returns the entry of the transaction id, or reports that there is none |
| Queries.OutstandingMeans | src/network.c:130-144 | over any run an entry is outstanding exactly when an accepted query put it there and no reply has consumed it since |
| Queries.MatchedReply | src/protocol_dec.c:387-402 | a reply is matched exactly when such a query exists, and gets its context and the reply type of the same method (ping, find_node, get_peers, announce_peer each spelled out), and an id error unless ids agree or the node is new |
| Queries.NoDoubleMatch | src/protocol_dec.c:387-402 | no query answers two replies |
| Queries.RefusedQuery | src/network.c:130-144 | a query whose transaction id is outstanding is refused and disturbs nothing |
| Queries.TidsRepeat | src/message_create.c:15-18 | transaction ids repeat exactly every 65536 queries |
| Queries.Client.CreateQuery | src/message_create.c:4-25 | takes the next transaction id and advances the counter |
| Queries.Client.SentQuery | src/network.c:130-144 | stores transaction id, addressee, context and is_new of a sent query, with the reply type of the same method, or refuses and changes nothing |
| Queries.Client.MatchReply | src/protocol_dec.c:387-402 | consumes the entry of a reply as the step function says |
| Binstr.Binstr | src/lcthw/bstrlib.c:1023-1099 | the least position from pos on at which the needle stands, or BSTR_ERR |
| Binstr.GreedyScan | src/lcthw/bstrlib.c:1056-1098 | the greedy scan with its two-step skip, jump into the loop and late contiguity check terminates and finds the least position |
| Binstr.FindFromMeaning | src/lcthw/bstrlib.c:1023-1099 | the position returned is an occurrence and none is before it; BSTR_ERR means that there is none |
| Binstr.NothingLeft | src/lcthw/bstrlib.c:1056-1098 | running out of text means that no occurrence is left, because greedy scanning is never behind one |
| FindReplace.Bstring.ReplaceEqual | src/lcthw/bstrlib.c:1585-1595 | overwriting in place computes the replacement of the leftmost non-overlapping occurrences |
| FindReplace.Bstring.ReplaceShorter | src/lcthw/bstrlib.c:1597-1621 | moving the text between matches down computes the same, in the same buffer |
| FindReplace.Bstring.FindMatches | src/lcthw/bstrlib.c:1637-1666 | records the positions of the leftmost non-overlapping occurrences and adds up their growth; fails exactly when there are 2^27 of them or the sum is more than an int can take |
| FindReplace.MatchesSpaced | src/lcthw/bstrlib.c:1641-1666 | the recorded positions leave room for the needle before the next one and the end |
| FindReplace.MatchesAreLeftmost | src/lcthw/bstrlib.c:1641-1663 | every recorded position is an occurrence, and every other occurrence overlaps a recorded one that starts before it |
| FindReplace.ReplaceBySelf | src/lcthw/bstrlib.c:1554-1692 | replacing a string by itself changes nothing |
| FindReplace.ReplaceLength | src/lcthw/bstrlib.c:1659-1669 | every match changes the length by the difference of the two strings |
| FindReplace.ReplaceByMatches | src/lcthw/bstrlib.c:1641-1684 | replacing is filling in around the recorded positions |
| ReplaceMeaning.OccurrenceReplaced | src/lcthw/bstrlib.c:1554-1692 | where the m-th recorded occurrence stood, moved by m differences of length, stands the replacement |
| ReplaceMeaning.TextKept | src/lcthw/bstrlib.c:1554-1692 | every byte outside the recorded occurrences is kept, moved by one difference of length for each occurrence before it |
| FindReplace.Bstring.FillBack | src/lcthw/bstrlib.c:1668-1683 | moving the pieces from the last match to the first fills in the result without overwriting what is still needed |
| FindReplace.Bstring.ReplaceLonger | src/lcthw/bstrlib.c:1623-1684 | expanding from right to left computes the same replacement; BSTR_ERR and nothing changed exactly when the positions or the new length are more than an int can take |
| FindReplace.Bstring.FindReplace | src/lcthw/bstrlib.c:1554-1692 | all three strategies compute one function, nothing before pos changes; BSTR_ERR exactly for bad arguments and the overflows of the expanding strategy, with nothing changed |

## Left out

- BDecoder.BDecode: once reading has gone on behind the byte behind the input, what is read there is not modelled; the result says that it happens and the proofs say exactly when.
- BDecoder.BDecodeListOrDict: returned trees do not carry the source pointers and lengths of inner nodes, and the doubling of the node array in `add_to_list` is a growing sequence.
- ProtocolEnc.MessageEncode: defined for lengths and integers below 100000 only, as `digits` asserts, and for lists of peers whose length in bytes fits an int.
- RoundTrip.DecodingUndoesEncoding: empty transaction ids and tokens are included because `malloc(0)` is taken to succeed.
- ProtocolDec.MessageDecode: what happens after a failed assertion of the source, when a reply has a transaction id shorter than two bytes, or when reading goes on behind the datagram, is not modelled beyond saying that it is reached.
- ProtocolDec.Message.DecodeError: the length of an error text is not cut to a 32-bit int, which no datagram reaches.
- FindReplace.Bstring.FindReplace: needle and replacement are values, so the two tests for memory shared with the text (src/lcthw/bstrlib.c:1568-1581) and the copies they make are not modelled; nor is an argument that stands in the text wholly before pos, which is not copied and whose memory `balloc` may move.
- Binstr.Binstr: memory shared by needle and text matters in one shortcut only, which is a parameter.
- Tables.Table.InsertNode: the fixed array of 158 buckets is the sequence of those in use.
- Nodes.NodeCopy: node ids do not change while a node is in a table, and `is_new` is part of pending entries only.
- Hashmaps.Hashmap.Traverse: the callback is a function on its context, so it cannot change the map while it is traversed.
- Queries.Client.SentQuery: sending on the socket is not modelled; the entry is stored for queries that have been sent.
- Close.ForEachNode: the operation changes only its context.
- The map from info hashes to peers in src/peers.c: it is the same hash map with other keys.
- Allocation failures: every allocation succeeds.
- Sockets, hooks, logging, formatting, SHA1 tokens, random numbers and address conversion: input, output and foreign code.
- `Table_Dump` and `Table_Read`: text input and output; reading back is not lossless, because an insertion splits at most once.
- `Search_DoWork` and timeouts: queuing of messages without a deep invariant.
- Handlers in src/handle.c other than the absorption of nodes, and `Message_CreateRError`: calls of what is modelled here, with fixed texts.
- The rest of src/lcthw: lists, and string functions other than search and replace.
