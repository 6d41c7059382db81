# A verified model of the MQTT C client core

This project models the parts of the bundled Paho MQTT C client whose correctness rests on invariants over unbounded
state, and proves them with Dafny 4.11. `dafny verify dfyconfig.toml` checks everything.

## What is modelled

| files | part of the client |
|---|---|
| `TreeCells`, `TreeColours`, `TreeInsertion`, `TreeUpset`, `TreeRemoval`, `TreeShort`, `TreeEntries`, `TreeSearch`, `TreeUnlink`, `Tree` | the red-black tree with parent pointers (src/Tree.c) |
| `LinkedList` | the doubly linked list with its cached `current` element (src/LinkedList.c) |
| `Utf8` | the table-driven UTF-8 validator (src/utf-8.c) |
| `Bytes`, `MQTTPacket` | packets as bytes (src/MQTTPacket.c) |
| `ReadQueues`, `SocketReader` | the resumable packet reader (src/SocketBuffer.c, src/Socket.c, src/MQTTPacket.c) |
| `SocketWriter` | the resumable gather writer (src/Socket.c, src/SocketBuffer.c) |
| `Handshake`, `ProtocolClient` | the QoS 1 and 2 handlers, retries, message ids (src/MQTTProtocolClient.c) |
| `Delivery`, `ExactlyOnce`, `AtLeastOnce`, `Resends`, `OneInFlight`, `ResendRuns` | a sender and a receiver over two FIFO channels, and what every run delivers |
| `Images`, `Exchange` | two clients of `ProtocolClient` connected to each other, whose handlers make those runs |
| `SessionStore`, `SendOrder`, `Persistence`, `Session` | the session store, restoration, crash points, send order (src/MQTTPersistence.c) |
| `AsyncScheduler`, `AsyncIds` | the command queue of the asynchronous client, and its message ids (src/MQTTAsync.c) |
| `Keepalive` | keep-alive pings (src/MQTTProtocolClient.c) |
| `Options`, `Seqs` | small shared definitions |

The source rewrites its structures in place, and so do the classes here: tree nodes, list elements, queues, message lists,
the store. Each method is proved against a function of the old state, or against the property itself; what the source
promises is then proved about those functions and kept as an invariant. Calls into the system appear as methods that may
do anything the system may do: `recv` delivers any number of bytes or none, `writev` takes any number, a packet is taken
by the socket or not, the store lists its keys in any order. Ghost logs keep what was asked of the system and how it
answered, so that a contract can say that a read was interrupted only by a `recv` that was. Each section protected by a
mutex is one step.

The tree's shape is described without recursion. A ghost snapshot maps every node to its fields, a ghost sequence lists
the nodes in comparator order, and every node carries the interval of that sequence its subtree covers. A rotation leaves
the sequence alone and changes two intervals. Black heights are a labelling checked node by node, and a removal leaves
exactly one named slot a black node short.

## Findings

- Replacing the content of an entry that compares equal also runs the insertion rebalancing (src/Tree.c:214-224, 247),
  from a node that may already be black. Order, contents, count and size are kept in every case. The red-black property
  is kept if and only if the node is not a black inner grandchild with a red parent and a black uncle; `TreeUpset.Upset`
  says this in terms of the tree before the call, and `TreeUpset.UpsetHappens` gives a red-black tree with such a node.
- UTF8_validate compares a character's length with the length of the whole string, not of the rest
  (src/utf-8.c:89). On a C string this makes no difference. On a length-delimited buffer a last character that is
  completed by the bytes behind the buffer is accepted; the exact condition is `Utf8.Straddles`, with an example.
- With ids from MQTTProtocol_assignMsgId, and whatever messages have been restored, QoS 1 delivers at least once if and only
  if the retry interval is not positive and no other client of the process connects, or at most one message may be in flight
  and no restored QoS 1 message has id 1 (or no publication is allowed at all); `ResendRuns.AtLeastOnceExactly`. A positive
  interval lets the timer send a message twice on a connection (src/MQTTProtocolClient.c:561-582), and so does the CONNACK of
  any client, because the pass it starts goes over all clients (src/MQTTAsync.c:1442, src/MQTTProtocolClient.c:625-649). The
  second PUBACK can then be taken for that of a later message with the same id. `ResendRuns.ResendBreaks` builds the run, in
  which nothing is lost but what a reconnect takes. With more than one message in flight, one is left unsent when the pass
  after a reconnect stops at a pending write, and its id comes up again just when the first of its two PUBACKs is taken.
  With one, as is the default of the synchronous client (`reliable`, src/MQTTClient.c:960, 1423), a restored message
  with id 1 is enough, because msgID is 0 after a restore and the next id is 1.
- MQTTAsync_assignMsgId passes over the tokens of commands and responses, not over the messages in flight
  (src/MQTTAsync.c:2183-2184). Ids in flight stay distinct while each is the token of a response; `AsyncIds.StepExactly` says
  which steps keep that true. A PUBLISH whose write fails does not (src/MQTTAsync.c:1137-1163), nor does an acknowledgement
  that removes a response and no message (src/MQTTAsync.c:2655-2665), nor does a restore: `AsyncIds.RestoredExactly`. Right
  after one, id 1 is given out while a message with id 1 is in flight, and the PUBACK of the new message removes the restored
  one (`AsyncIds.RestoredReused`). For the asynchronous client the at-least-once condition above therefore has the further
  one that every id in flight is a token.
- Removing "s-" before "sc-" (src/MQTTPersistence.c:403-409) matters: in the other order a crash between the two would
  take a message back to waiting for a PUBREC (`Session.OtherOrderRegresses`).
- SocketBuffer_newDefQ leaves the header length of the new queue unset (src/SocketBuffer.c:71-77). The model lets it be
  anything; no read depends on it.

## Model

| member | source | states |
|---|---|---|
| Tree.Tree.Rotate | src/Tree.c:129-145 | The pointer updates turn the old snapshot into the rotated one: the two nodes trade places, the inner subtree changes hands, the parent or the root follows, every other node is untouched. |
| TreeCells.RotateShape | src/Tree.c:129-145 | A rotation keeps parent/child agreement and the in-order sequence of all nodes. |
| TreeColours.RotateBalanced | src/Tree.c:129-145 | If the two rotated nodes come out balanced and the upper height is inherited, the whole tree is balanced. |
| TreeInsertion.AddRecolour | src/Tree.c:152-157 | With a red uncle the red-red fault moves from the node to its grandparent, black heights intact. |
| TreeInsertion.AddOuter | src/Tree.c:165-167 | With a black uncle and an outer grandchild, recolouring and one rotation remove the fault. |
| TreeUpset.InnerWhole | src/Tree.c:160-167 | With an inner grandchild the two rotations and the recolouring, taken together, remove the fault or produce exactly the upset case. |
| TreeUpset.HeightsUnique | src/Tree.c:148-170 | Black heights are determined by the subtree below a node. |
| TreeUpset.UpsetUnbalances | src/Tree.c:160-167 | In the upset case no labelling of black heights fits the result. |
| TreeUpset.UpsetHappens | src/Tree.c:214-224 | A red-black tree of five nodes with an upset node among them. |
| Tree.Tree.BAASub | src/Tree.c:148-170 | One round keeps shape and payload, moves up to the grandparent or stops, and mends or moves the fault. |
| Tree.Tree.BalanceAfterAdd | src/Tree.c:173-183 | The loop ends by a measure on the climb, keeps shape and payload, and yields a red-black tree if and only if the start was not an upset node. |
| Tree.Tree.AddByIndex | src/Tree.c:192-249 | An absent content is inserted at its place in the order, and a red-black tree stays one; an equal content replaces the old one, which is returned, and the tree stays red-black if and only if the node was not upset. Count and size follow. |
| TreeSearch.AttachFault | src/Tree.c:226-246 | A new red leaf leaves at most the one fault the insertion loop mends. |
| TreeSearch.HeightBound | src/Tree.c:264-278 | A subtree of black height k holds at least 2^k - 1 nodes. |
| TreeSearch.VisitBound | src/Tree.c:264-278 | Twice the black height is at most 2*log2(count + 1). |
| Tree.Tree.FindIndex1 | src/Tree.c:264-278 | Finds an entry that compares equal if and only if there is one; in a red-black tree it visits at most 2*log2(count + 1) nodes. |
| Tree.Tree.Minimum | src/Tree.c:299-305 | The first node of the subtree in order. |
| Tree.Tree.Successor | src/Tree.c:308-323 | The next node in order, found through right child or parents, or NULL after the last. |
| Tree.Tree.NextElement | src/Tree.c:326-339 | From NULL the first node, from a node the next one. |
| Tree.Tree.Walk | src/Tree.c:326-339 | Repeated calls from NULL meet every entry exactly once, in comparator order, and then stop. |
| TreeRemoval.RedSibling | src/Tree.c:346-352 | A red sibling is rotated away: the same slot is short, and its sibling is black. |
| TreeRemoval.BlackSibling | src/Tree.c:355-359 | A black sibling with black children turns red, and the lack moves up one level. |
| TreeRemoval.NearNephew | src/Tree.c:362-368 | A red near nephew becomes a red far nephew. |
| TreeRemoval.FarNephew | src/Tree.c:369-373 | A red far nephew ends the lack: the tree is balanced again. |
| TreeRemoval.Blacken | src/Tree.c:389 | Blackening the node the loop ends at leaves a red-black tree. |
| Tree.Tree.BARSub | src/Tree.c:342-376 | One round keeps shape and payload, moves up or reaches the root, and hands on the one slot that is short. |
| Tree.Tree.BalanceAfterRemove | src/Tree.c:379-390 | From a node, or from a stand-in for an empty slot, the loop ends and mends a tree that is one black node short there. |
| TreeCells.UnlinkShape | src/Tree.c:409-423 | Unlinking a node with at most one child keeps parent/child agreement and drops that node from the order. |
| TreeUnlink.UnlinkBereft | src/Tree.c:431-446 | What unlinking leaves to be mended: nothing if the node was red or the last, else the slot of its child or of the empty place. |
| TreeUnlink.RemoveEntries | src/Tree.c:403-429 | Unlinking a node or its successor, with the payload moved, drops exactly the entry asked for. |
| Tree.Tree.RemoveNodeIndex | src/Tree.c:398-457 | Exactly the entry of the node goes, also when it has two children; its content is returned; count and size follow; a red-black tree stays one. |
| Tree.Tree.Remove | src/Tree.c:465-485 | Removes the entry that compares equal and returns its content, or changes nothing and returns NULL. |
| Tree.Tree.Run | src/Tree.c:192-249 | Every run of additions of absent contents and removals keeps a red-black tree and does to the entries what the steps say. |
| LinkedList.List.AppendNoMalloc | src/LinkedList.c:70-82 | The content is last; both chains, both ends and the count agree; `current` stays. |
| LinkedList.List.Insert | src/LinkedList.c:106-127 | The content stands before the given element, or last. |
| LinkedList.List.FindItem | src/LinkedList.c:150-185 | Returns a matching element if and only if there is one: `current` if it matches, else the first; it becomes `current`. |
| LinkedList.List.Unlink | src/LinkedList.c:197-229 | Removes exactly that one element; a removed `current` moves to its successor, any other stays. |
| LinkedList.List.DetachHead | src/LinkedList.c:261-279 | Removes and returns the first content; `current` moves on if it was there. |
| LinkedList.List.PopTail | src/LinkedList.c:299-317 | Removes and returns the last content; `current` moves back if it was there. |
| LinkedList.List.Empty | src/LinkedList.c:352-364 | The list is empty, `current` NULL. |
| LinkedList.List.WalkForward | src/LinkedList.c:400-403 | The forward walk from NULL yields the contents. |
| LinkedList.List.WalkBackward | src/LinkedList.c:413-416 | The backward walk yields them in reverse. |
| LinkedList.CheckPendingWrites | src/MQTTAsync.c:803-823 | Removing while walking, with `current` set first, looks at each entry once, finishes exactly the completed ones, in order, and leaves exactly those pending. |
| Utf8.GoodDecodes | src/utf-8.c:52-63 | Where a row of the table matches, the encoding of a Unicode scalar value stands, of the announced length. |
| Utf8.EncodeGood | src/utf-8.c:52-63 | Every encoding of a scalar value matches a row of the table. |
| Utf8.CharValidate | src/utf-8.c:72-115 | Moves past a character if a row matches, or fails; all it asks for is the bytes the code looks at. |
| Utf8.ScanExact | src/utf-8.c:124-143 | The scan accepts exactly the well-formed strings, apart from those whose last character straddles the end. |
| Utf8.TerminatorStops | src/utf-8.c:95-108 | On a C string the scan does not read past the terminator, and nothing straddles. |
| Utf8.StraddleAccepted | src/utf-8.c:88-89 | A two-byte buffer that is not well-formed and is accepted, with one readable byte behind it. |
| Utf8.Validate | src/utf-8.c:124-143 | The loop computes that scan. |
| Utf8.ValidateString | src/utf-8.c:151-159 | A C string is accepted if and only if it is the encoding of scalar values other than NUL. |
| MQTTPacket.LengthRoundTrip | src/MQTTPacket.c:264-319 | Decoding inverts encoding, whatever follows, exactly up to 268435455; larger lengths are refused. |
| MQTTPacket.CodeOnWire | src/MQTTPacket.c:264-280 | The bytes written stand for the length in the sense of the standard: seven bits each, low ones first, the top bit on in all but the last. |
| MQTTPacket.DecodeOnWire | src/MQTTPacket.c:289-319 | A length is read exactly where one ends within four bytes, with the value its bytes stand for; it is bad if four bytes are all followed by more. |
| MQTTPacket.CodeSize | src/MQTTPacket.c:264-280 | k bytes suffice exactly for lengths below 128^k: one to four bytes up to 268435455. |
| MQTTPacket.Encode | src/MQTTPacket.c:264-280 | Writes the length code into the buffer and nothing else. |
| MQTTPacket.HeaderRoundTrip | src/MQTTPacket.c:671-681 | Type, dup, QoS and retain are read back from the header byte. |
| MQTTPacket.HeaderOnWire | src/MQTTPacket.h:51-71 | On the bits of the byte: bit 0 is retain, bits 1 and 2 the QoS, bit 3 dup, bits 4 to 7 the type. |
| MQTTPacket.HeaderByteRoundTrip | src/MQTTPacket.c:488-496 | Every header byte is that of the fields read from it. |
| MQTTPacket.FrameRoundTrip | src/MQTTPacket.c:95-136 | A packet of any header and data is parsed back, and only it, exactly up to the largest length. |
| MQTTPacket.FrameOnWire | src/MQTTPacket.c:95-136 | On any bytes: a packet is parsed exactly where a header byte, one length and that many bytes stand; an error is four length bytes followed by more; otherwise more is needed. |
| MQTTPacket.IntRoundTrip | src/MQTTPacket.c:327-333 | readInt gives back what writeInt wrote, modulo 65536. |
| MQTTPacket.WriteInt | src/MQTTPacket.c:416-422 | Writes the two low-order bytes at the position and nothing else; the high one comes first. |
| MQTTPacket.ReadUTFlen | src/MQTTPacket.c:348-366 | Reads a string behind a two-byte length, high byte first, if and only if it ends before enddata. |
| MQTTPacket.ReadPublish | src/MQTTPacket.c:481-504 | Takes flags, QoS and type from their bits and topic, id and payload from their places; reports a bad packet exactly if the topic does not fit, and an overrun where the C code would read past the end. |
| MQTTPacket.SendPublish | src/MQTTPacket.c:671-709 | The gather list, written out, is the packet of the standard: type 3 and the flags in their bits, the remaining length, the topic length high byte first, topic, message id unless QoS 0, payload. |
| MQTTPacket.BytesOnWire | src/MQTTPacket.c:671-709 | The same of the record of a PUBLISH in the store. |
| MQTTPacket.FixedHeader | src/MQTTPacket.c:221-231 | Header byte and length code of the total of the buffers. |
| MQTTPacket.PublishRoundTrip | src/MQTTPacket.c:671-709 | What send_publish sends is parsed back to the same fields, for every topic up to 65535 bytes, 16-bit id and total length up to 268435455. |
| MQTTPacket.LongTopicTruncated | src/MQTTPacket.c:416-422 | A longer topic is never parsed back. |
| MQTTPacket.SendAck | src/MQTTPacket.c:529-547 | The whole packet: 0x40, 0x50, 0x62 or 0x70 for PUBACK, PUBREC, PUBREL and PUBCOMP, with bit 3 for dup, then 2, then the id with its high byte first. |
| MQTTPacket.AckRoundTrip | src/MQTTPacket.c:529-547 | An acknowledgement is four bytes and is parsed back, a PUBREL with QoS bits 1. |
| ReadQueues.DecodePrefix | src/MQTTPacket.c:289-319 | The decoder's answer does not depend on what follows. |
| ReadQueues.PartialNeedsMore | src/SocketBuffer.c:218-234 | What an interrupted read leaves is neither a packet nor an error. |
| ReadQueues.BadHeader | src/MQTTPacket.c:299-303 | Four length bytes that all announce more are an error whatever comes. |
| SocketReader.Reader.GetQueuedChar | src/SocketBuffer.c:185-210 | Replays the next saved header byte, if there is one, and never overruns the five-byte field. |
| SocketReader.Reader.QueueChar | src/SocketBuffer.c:263-293 | The received byte joins the header of this socket and of no other. |
| SocketReader.Reader.SaveInterrupted | src/SocketBuffer.c:218-234 | What has been received of the packet is held for the next read; other sockets' queues stay. |
| SocketReader.Reader.Complete | src/SocketBuffer.c:242-255 | The socket's queue is dropped and its buffer handed out. |
| SocketReader.Reader.Cleanup | src/SocketBuffer.c:124-135 | After an error nothing is held for the socket. |
| SocketReader.Reader.GetQueuedData | src/SocketBuffer.c:145-176 | The data received before, in a buffer large enough for all. |
| SocketReader.Reader.GetCh | src/Socket.c:293-320 | One header byte, replayed or received, and the stream stays the same; it is interrupted only by a recv that blocked or came back short, and fails only with a recv that failed. |
| SocketReader.Reader.GetData | src/Socket.c:331-372 | The data of the packet, if the recv delivered all that was asked for; else as much as there is, saved. |
| SocketReader.Reader.Decode | src/MQTTPacket.c:289-319 | The remaining length of the stream, or interruption, or an error. |
| SocketReader.Reader.Factory | src/MQTTPacket.c:95-129 | One attempt yields exactly the first packet of the socket's own stream, or leaves the stream as it was; all other sockets are untouched. Interrupted means that its last recv blocked or came back short, an error without bad data that it failed; if every recv delivers what was asked for and a packet is there, that packet is returned. |
| SocketReader.Reader.Run | src/MQTTPacket.c:95-136 | For any schedule of sockets and any chunking, each socket yields the packets of a one-shot parse of its stream, all of them once everything has come in; every turn of an open socket gave a packet or had its recv cut short, and a socket is closed only after a failed recv or at the end of a stream that goes on with no packet. |
| SocketWriter.Writer.StartPending | src/SocketBuffer.c:305-330 | The rest of a packet is kept for its socket, which joins the pending ones, each listed once. |
| SocketWriter.Writer.PutDatas | src/Socket.c:436-487 | With a write pending nothing is written. Otherwise the whole packet is offered to writev: an error means that this failed, completion that it took everything; else the rest is saved. No other socket is touched. |
| SocketWriter.Unwritten | src/Socket.c:725-744 | The resumed write offers a contiguous slice from the byte where it stopped: everything, if that is a buffer boundary, else the rest of that buffer. |
| SocketWriter.Writer.ContinueWrite | src/Socket.c:705-764 | Writes a prefix of that slice, advances the offset by it, and reports completion exactly when the whole packet is out. |
| SocketWriter.Writer.EndWrite | src/Socket.c:781-791 | The write is dropped with its socket, and no other. |
| SocketWriter.Writer.ContinueWrites | src/Socket.c:772-801 | The first ready pending socket is offered its rest; drops exactly the finished writes, each of a ready pending socket and, unless its writev failed, fully out; sockets that are not ready are left alone. |
| SocketWriter.Writer.WirePrefix | src/Socket.c:436-487 | At all times the bytes on an open socket are a prefix of the accepted packets, one after the other, and all of them when nothing is pending. |
| Handshake.PubackEffect | src/MQTTProtocolClient.c:322-339 | A PUBACK removes the QoS 1 message with its id and nothing else. |
| Handshake.PubrecEffect | src/MQTTProtocolClient.c:362-388 | A PUBREC moves the waiting QoS 2 message with its id to waiting for a PUBCOMP, and nothing else. |
| Handshake.PubcompEffect | src/MQTTProtocolClient.c:471-497 | A PUBCOMP removes the QoS 2 message with its id that waits for it, and nothing else. |
| Handshake.PublishEffect | src/MQTTProtocolClient.c:278-300 | After a QoS 2 PUBLISH there is one entry with its id, and it holds this publication. |
| Handshake.PubrelEffect | src/MQTTProtocolClient.c:411-448 | A PUBREL removes the entry with its id and nothing else. |
| Handshake.TriedAll | src/MQTTProtocolClient.c:75-84 | From a start in 1..65535 the search tries every other id before the start comes round. |
| Handshake.TriedStart | src/MQTTProtocolClient.c:79 | The start comes round after exactly 65535 steps. |
| Handshake.FirstFreePasses | src/MQTTProtocolClient.c:75-84 | Every id passed over, going up and from 65535 on to 1, is taken. |
| Handshake.NeverInUseExactly | src/MQTTAsync.c:2183-2184 | A search that passes over one set of ids never gives an id of another, whatever the last one was, if and only if it contains all of them. |
| AsyncIds.StepExactly | src/MQTTAsync.c:1119-1165 | Each id in flight stays the token of a response, and no token is given out twice, after exactly the steps other than a failed PUBLISH and an acknowledgement that takes the response but not the message. |
| AsyncIds.RunKeeps | src/MQTTAsync.c:2655-2665 | So over every run of those steps the ids in flight are pairwise distinct. |
| AsyncIds.RestoredExactly | src/MQTTAsync.c:2165-2200 | After a restore they stay distinct over every such run if and only if nothing was restored. |
| AsyncIds.RestoredReused | src/MQTTAsync.c:2167-2184 | With id 1 restored and no commands or responses, the search gives 1, and the PUBACK of the new message removes the restored one. |
| ProtocolClient.Client.AssignMsgId | src/MQTTProtocolClient.c:69-89 | Ends, and returns the first free id cyclically after the last one, so that all ids between are taken, or 0 if and only if every id other than the start is taken. |
| ProtocolClient.Client.StartPublish | src/MQTTProtocolClient.c:142-160 | The message joins the list with its id, QoS, retain flag and publication; its record is put into the store, from which those are read back, and then its packet is offered to the socket. |
| ProtocolClient.Client.StartPublishQoS0 | src/MQTTProtocolClient.c:120-130 | A QoS 0 publication leaves nothing in list or store. |
| ProtocolClient.Client.HandlePublish | src/MQTTProtocolClient.c:256-304 | QoS 0 and 1 are handed over at once, 1 with a PUBACK; for QoS 2 there is one entry with the id, with this retain flag and publication, the record gives them back, and a PUBREC is offered; QoS bits 3 are ignored. |
| ProtocolClient.Client.HandlePuback | src/MQTTProtocolClient.c:312-343 | The QoS 1 message with the id leaves the list, which keeps its order, and its record the store; otherwise nothing changes. |
| ProtocolClient.Client.HandlePubrec | src/MQTTProtocolClient.c:352-392 | The QoS 2 message with the id that waits for it moves on in its place; exactly if there was one, a record "sc-" is put and then a PUBREL offered. |
| ProtocolClient.Client.HandlePubrel | src/MQTTProtocolClient.c:401-452 | The entry with the id is handed over with its retain flag and publication, and then its record removed; a PUBCOMP is offered before that, or for an unknown id only if dup was set. |
| ProtocolClient.Client.HandleBoth | src/MQTTProtocolClient.c:256-452 | A QoS 2 PUBLISH and its PUBREL, one after the other, hand over the publication as it came, retain flag included, and leave nothing behind. |
| ProtocolClient.Client.HandlePubcomp | src/MQTTProtocolClient.c:461-501 | The QoS 2 message with the id that waits for it leaves the list, which keeps its order; its record "s-" is removed before its record "sc-". Otherwise nothing changes. |
| ProtocolClient.Client.Retries | src/MQTTProtocolClient.c:555-616 | Exactly the messages due are sent again, in list order, as PUBLISH with dup or as PUBREL, and touched: all of them if regardless, else those last touched more than max(interval, 10) seconds ago. It ends early only at a pending write or at a failed one, which closes the session; beyond that nothing is sent but possibly the PUBREL whose write was interrupted. |
| ProtocolClient.Client.CompleteConnection | src/MQTTAsync.c:1417-1446 | After a CONNACK everything in flight is sent again, in order, unless a write is cut short or fails; a clean session has nothing in flight. |
| ProtocolClient.Client.CleanSession | src/MQTTAsync.c:1810-1833 | Lists, store and last id are empty. |
| ProtocolClient.Client.CloseSession | src/MQTTAsync.c:1785-1794 | The connection is gone; the session only if it was to be clean. |
| ExactlyOnce.PubArrives | src/MQTTProtocolClient.c:278-300 | A PUBLISH that arrives is that of the message in flight, not yet handed over. |
| ExactlyOnce.RelArrives | src/MQTTProtocolClient.c:424-448 | A PUBREL that finds an entry hands its publication over for the first time. |
| ExactlyOnce.RelIgnored | src/MQTTProtocolClient.c:411-418 | A PUBREL that finds no entry changes nothing. |
| ExactlyOnce.RecArrives | src/MQTTProtocolClient.c:362-388 | A PUBREC takes the exchange into its second half, or finds it there. |
| ExactlyOnce.CompArrives | src/MQTTProtocolClient.c:471-497 | When a PUBCOMP arrives the publication has been handed over and nothing of the exchange is left but stray PUBRELs. |
| ExactlyOnce.MoveKeeps | src/MQTTProtocolClient.c:256-616 | Every move of sender, receiver, channels or connection keeps the invariant of all ids. |
| ExactlyOnce.ExactlyOnce | src/MQTTProtocolClient.c:256-616 | Over every run, with resends and reconnects at any moment and ids reused, no QoS 2 publication is handed over twice, and each one forgotten on PUBCOMP has been handed over exactly once. |
| AtLeastOnce.MoveKeeps | src/MQTTProtocolClient.c:271-343 | At most one PUBLISH or PUBACK is on its way for an id, and a PUBACK only for what has been handed over. |
| AtLeastOnce.QuietDelivers | src/MQTTProtocolClient.c:271-343 | Whatever ids are used and whatever is lost: if no message is sent twice on a connection, each publication forgotten on PUBACK has been handed over. |
| Resends.QuietEvent | src/MQTTAsync.c:1433-1442 | With the timer off and no other client, the one pass after a reconnect sends nothing twice on the connection. |
| OneInFlight.ClosedFresh | src/MQTTProtocolClient.c:69-89 | When the restored messages are finished, nothing is on its way that could be taken for part of an exchange with id 1, unless one of them had it with QoS 1. |
| OneInFlight.SingleEvent | src/MQTTClient.c:1423-1441 | With one message in flight at a time, all that is on its way for it comes after what is left of earlier ones, whatever is sent again. |
| ResendRuns.ResendBreaks | src/MQTTProtocolClient.c:561-582 | From any restored messages, with the timer on or another client connecting, and more than one message in flight or a restored QoS 1 message with id 1, a run after which a publication has been acknowledged and forgotten and is never handed over. |
| ResendRuns.AtLeastOnceExactly | src/MQTTProtocolClient.c:555-616 | Over all runs of the client from any restored messages, what is forgotten on PUBACK has been handed over, if and only if the timer is off and no other client connects, or no publication is allowed, or one at a time and no restored QoS 1 message has id 1. |
| Images.StartShown | src/MQTTProtocolClient.c:142-160 | startPublish with an id from assignMsgId is an event the rules allow, and the client shows its result. |
| Images.ForwardShown | src/MQTTProtocolClient.c:256-452 | So is a packet that the receiver takes: its list, what it hands over, retain flag included, and its answer. |
| Images.BackShown | src/MQTTProtocolClient.c:312-501 | So is an acknowledgement that the sender takes. |
| Images.PassShown | src/MQTTProtocolClient.c:555-616 | Every packet that a pass sends again is a resend the rules allow, after a CONNACK or by the timer, and the times the client keeps are those the rules go by. |
| Exchange.Exchange.Publish | src/MQTTClient.c:1423-1460 | A publication is started with an id that is free, or not at all if none is; the two clients still show a run of the protocol. |
| Exchange.Exchange.DeliverForward | src/MQTTClient.c:1583-1604 | The receiver takes the next packet, and the run goes on. |
| Exchange.Exchange.DeliverBack | src/MQTTAsync.c:2640-2688 | The sender takes the next packet, and the run goes on. |
| Exchange.Exchange.Reconnect | src/MQTTAsync.c:1417-1446 | What was on its way is gone; the pass after the CONNACK sends all that is in flight unless a write is pending or fails; the run goes on. |
| Exchange.Exchange.Timer | src/MQTTClient.c:1521-1536 | The timer's pass, at any time, is part of a run. |
| Exchange.Exchange.OtherConnack | src/MQTTProtocolClient.c:625-649 | So is the pass that another client of the process starts. |
| Exchange.Exchange.HandedOnce | src/MQTTProtocolClient.c:256-616 | Two clients running the handlers against each other: the QoS 2 publications handed over are those of different Publish calls, with the retain flag and bytes given there, and each one forgotten on PUBCOMP is among them. |
| Exchange.Exchange.Delivered | src/MQTTProtocolClient.c:256-616 | Whatever was given to Publish is still in flight or has been handed over as it was given; with QoS 1, if the timer is off and no other client connects, or at most one message may be in flight. |
| Exchange.MoveAccounted | src/MQTTProtocolClient.c:312-501 | A publication leaves the sender's list only on its PUBACK or PUBCOMP. |
| SessionStore.ReadRecord | src/MQTTPersistence.c:267-296 | Computes what a record stands for; a record whose length does not fit is bad. |
| SessionStore.RecordRestored | src/MQTTPersistence.c:267-296 | A stored PUBLISH gives back id, QoS, retain flag, topic and payload. |
| SessionStore.RelRestored | src/MQTTPersistence.c:267-296 | A stored PUBREL gives back its id. |
| SessionStore.CutRecord | src/MQTTPersistence.c:280-287 | A record cut short is bad; cut in its length bytes, it makes the code read past its end. |
| SessionStore.LongRecord | src/MQTTPersistence.c:287 | A record with bytes behind it is bad. |
| SessionStore.ReadFits | src/MQTTPersistence.c:278-292 | A record is read only if the value of its length bytes is the number of bytes behind them. |
| SendOrder.InsertInOrder | src/MQTTPersistence.c:305-319 | The message stands before the first with a larger id. |
| SendOrder.InsertKeepsOrder | src/MQTTPersistence.c:305-319 | Insertion keeps the list increasing and adds exactly that message. |
| SendOrder.OrderUnique | src/MQTTPersistence.c:305-319 | The increasing list does not depend on the order of insertion. |
| SendOrder.Rotate | src/MQTTPersistence.c:453-463 | The pointer surgery is a rotation of the sequence; the list stays well linked. |
| SendOrder.WrapMsgID | src/MQTTPersistence.c:428-465 | The loop and the pointer surgery make the cut of `Wrapped`. |
| SendOrder.WrappedAtGap | src/MQTTPersistence.c:434-452 | The cut is at the first of the largest gaps, if that is larger than the closing one; else there is none. |
| SendOrder.SendOrderRecovered | src/MQTTPersistence.c:428-465 | If the ids in flight increase cyclically within one turn and the closing gap is strictly the largest, the restored list is in send order. |
| Persistence.Persistence.Put | src/MQTTClientPersistence.h:121-136 | Adds or replaces one record. |
| Persistence.Persistence.Remove | src/MQTTClientPersistence.h:153-165 | Removes one record. |
| Persistence.Restore | src/MQTTPersistence.c:171-259 | For any order of the keys, the lists hold exactly the messages the records stand for; bad records and orphaned "sc-" records are dropped, and nothing else. |
| Persistence.BadDropped | src/MQTTPersistence.c:241-242 | A bad record is removed from the store, and no message comes from it. |
| Session.StepAgrees | src/MQTTPersistence.c:336-420 | Every event of the handshakes keeps store and memory in agreement. |
| Session.RunAgrees | src/MQTTPersistence.c:336-420 | So does every run of publish, PUBACK, PUBREC, PUBCOMP, inbound PUBLISH, PUBREL, retry and clean-session events. |
| Session.CrashPoint | src/MQTTPersistence.c:395-420 | Cut between any two store operations of an event, the store stands for the session before the event or after it. |
| Session.OtherOrderRegresses | src/MQTTPersistence.c:403-409 | Removing "sc-" before "s-" would restore the message to an earlier stage. |
| Session.NeverEarlier | src/MQTTProtocolClient.c:312-501 | While an id is in use it stays the same publication, and no event takes it back to an earlier stage. |
| Session.Recover | src/MQTTPersistence.c:171-259 | After any run, a crash between any two store operations of an event and a restore give the session before or after the event, and no message an earlier stage than it had reached. |
| Session.OutMessage | src/MQTTPersistence.c:207-227 | Each outbound message is restored with id, QoS, retain flag, topic, payload and handshake stage. |
| Session.RestoreSession | src/MQTTPersistence.c:171-259 | Restoring rebuilds the same outbound and inbound messages, in send order under the gap condition, and leaves a store that agrees with them. |
| AsyncScheduler.Scheduler.AddCommand | src/MQTTAsync.c:733-770 | Publish, subscribe, unsubscribe and requested disconnects go to the end; a connect or internal disconnect goes to the head, and is dropped only if the head is a connect, or any disconnect, of the same client. |
| AsyncScheduler.Scheduler.AssignMsgId | src/MQTTAsync.c:2165-2200 | Ends, and returns the first id cyclically after the last one that is no token of a command or response, so that all ids between are, or 0 if and only if every other id is one; an id found becomes msgID. |
| AsyncScheduler.Scheduler.Select | src/MQTTAsync.c:951-977 | Finds the earliest ready command that is its client's first, or none if no client's first command is ready. |
| AsyncScheduler.Scheduler.ProcessCommand | src/MQTTAsync.c:930-986 | Dispatches that command and no other. A publish, subscribe or unsubscribe is dispatched only for a client that is connected, with no write pending and an id to spare; each command passed over, and each one if none is dispatched, is such a command of a client that is not. |
| AsyncScheduler.Scheduler.RemoveCommands | src/MQTTAsync.c:1334-1350 | Exactly the commands of the other clients are left, of whatever kind, in their order. |
| AsyncScheduler.OrdinaryAre | src/MQTTAsync.c:740-757 | The ordinary commands of a client are its publish, subscribe and unsubscribe commands and the disconnects it asked for. |
| AsyncScheduler.OrdinaryWithout | src/MQTTAsync.c:941-977 | Taking a client's first command takes the first of its ordinary ones. |
| AsyncScheduler.Scheduler.InOrder | src/MQTTAsync.c:941-977 | Over every run each client's ordinary commands are dispatched in the order in which they were enqueued. |
| Keepalive.Connection.Keepalive | src/MQTTProtocolClient.c:518-543 | When the interval has passed, an unanswered PINGREQ closes the session; else one is offered to a socket that is free, and closes the session if not taken. Otherwise nothing happens. |
| Keepalive.FlagMeansUnanswered | src/MQTTProtocolOut.c:139-150 | The flag is set only while a PINGREQ waits for its PINGRESP. |
| Keepalive.ClosedForAReason | src/MQTTProtocolClient.c:522-543 | A session is closed only by a ping that could not be sent or by one that was not answered. |
| Keepalive.NoSecondPing | src/MQTTProtocolClient.c:522-543 | While a PINGREQ is unanswered no other is sent. |
| Keepalive.NotTooEarly | src/MQTTProtocolClient.c:518-520 | No PINGREQ is sent and nothing is closed while something has been sent, and something has come in, less than an interval ago. |
| Keepalive.IdleClientPings | src/MQTTProtocolClient.c:518-543 | A client that has sent nothing since s has sent a PINGREQ, or had its session closed, by s + K + T, even while packets come in, if keepalive has run at most T ago. |
| Keepalive.OpenUntil | src/MQTTProtocolClient.c:508-546 | While the session of a peer silent since t is open, keepalive ran last before t + K + T. |
| Keepalive.SilentPeerClosed | src/MQTTProtocolClient.c:508-546 | With interval K and keepalive run at most T ago, and T apart before, a peer silent since t has its session closed at any time from t + K + 2T on. |

## Left out

- Second indexes of a tree, TreeAddIndex, heap tracking, TreeWalk and TreeMaxDepth: the tree here has the one index all operations go through first.
- Contents of a tree must not be NULL, which the source needs to tell a stand-in from a node (src/Tree.c:383).
- The `size` field of a list, which is never decreased (src/LinkedList.c:197-229), and memory ownership and allocation failure throughout.
- MQTTPacket parsers for CONNACK and SUBACK, SUBSCRIBE and CONNECT packets: easy next to PUBLISH. What the factory does with a packet type it does not know is not modelled; the reader ends with header and data.
- Socket reuse after a close: the write saved for a closed socket stays behind (src/Socket.c:556-557).
- SocketWriter.Writer.ContinueWrites: does not state that every pending socket is visited, because the walk goes on from whatever element `current` is after a removal (src/Socket.c:786-791); a socket on which a continued write has failed is counted as finished there and is outside the claims.
- SocketBuffer_updateWrite: exchanges buffers for copies with the same bytes, which on values is no change.
- The message lists of a client are sequences here; the linked list they are in the source is modelled in LinkedList and used where pointers are moved, in SendOrder and Persistence.
- ProtocolClient.Client.AssignMsgId: requires a free id when the last id is 0, because the exhaustion test never fires from there (src/MQTTProtocolClient.c:79). So does AsyncScheduler.Scheduler.AssignMsgId.
- ProtocolClient.Client.StartPublish: requires a topic of at most 65535 bytes. The source sends a longer one with its length modulo 65536, which MQTTPacket.LongTopicTruncated shows is never parsed back, so neither receiver nor store gets the message. It also requires an id that is not in flight; AsyncIds says when the asynchronous client meets that.
- ProtocolClient.Client.StartPublishQoS0: does not model the copy the source keeps of a publication whose write was interrupted, so that the socket buffer can go on from it (src/MQTTProtocolClient.c:92-108).
- ProtocolClient.Client.CleanSession: does not model the queue of received messages and the cancelled commands and responses; AsyncScheduler.Scheduler.RemoveCommands is about the queue.
- ProtocolClient.Client.CloseSession: does not model the DISCONNECT packet, the closing of the socket and connect_state.
- ProtocolClient.Client.Retries: the time() calls of one pass give one value, which need not be the time that decides what is due.
- Exchange.Exchange.Publish: QoS 1 and 2 only, from two new sessions that are kept over reconnects; what a restored session adds is in ResendRuns, on the protocol. The receiver may be a broker, of which only the inbound half is used.
- Keepalive.Connection.Keepalive: closes the session in the same step, as the synchronous client does; in the asynchronous one MQTTProtocol_closeSession queues an internal disconnect, which is dispatched next (src/MQTTAsync.c:2125-2128).
- ResendRuns.AtLeastOnceExactly: leaves out subscriptions, which take message ids too (AtLeastOnce.QuietDelivers allows any choice of ids not in flight), and an asynchronous client in which an id in flight is no token.
- Liveness: that every PUBREL is answered is not claimed; an unknown id without dup is only logged (src/MQTTProtocolClient.c:412-415).
- Exactly once across a crash between handing a message over and removing its "r-" record (src/MQTTProtocolClient.c:440-442).
- Store operations that fail, the file store (src/MQTTPersistenceDefault.c) and the text form of keys; a key is a kind and a number here.
- Persistence.Restore: for a message whose "sc-" record is itself bad the restored stage is left open, because it depends on the order of the keys.
- Restored commands and queued messages, connecting to several servers and version fallback (src/MQTTAsync.c:713, 991-1022).
- src/Heap.c, src/Log.c, src/Messages.c, src/SSLSocket.c, src/Thread.c, src/StackTrace.c, src/MQTTVersion.c, select and name lookup.
- The refcounts of publications shared between messages (src/MQTTProtocolClient.c:238-248).
