# Maat in Dafny

Maat is a measurement and attestation framework. An attestation manager negotiates Copland phrases
with a partner and runs an APB (attestation protocol block) for the phrase agreed on; APBs collect
evidence in measurement graphs and send it over framed channels. This project models the parts of
the C code that hold state, parse or decide, and proves what they keep, what they undo and where
they do not do what their documentation says.

| file | part of Maat |
|---|---|
| `Ids.dfy` | the 64-bit id counters kept in files, with torn and lost updates |
| `GraphStore.dfy`, `GraphOps.dfy`, `GraphRuns.dfy` | the graph kept in a directory tree: its invariant, its operations under any failure, and every run of them |
| `NodePath.dfy` | the path of a node directory and what is recovered from it |
| `GraphXml.dfy`, `GraphXmlOps.dfy`, `GraphXmlParse.dfy` | serializing a graph to XML elements and parsing it back |
| `ChannelIo.dfy` | reading and writing with deadlines, and 4-byte length framing |
| `Validate.dfy` | comparing a contract with a base document |
| `Bytes.dfy`, `CStrings.dfy`, `Copland.dfy` | bytes, tokenizing, phrases, their arguments and templates |
| `Attester.dfy` | which options an attester keeps and which APB it runs |
| `PlaceInfo.dfy` | what a place database reveals to an APB |
| `SGraph.dfy`, `SGraphJson.dfy` | the in-memory evidence graph and its JSON form |
| `Predicates.dfy` | predicates over measurement features |

Code that changes things in place is imperative here too: `MeasurementGraph`, `Channel`, `Scenario`
and `EvidenceGraph` are classes, loops are loops, buffers and tables are arrays. What can fail in the
environment (a link that cannot be made, a write that is cut short, a deadline, a selector's answer)
is a parameter, so each contract holds for every such behaviour.

## Where the code departs from its documentation

The model follows the code. Each of these has a lemma or method with a concrete input, an exact
condition, or both.

- A counter update is not checked. An id is issued again exactly when no update in between reached
  the digit that changes (`Ids.IssuedTwice`); with a stuck counter a failed add-edge deletes a live
  edge (`GraphRuns.StuckCounterLosesEdge`).
- Labels that are not ASCII are read back as absent. Asking twice for an edge with such a label makes
  two (`GraphRuns.TwinEdges`), and that is the only way (`GraphRuns.AddCleanEdge`).
- A data file is not truncated when it is written again: a shorter datum is read back with the tail of
  the longer one (`GraphRuns.RewriteKeepsTail`), exactly when the old one was longer
  (`GraphOps.DataReadBack`). The same holds for repeated measurement elements of one type
  (`GraphXml.TailSurvives`, `GraphXml.LastWins`).
- Not every graph that is serialized can be parsed. A node whose type or address cannot be read uses up
  a number but gets no element, so an edge to it reads a slot that was never written
  (`GraphXmlParse.UnregisteredNodeLost`); a node whose address cannot be printed leaves an element
  without an address, which is refused even without edges (`GraphXmlParse.UnprintableNodeLost`).
  `GraphXmlParse.ParsesWhen` says exactly which graphs parse.
- Channels are to be non-blocking, but every call refuses those, moving no byte, and works over blocking
  ones: there every message arrives when nothing goes wrong (`ChannelIo.Exchange`). The function that
  makes channels non-blocking changes nothing (`ChannelIo.Channel.Prepare`).
- The size limit of a framed read is raised to 2^32 - 1 or cut to 32 bits. A frame over a limit of one
  byte is read (`ChannelIo.OversizeRead`) and with a limit of 2^32 only the empty one is
  (`ChannelIo.CutLimitRefuses`); `ChannelIo.LimitExceeded` and `ChannelIo.LimitCut` say for which
  limits this happens.
- Validation takes the first child that matches, and compares every text child with the first one. It
  can reject a document against itself for either reason (`Validate.FirstMatchRejectsItself`,
  `Validate.TextRejectsItself`). `Validate.AcceptsExactly` says exactly what is accepted and
  `Validate.AcceptsItself` exactly which documents are accepted against themselves.
- Naming a parameter twice hides a missing one (`Copland.RepeatedNameParses`, `Copland.RepeatedNames`);
  a phrase made of colons only has no defined parse (`Copland.ParseUndefined`); the slots for key-value
  arguments can run out (`Copland.OverrunAt`, `Copland.OverrunWhen`), and the count returned can
  include slots that were never set (`Copland.CountOverstates`, `Copland.CountIsPairs`).
- An argument of the wrong type counts as within bounds (`Attester.WrongTypeMatches`,
  `Attester.BoundedAsDocumented`). A request to run is used as the bound of the stored options, so its
  strings are expressions that no selected condition need bound (`Attester.UnboundedRequestRuns`); where
  types agree, only its strings decide whether one does (`Attester.RunBoundedWhen`).
- Empty columns vanish from place lines, and only they do (`PlaceInfo.EmptyColumnsVanish`). The column
  told is the one that was permitted exactly when no column up to it is empty (`PlaceInfo.NamedWhen`);
  with an empty address, an APB that may see the address is told the port
  (`PlaceInfo.ForbiddenPortTold`).
- The last column of a place is read with its newline (`PlaceInfo.PlaceRoundTrip`), a long column that
  is not permitted can change what is told about a permitted one (`PlaceInfo.LongColumnInterferes`, with
  the exact condition in `PlaceInfo.NonInterference`), and a missing column is read from a variable that
  was never set (`PlaceInfo.UndefinedAt`, `PlaceInfo.UndefinedWhen`).
- The evidence graph does not keep (source, destination) pairs unique (`SGraph.RepeatedPair`,
  `SGraph.PairsStayUnique`), and adding a node with empty data removes the node if it was there before
  (`SGraph.EmptyDataRemoves`, `SGraph.FailedAddUndone`). A JSON document is stored without the checks of
  the operations: `SGraphJson.TwoNodesOneAddress` breaks the invariant, and `SGraphJson.ReadValidWhen`
  says exactly which documents keep it.
- A suffix predicate reads memory before a value that is shorter than the suffix
  (`Predicates.UndefinedAt`, with the exact condition in `Predicates.UndefinedWhen`).

## Model

| member | source | states |
|---|---|---|
| Ids.IdRoundTrip | lib/graph/graph-core.h:40-72 | every 64-bit id, the invalid one included, prints to 16 digits and scans back to itself |
| Ids.ScanMeans | lib/graph/graph-core.h:57-71 | what is scanned as an id: white space, sign, "0x", digits within the width, wrapping |
| Ids.TornWrite | lib/util/util.c:188-219 | any prefix of a counter update written over the old digits leaves the old count or one at least as large as the new |
| Ids.TornCounter | lib/graph/graph-fs.c:185-212 | the same for a counter file of any length a reader accepts, with the exact condition for the count to move |
| Ids.TakeIdSpec | lib/graph/graph-fs.c:214-241 | a request issues the stored count; the count moves up exactly when the write reaches the digit that changes; an exhausted counter stays put |
| Ids.IssuedTwice | lib/graph/graph-fs.c:185-241 | in every run of requests with any torn or lost updates ids never decrease, the invalid id is final, and an id repeats if and only if no update in between moved the count |
| Ids.FullWritesCount | lib/graph/graph-fs.c:185-241 | with full updates the run counts up by one until the ids are exhausted, then every request fails |
| GraphStore.EmptyConsistent | lib/graph/graph-fs.c:28-121 | a new graph satisfies the store invariant with both counters at zero |
| GraphStore.PutEdgeConsistent | lib/graph/graph-fs-edges.c:234-273 | a complete new edge between existing nodes keeps links, directories and edge lists in bijection |
| GraphStore.EraseIsDrop | lib/graph/graph-fs-edges.c:275-307 | deleting an edge removes exactly its record and its two list entries, and finds both entries if and only if the edge is live |
| GraphStore.EraseRollsBack | lib/graph/graph-fs-edges.c:262-270 | deleting a half-made edge restores the store, at whichever step its creation stopped |
| GraphStore.IncidentIsListed | lib/graph/graph-fs-nodes.c:293-312 | the edges at a node are exactly the entries of its two edge directories |
| GraphStore.DropNodeConsistent | lib/graph/graph-fs-nodes.c:282-330 | the store without a node and its edges satisfies the invariant |
| GraphOps.NextEntry | lib/graph/graph-iteration.c:41-53 | the cursor delivers what `Names` lists of the stream and gets strictly shorter |
| GraphOps.NamesConcat | lib/graph/graph-iteration.c:41-53 | entries are delivered one by one in order; with `NamesOne`, all but "." and ".." |
| GraphOps.ListDir | lib/graph/graph-iteration.c:55-75 | a rewound cursor lists the current entries, each once, in some order |
| GraphOps.MeasurementGraph.DeleteEdge | lib/graph/graph-fs-edges.c:275-307 | the store after the call, when it reports success, and what survives any failure of its removals; under every failure no other edge record, no node and no other edge entry is touched |
| GraphOps.MeasurementGraph.DeleteListed | lib/graph/graph-fs-nodes.c:293-312 | the rewinding delete loop ends in every store under every failure and touches no edge but the listed ones, and without failures removes exactly those |
| GraphOps.MeasurementGraph.DeleteNode | lib/graph/graph-fs-nodes.c:282-330 | exactly the node and its incident edges go, self-loops once; a missing node is an error that changes nothing; whatever removals fail, no edge but those listed at the node is touched, other nodes lose at most their entries of them, no edge appears, and success means the node is gone |
| GraphOps.MeasurementGraph.NextNodeId | lib/graph/graph-fs.c:214-241 | issues the stored count and changes the node counter only |
| GraphOps.MeasurementGraph.NextEdgeId | lib/graph/graph-fs.c:185-212 | issues the stored count and changes the edge counter only |
| GraphOps.MeasurementGraph.AddData | lib/graph/graph-fs-data.c:43-74 | success if and only if the node exists, the size is representable and every byte was written; what is read back is then the bytes given if and only if the old datum was no longer; no other datum changes |
| GraphOps.DataReadBack | lib/util/util.c:188-219 | after a complete write the datum starts with the bytes and keeps the old tail; it is the bytes if and only if the old datum was no longer |
| GraphOps.PartReadBack | lib/graph/graph-fs-data.c:43-74 | a write that stops short leaves its bytes and, behind them, what the old datum had there |
| GraphOps.MeasurementGraph.AddNode | lib/graph/graph-fs-nodes.c:221-280 | an existing node is found; a new one gets the counter's id, is found under id and key, has the stored part of the datum handed in and no other and no edges, and dropping it gives the old store back but for the counter; a failure at any step leaves everything but the counter as it was; the invariant is kept |
| GraphOps.MeasurementGraph.HasEdge | lib/graph/graph-fs-edges.c:195-232 | finds an edge with the same source, label and destination if and only if the store has one |
| GraphOps.MeasurementGraph.WriteEdgeFiles | lib/graph/graph-fs-edges.c:261-264 | which links and label the new edge's directory has for each failure, and that nothing else changes |
| GraphOps.MeasurementGraph.AddEdge | lib/graph/graph-fs-edges.c:234-273 | returns a matching edge or makes one, with the source, destination and label asked for, that deleting would undo; a failure at any step, a missing endpoint included, leaves all but the counter as it was unless the counter issued a live id, and then says what is lost |
| GraphRuns.Perform | lib/graph/graph-fs-nodes.c:221-330 | every operation with every failure is a step of the run relation |
| GraphRuns.StepBelow | lib/graph/graph-fs.c:185-241 | live ids stay below their counters if and only if the step's counter update moved the count |
| GraphRuns.StepUnique | lib/graph/graph-fs-edges.c:195-273 | over every step, edges stay pairwise different if and only if the step makes no edge next to its twin |
| GraphRuns.AddCleanEdge | lib/graph/graph-fs-edges.c:234-273 | adding an edge between existing nodes without a fault keeps edges pairwise different if and only if its label is absent or ASCII or no such edge exists yet |
| GraphRuns.TwinEdges | lib/graph/graph-fs-edges.c:195-232 | a run in which two equal requests make two equal edges |
| GraphRuns.RewriteKeepsTail | lib/graph/graph-fs-data.c:43-74 | a run in which "z" written over "abc" is read back as "zbc" |
| GraphRuns.TwinIsNotAscii | lib/graph/graph-fs-edges.c:195-232 | a twin appears only for a label that is present and not ASCII |
| GraphRuns.RunInvariant | lib/graph/graph-fs-nodes.c:221-330 | in every reachable store the invariant holds, ids are below their counters while none got stuck, and edges are pairwise different while labels were ASCII |
| GraphRuns.RunStable | lib/graph/graph-fs.c:185-241 | ids are permanent names: what was below a counter is never recreated or renamed later in the run |
| GraphRuns.StuckCounterLosesEdge | lib/graph/graph-fs-edges.c:241-272 | a run of the operations in which a lost counter update makes a failed add-edge delete a live edge |
| NodePath.ReplaceInPlace | lib/graph/graph-fs-nodes.c:25-43 | pathify and unpathify rewrite exactly the characters before the terminator |
| NodePath.PathifyInverse | lib/graph/graph-fs-nodes.c:25-43 | unpathify undoes pathify if and only if the address has no '_' |
| NodePath.UnpathifyInverse | lib/graph/graph-fs-nodes.c:25-43 | pathify undoes unpathify if and only if the component has no '/' |
| NodePath.FindSlash | lib/graph/graph-fs-nodes.c:374-384 | the backward loop stops where the n-th slash from the end is |
| NodePath.PathRecovers | lib/graph/graph-fs-nodes.c:359-446 | the backward scans recover type, space and address from any built path |
| NodePath.DistinctPaths | lib/graph/graph-fs-nodes.c:45-70 | two variables share a directory if and only if their magics agree and their addresses agree up to '/' and '_' |
| GraphXml.MeasRebuild | lib/graph/graph-serialization.c:336-392 | a node's measurement elements rebuild its data in whatever order they come |
| GraphXml.LastWins | lib/graph/graph-serialization.c:631-645 | the last measurement of a type is what is stored if and only if no earlier datum of that type was longer |
| GraphXml.TailSurvives | lib/graph/graph-serialization.c:631-645 | two elements of one type of which the second keeps the tail of the first |
| GraphXml.MeasStored | lib/graph/graph-serialization.c:336-392 | a measurement element is stored, with its terminator, if and only if its text is there, fits the advertised size and its type is valid |
| GraphXml.DatumSurvives | lib/graph/graph-serialization.c:95-124 | a datum survives being written and read if and only if it is ASCII and ends with its only terminator |
| GraphXml.GraphMeans | lib/graph/graph-fs-edges.c:309-356 | the graph of a store is what its lookups give: nodes by path, data by reading, edges by their ends and label |
| GraphXml.SerializedMeaning | lib/graph/graph-serialization.c:164-257 | for every listing order a serialized document means the graph it was made from, and every slot an edge reads was written before |
| GraphXmlOps.CollectMeas | lib/graph/graph-serialization.c:95-124 | the elements are those of the registered types and no others, in the order of the directory |
| GraphXmlOps.AddNodeElem | lib/graph/graph-serialization.c:46-126 | for any node: its element with type, space, address, new number and registered data; none when its type or address cannot be read; one without an address when the address cannot be printed |
| GraphXmlOps.SerializeNodes | lib/graph/graph-serialization.c:200-215 | every unchecked write to the renumbering table is in range, the table numbers the nodes in visiting order, and the document has what becomes of each node |
| GraphXmlOps.SerializeEdges | lib/graph/graph-serialization.c:218-257 | one element per live edge, between the new numbers of its endpoints |
| GraphXmlOps.Serialize | lib/graph/graph-serialization.c:152-271 | fails if and only if the counter cannot be read, and otherwise makes the document of the store for some listing order, for any store |
| GraphXmlParse.Grow | lib/graph/graph-serialization.c:598-617 | the id map grows past any id below the limit, its size in bytes stays representable, and no entry is lost |
| GraphXmlParse.StoreMeas | lib/graph/graph-serialization.c:631-645 | writes exactly the measurements that parse over the node's data, in order |
| GraphXmlParse.ParseNode | lib/graph/graph-serialization.c:587-645 | one node element against the meaning of the document so far |
| GraphXmlParse.ParseEdge | lib/graph/graph-serialization.c:279-330 | one edge element against the meaning of the document so far; a number past the id map is refused |
| GraphXmlParse.Parse | lib/graph/graph-serialization.c:504-669 | any document parses to the graph it means, or is rejected when it has none |
| GraphXmlParse.OneNode | lib/graph/graph-serialization.c:398-482 | a node element is read if and only if its number, type, type name, address space and address are all right, and what is then stored |
| GraphXmlParse.EdgeRead | lib/graph/graph-serialization.c:279-330 | an edge element adds the edge from its source to its target with its label as read, and nothing else |
| GraphXmlParse.EdgeAfterNode | lib/graph/graph-serialization.c:598-617 | exactly which numbers an edge can refer to after a node: read, unwritten, or past the map and refused |
| GraphXmlParse.ParsesWhen | lib/graph/graph-serialization.c:152-669 | for any store and listing order, the serialized document parses if and only if every node can be read and both ends of every edge have an element; a node that cannot be read makes it refused |
| GraphXmlParse.UnprintableNodeLost | lib/graph/graph-serialization.c:76-81 | a graph of one node without edges whose document is refused |
| GraphXmlParse.UnregisteredNodeLost | lib/graph/graph-serialization.c:206-212 | a graph whose serialization refers to a slot the parser never writes |
| GraphXmlParse.RoundTrip | lib/graph/graph-serialization.c:152-669 | serializing and parsing any store with registered types and textual data gives the same nodes, data and labelled edges, for every listing order; for any other store, when the parser makes a graph of the document and when it refuses it |
| ChannelIo.Be32RoundTrip | lib/util/maat-io.c:247-400 | the length header of every 32-bit number is its big-endian form and is read back as that number |
| ChannelIo.Channel.Prepare | lib/util/maat-io.c:41-57 | the flag of a channel never changes; success if and only if it is clear or can be set again |
| ChannelIo.Channel.Read | lib/util/maat-io.c:108-185 | however it ends, the count is the number of bytes consumed and they are in the buffer in order; the result is decided by the first event out of the ordinary, error by error, or by a full buffer; success follows from any schedule that goes well and delivers enough; a channel that is not blocking gives -EINVAL and no byte |
| ChannelIo.Channel.ReadFramed | lib/util/maat-io.c:187-293 | success takes exactly one frame off the stream and returns its payload; when nothing goes wrong a frame is read if and only if it has at most a million bytes for a maximum of zero, or at most the low 32 bits of a maximum that does not fit 32, and otherwise gives -EMSGSIZE; a channel that is not blocking gives -EINVAL |
| ChannelIo.DefaultLimit | lib/util/maat-io.c:199-200 | with a maximum of zero a frame is read if and only if it has at most 1000000 bytes |
| ChannelIo.Channel.Write | lib/util/maat-io.c:296-377 | the count is the number of bytes that reached the stream; the result is decided by the first event out of the ordinary, or by the last byte; success follows over a blocking channel from any schedule that goes well and takes enough; a channel that is not blocking gives -EINVAL and no byte |
| ChannelIo.Channel.WriteFramed | lib/util/maat-io.c:379-442 | success puts one frame on the stream and reports 4 more than the payload, and follows when nothing goes wrong; a failure leaves a prefix of it; a channel that is not blocking gives -EINVAL |
| ChannelIo.LimitExceeded | lib/util/maat-io.c:199-204 | some size over the limit given is read if and only if the limit is below 2^32 - 1 |
| ChannelIo.LimitCut | lib/util/maat-io.c:251-252 | some size within the limit given is refused if and only if cutting the limit to 32 bits lost something |
| ChannelIo.OversizeRead | lib/util/maat-io.c:199-204 | any frame is read with a limit of one byte |
| ChannelIo.CutLimitRefuses | lib/util/maat-io.c:251-252 | no frame but the empty one is read with a limit of 2^32 |
| ChannelIo.FramesDecode | lib/util/maat-io.c:187-293 | whatever complete frames are read from frames followed by part of one are those sent, in order, and reading stops on a boundary |
| ChannelIo.SendAll | lib/util/maat-io.c:379-442 | the stream grows by complete frames and part of at most one more, under any schedule, and by all of them when nothing goes wrong |
| ChannelIo.ReceiveAll | lib/util/maat-io.c:187-293 | the stream is what was read, framed, and what is left, under any schedule; all frames are read when nothing goes wrong and they are within the limits |
| ChannelIo.Exchange | lib/util/maat-io.c:187-442 | what a reader gets is a prefix of what was offered, and all of it when no call failed; no call fails over a blocking channel when nothing goes wrong and payloads are within the limits; nothing moves over any other channel |
| Validate.ValidateProps | lib/util/validate.c:77-122 | two elements match if and only if their names are alike but for case, attributes are equally many unless more are allowed, and every attribute not exempt is there under its name with a value alike in its first 32 characters |
| Validate.ValidateNode | lib/util/validate.c:124-221 | the recursive comparison with its first-match search accepts exactly the decisive embeddings |
| Validate.ValidateDocument | lib/util/validate.c:235-278 | a document passes if and only if both roots exist and the base embeds decisively in the contract |
| Validate.MatchCorresponds | lib/util/validate.c:77-122 | what the loops compare, character by character |
| Validate.AttributesKept | lib/util/validate.c:109-118 | an accepted contract has an alike value for each attribute that is not exempt: two that differ within 32 characters reject |
| Validate.AttributesFound | lib/util/validate.c:109-111 | an attribute that is missing rejects |
| Validate.LeafAccepted | lib/util/validate.c:124-221 | an element without children is accepted by its name and attributes alone |
| Validate.DocumentExempts | lib/util/validate.c:263-266 | in documents only the type of a contract is exempt |
| Validate.DocumentSkips | lib/util/validate.c:256-261 | in documents only the four kinds of node are skipped |
| Validate.TextlessEmbeds | lib/util/validate.c:124-221 | every document without text embeds in itself |
| Validate.AcceptedEmbeds | lib/util/validate.c:124-221 | acceptance is sound: the part of the base that is not ignored embeds in the contract |
| Validate.EmbedsCompose | lib/util/validate.c:77-221 | embeddings compose |
| Validate.AcceptancesCompose | lib/util/validate.c:77-221 | along a chain of accepted contracts the last contains the first |
| Validate.AcceptsExtended | lib/util/validate.c:124-221 | in superset mode appending to any child list of the contract never turns acceptance into rejection |
| Validate.AcceptsExactly | lib/util/validate.c:124-221 | acceptance is exactly an embedding in which every child that embeds somewhere embeds in the first child with its name and attributes |
| Validate.UnambiguousDecisive | lib/util/validate.c:124-221 | where a base child has at most one candidate, every embedding is of that kind and is accepted |
| Validate.AcceptsItself | lib/util/validate.c:124-221 | exactly which documents are accepted against themselves, text children included |
| Validate.TextRejectsItself | lib/util/validate.c:189-215 | any two text children that differ make a document be rejected against itself |
| Validate.FirstMatchRejectsItself | lib/util/validate.c:124-221 | a document that is rejected against itself |
| Copland.ArgsToString | lib/common/copland.c:151-241 | the printer writes the arguments joined by commas and every write is inside its grown buffer |
| Copland.ParsePhraseArgs | lib/common/copland.c:786-887 | the token loop computes the argument parse, errors included |
| Copland.ParseFromPairs | lib/common/copland.c:1052-1082 | a string is parsed to a phrase if and only if it stands for it: its text, the first template of that text and number of "=" signs, and as many arguments of that template |
| Copland.ParseMeans | lib/common/copland.c:95-145 | the same for the parse function, against a grammar of parts between delimiters |
| Copland.TokenMeans | lib/common/copland.c:838-866 | one argument: name and value around "=", of the type of the first parameter of that name |
| CStrings.ParseIntMeans | lib/common/copland.c:720-727 | exactly which texts are read as an int, and as which |
| Copland.PhraseRoundTrip | lib/common/copland.c:247-303 | printing a phrase and parsing it against any templates gives the same phrase, when the first template of its text and arity describes its arguments |
| Copland.ParseSound | lib/common/copland.c:644-887 | every successful parse of any string has its template's text and arity and only its arguments, typed and in range |
| Copland.ParseUndefined | lib/common/copland.c:95-145 | the parse is undetermined if and only if the string consists of colons |
| Copland.RepeatedNames | lib/common/copland.c:827-877 | a successful parse names every parameter if and only if no name is repeated |
| Copland.RepeatedNameParses | lib/common/copland.c:827-877 | for any two parameters, naming the first twice is accepted |
| Copland.ParseArgsKv | lib/common/copland.c:893-988 | the key-value loop: no arguments if and only if there is no "=", otherwise the first two parts of every token, its count and its error results |
| Copland.OverrunWhen | lib/common/copland.c:893-988 | the slots run out if and only if the string has tokens with one '=' each that are all well formed, at least one, and then tokens without '=' |
| Copland.OverrunAt | lib/common/copland.c:893-988 | they run out for "a=b,c" |
| Copland.CountIsPairs | lib/common/copland.c:893-988 | the count returned is the number of pairs if and only if every token has one '=' |
| Copland.CountOverstates | lib/common/copland.c:893-988 | for "a=b=c" it is 2 with one pair |
| Copland.ArgsArrive | lib/common/copland.c:893-988 | printed arguments arrive with the same names and values in order, and the slots suffice |
| Attester.EvalBounds | lib/common/copland.c:342-409 | the comparison loop computes `Bounded` |
| Attester.ArgsBoundedMeans | lib/common/copland.c:342-409 | a match guarantees, exactly, names up to the first type mismatch and values before it |
| Attester.BoundedAsDocumented | lib/common/copland.h:374-377 | the match is the documented one if and only if types agree position by position |
| Attester.WrongTypeMatches | lib/common/copland.c:382-385 | an argument of the wrong type that matches |
| Attester.MatchIsEquality | lib/common/copland.c:342-409 | where types agree and there are no strings, a match in either direction is equality |
| Attester.CopyBounded | lib/common/copland.c:415-464 | the phrases kept are the order-preserving filter by "some condition bounds it" |
| Attester.FilterConcat | lib/common/copland.c:434-458 | each phrase is kept or dropped by itself, in order and as often; with `FilterOne`, by whether some condition bounds it |
| Attester.FindApb | lib/common/copland.c:1685-1709 | the first APB with a template of the phrase's text and arity, none if and only if there is none |
| Attester.Scenario.SelectOptions | src/am/am.c:145-183 | stored options are exactly the bounded part of the offer; after a failure none is stored |
| Attester.Scenario.Spawn | src/am/am.c:200-277 | an APB runs only for a request that bounds a stored option and that one of its templates supports, for the certified partner, and every refusal has one of these causes |
| Attester.Negotiate | src/am/am.c:145-277 | over any sequence of selections and requests, each APB run is justified by the last selection, its phrase has the names, types, places and integers of a condition selected then up to the first type mismatch, only its strings decide whether a condition bounds it where types agree, and none runs after a selection that failed |
| Attester.BoundedByStrings | lib/common/copland.c:342-409 | two phrases that bound the same option agree in everything but strings, and one bounds the other if and only if its strings match |
| Attester.RunBoundedWhen | src/am/am.c:145-277 | where types agree, the phrase run is bounded by a selected condition if and only if its strings match those of one it agrees with in everything else |
| Attester.RunIsSelected | src/am/am.c:145-277 | with types that agree and no strings, the phrase run was itself offered and selected |
| Attester.UnboundedRequestRuns | src/am/am.c:188-221 | a request whose string no selected condition bounds is run |
| PlaceInfo.ReadLine | lib/util/csv.c:33-114 | the line found is the first of the file whose column is the key, the whole key; none if and only if there is none |
| PlaceInfo.ScanKey | lib/util/csv.c:90-102 | the token loop decides whether the column is the key |
| PlaceInfo.GetColumn | lib/util/csv.c:125-175 | the token loop finds the column of the line cut to the buffer |
| PlaceInfo.TakeColumn | lib/common/copland.c:1798-1870 | one more column, or a refusal when it is missing or too long, and whether it tells anything |
| PlaceInfo.QueryPlace | lib/common/copland.c:1882-2018 | the whole query with each of its refusals; what is told is made of the first line whose first column is the id |
| PlaceInfo.LineForMeans | lib/util/csv.c:33-114 | first match and no earlier one, over the lines as they are read |
| PlaceInfo.RowFoundUnder | lib/util/csv.c:90-102 | a row is found under its first column that is not empty |
| PlaceInfo.ToldLine | lib/common/copland.c:1798-1868 | permissions 1, 2, 4 and 8 give address, port, kernel version and domain, and "0" stands for the rest |
| PlaceInfo.PlaceInformation | lib/common/copland.c:2163-2282 | the fields read from the line of a place, its errors, and when a value is used that was never set |
| PlaceInfo.InfoMeans | lib/common/copland.c:2218-2276 | the same permissions give the fields from columns two to five |
| PlaceInfo.PermsMean | lib/common/copland.c:1740-1761 | which texts are read as permissions, cut to 32 bits, refused, or leave them unset |
| PlaceInfo.UndefinedWhen | lib/common/copland.c:2198-2276 | that happens if and only if the permissions are missing or no number, or a permitted column is missing |
| PlaceInfo.UndefinedAt | lib/common/copland.c:2218-2229 | it happens for a line that permits the address and ends before it |
| PlaceInfo.EmptyColumnsVanish | lib/util/csv.c:150-170 | the tokens of any line are its columns that are not empty, so its columns if and only if none is empty |
| PlaceInfo.NamedWhen | lib/util/csv.c:150-170 | the column asked for is the one found if and only if no column up to it is empty |
| PlaceInfo.ForbiddenPortTold | lib/common/copland.c:1798-2013 | an APB that may see the address only is told the port when the address is empty |
| PlaceInfo.ColumnClipped | lib/util/csv.c:125-175 | the column found in any row and any buffer: whole if and only if it ends inside, otherwise cut short or missing |
| PlaceInfo.FillInReads | lib/common/copland.c:1917-2013 | the query on any line: refused if a column is missing or does not fit, otherwise the columns as they were read |
| PlaceInfo.NonInterference | lib/common/copland.c:1798-2013 | two database lines in which the same is found for the permitted columns, read whole, give the same line or the same refusal; when the first is answered, the second gets the same answer if and only if its permitted columns are read whole too |
| PlaceInfo.OnlyPermittedRead | lib/common/copland.c:1798-2013 | for any two lines, well formed or not, only how permitted columns read in the remaining buffer matters |
| PlaceInfo.LongColumnInterferes | lib/util/csv.c:125-175 | two rows that agree on the permitted columns and are told apart, because a column is cut short |
| PlaceInfo.PlaceRoundTrip | lib/common/copland.c:1917-2276 | for any line, reading back what was written for a place gives each permitted field its column as it was read and leaves the others unset; what was read is what is found in the line if and only if it was read whole |
| PlaceInfo.WrittenWhen | lib/common/copland.c:1917-2013 | for any line, an answer is written if and only if every column is read and fits and some column read is longer than one character; with columns read whole, refused if and only if the visible ones do not fit |
| PlaceInfo.LongRow | lib/common/copland.c:1917-2013 | a row with an address of 600 characters is read whole and answered |
| PlaceInfo.LongAddress | lib/common/copland.c:1917-2013 | an address of 1012 characters is read whole and refused for its length |
| SGraph.FindNode | lib/sgraph/query.c:25-43 | the first node with the address, and 0 if and only if there is none |
| SGraph.GetEdges | lib/sgraph/api.c:214-246 | the handles of exactly the edges at one end of a node, in the order of the list |
| SGraph.TouchingHandles | lib/sgraph/api.c:214-246 | those edges are live, listed once, and all of them |
| SGraph.GetNeighbours | lib/sgraph/api.c:124-199 | one handle for each edge that meets the node, in order: the node at the other end, an edge that enters being followed backwards |
| SGraph.NeighboursAre | lib/sgraph/api.c:124-199 | neighbours, directed or not, follow the edges one by one, each the node at the far end |
| SGraph.NeighboursConserved | lib/sgraph/api.c:124-199 | neighbours, with the node itself once for each edge from it to itself, are outgoing plus incoming neighbours, as multisets and in number |
| SGraph.StepValid | lib/sgraph/api.c:53-104 | every operation keeps addresses different, edges anchored and data nonempty |
| SGraph.RunValid | lib/sgraph/api.c:53-445 | the invariant holds over every run on live handles |
| SGraph.PairsStayUnique | lib/sgraph/graph.c:70-81 | a new edge keeps pairs unique if and only if its two nodes were not joined |
| SGraph.FailedAddUndone | lib/sgraph/api.c:278-297 | a failed add with data leaves the graph as it was if and only if the node was new |
| SGraph.RepeatedPair | lib/sgraph/graph.c:70-81 | two calls that make two edges between the same nodes |
| SGraph.EmptyDataRemoves | lib/sgraph/api.c:278-297 | a call with empty data that removes an existing node |
| SGraph.EvidenceGraph.AddNode | lib/sgraph/api.c:53-75 | returns the node with the address, put at the end if it was missing; nothing is lost or leaked |
| SGraph.EvidenceGraph.AddEdge | lib/sgraph/api.c:366-389 | appends one edge between the two nodes, with the label if there is one |
| SGraph.EvidenceGraph.AddData | lib/sgraph/api.c:264-276 | appends the datum to that node's and changes nothing else, refused if and only if it has no tag or no bytes |
| SGraph.EvidenceGraph.AddNodeWithData | lib/sgraph/api.c:278-297 | succeeds if and only if address, tag and bytes are there, and then the datum is the last of the node with that address; otherwise removes the node |
| SGraph.EvidenceGraph.RemoveEdge | lib/sgraph/api.c:437-445 | the edge goes from the list and nothing else, and is released once |
| SGraph.EvidenceGraph.RemoveNode | lib/sgraph/api.c:77-104 | the node and exactly the edges with its address at an end go, self-loops included, each released once; what was made is always what was released and what is live |
| SGraph.EvidenceGraph.DecodeEdge | lib/sgraph/api.c:391-435 | for a live edge both ends are always found, and they are the nodes it runs between |
| SGraphJson.WriteGraph | lib/sgraph/json.c:607-737 | the array loops build the JSON of the graph |
| SGraphJson.ReadAddress | lib/sgraph/json.c:114-147 | the field loop, the last matching field winning |
| SGraphJson.ReadData | lib/sgraph/json.c:219-263 | the field loop; a blob that decodes to nothing is no datum |
| SGraphJson.ReadNode | lib/sgraph/json.c:401-450 | the field loop; a node without an address is dropped |
| SGraphJson.ReadEdge | lib/sgraph/json.c:547-598 | the field loop; an edge without both addresses is dropped |
| SGraphJson.ReadGraph | lib/sgraph/json.c:739-778 | the field loop of the whole graph; undefined if and only if a value that is no object stands where one is read |
| SGraphJson.AddressMeans | lib/sgraph/json.c:114-147 | an address is read from the last strings under "space" and "addr", if and only if both are there |
| SGraphJson.DatumMeans | lib/sgraph/json.c:219-263 | a datum is read from the last strings under "tag" and "blob", if and only if both are there and the blob is not empty |
| SGraphJson.NodeMeans | lib/sgraph/json.c:401-450 | a node has the address of the last object under "address" and the contents of the last arrays under "data" and "labels" |
| SGraphJson.EdgeMeans | lib/sgraph/json.c:547-598 | an edge has the addresses of the last objects under "source" and "dest" and the last array of labels |
| SGraphJson.GraphMeans | lib/sgraph/json.c:739-778 | a graph has the contents of the last arrays under "nodes", "edges" and "labels" |
| SGraphJson.CollectConcat | lib/sgraph/json.c:31-53 | items are read one by one: one that does not convert is dropped alone |
| SGraphJson.ReadValidWhen | lib/sgraph/json.c:739-778 | the graph read keeps the invariant if and only if the addresses in the document are different and its edges name its nodes |
| SGraphJson.TwoNodesOneAddress | lib/sgraph/json.c:739-778 | a document with two nodes of one address is read and breaks the invariant |
| SGraphJson.RoundTrip | lib/sgraph/json.c:60-778 | for any nodes, edges and labels, encoding and decoding gives them back in order if and only if no datum is empty |
| SGraphJson.Deserialized | lib/sgraph/json.c:780-803 | a valid graph read back has the same content, keeps the invariant, and answers every query by address as before |
| Predicates.CheckPredicate | lib/measurement_spec/meas_spec-api.c:91-180 | the early-exit loop computes the first settling result, and with no values or an unknown operator passes on the lookup's result |
| Predicates.TextMeans | lib/measurement_spec/meas_spec-api.c:117-128 | what each text operator means, its name in any case |
| Predicates.SignedMeans | lib/measurement_spec/meas_spec-api.c:129-148 | what each comparison of signed numbers means |
| Predicates.UnsignedMeans | lib/measurement_spec/meas_spec-api.c:149-169 | what each comparison of unsigned numbers means |
| Predicates.NumberFails | lib/measurement_spec/meas_spec-api.c:61-89 | -1 if and only if one of the two numbers does not convert |
| Predicates.KnownOperators | lib/measurement_spec/meas_spec-api.c:117-169 | no other name is an operator |
| Predicates.UndefinedWhen | lib/measurement_spec/meas_spec-api.c:121-128 | memory before a value is read if and only if a suffix is longer than a value that no settling one precedes |
| Predicates.UndefinedAt | lib/measurement_spec/meas_spec-api.c:121-128 | it is for the value "a" and the suffix "bb" |
| Predicates.FirstSettles | lib/measurement_spec/meas_spec-api.c:171-175 | a result is reported if and only if it comes before any other that settles the question |
| Predicates.DecideMeans | lib/measurement_spec/meas_spec-api.c:115-176 | "all" is a conjunction, "any" a disjunction with no error before, and an error is reported if and only if it comes first |
| Predicates.Dual | lib/measurement_spec/meas_spec-api.c:129-169 | "all below" and "any at least" fail together and otherwise disagree, for every pair of opposite comparisons |

## Left out

- Signing, certificates, RSA, AES, TPM and compression: calls into other libraries.
- XML and JSON text, XPath and base64: documents are element lists and value trees, and base64 is a pair of inverse functions.
- fork, exec, pipes, SELinux contexts, the selector and the scenario's state transitions.
- The appraiser's side of a negotiation, which only logs an option outside the initial set.
- get_node, data iteration and has_data of the stored graph: lookups whose parts are modelled in the operations that use them.
- query_place_information, which chooses where the database comes from: its two halves are modelled.
- Path buffers and PATH_MAX are a failure parameter; address components "", "." and ".." are not told apart from others.
- sg_get_nodes, sg_get_nodes_with_data, sg_get_data, sg_remove_data and label edits of the evidence graph: easy members of the same kind.
- Out-of-memory failures of the evidence graph and of its JSON form.
- The number conversions of feature predicates are parameters.
- GraphOps.MeasurementGraph.DeleteNode: when a removal fails, which of the node's own edges and entries are left is not stated; that nothing else is touched is.
- GraphXmlParse.Parse: nothing is stated about the graph when an edge element reads a slot that was never written, because the code reads uninitialised memory there.
- SGraph.GetNeighbours: takes the address of the node, which the C function reads through the handle.
