# pan-go node console core in Dafny

pan-go is a peer-to-peer console. Each node keeps a registry of modules,
talks to other nodes over QUIC, finds them with UDP broadcasts, and
serves a web console for browsing local and remote file systems. This
project models the parts of that system that decide what happens, on
values and on small classes, and proves what they promise:

- **the bucket containers** (`app/cache`, `cache`, `memory`): sorted slices
  searched by binary search, with the search and delete as written and as
  intended;
- **the node wire codec** (`app/node`): the header, message, request and
  response layouts over a chunked reader, with the handler context, the
  application's route groups, and the node manager's connection bookkeeping;
- **the peer codec and managers** (`peer`): segment fields, requests and
  responses, and the node and route managers built on nested buckets;
- **broadcast** (`broadcast`, `app/broadcast.go`): the packet format, its
  checksum and the splitting of a packed buffer into MTU-sized blocks;
- **the QUIC routes** (`app/net/quic.go`): the dial decision with its failure
  counter, and the broadcast announcement;
- **the registries and services**: the core module registry, the runtime
  registry keyed by type, and the module, node and ExtFS item services;
- **the web console's logic**: path parsing and root extraction, the path
  input, the module list's reducer, and the ExtFS browser's navigation and
  modes.

Each Go or TypeScript function becomes a Dafny function when it computes
a value and a method when it loops or updates state. Each object whose
fields change becomes a class. Repositories, node managers, decoders and
other collaborators the core calls but does not define are parameters
of function type: the model states what the core does with their answers.
Where the code differs from what it evidently means, the model has both
versions, a lemma with the input that separates them, and the corrected
version, which the rest of the model builds on (see "## Findings").

## Model

| member | source | states |
|---|---|---|
| Buckets.SearchSpec | app/cache/bucket.go:272-304 | On a slice sorted by hash code, the search reports found exactly when some item has the hash, at an index holding it; otherwise it reports the insertion point, -1 standing for "after the last item" |
| Buckets.SearchIndex | app/cache/bucket.go:272-304 | The binary-search loop (min/max/prev indexes, break on equality) computes the search result Search specifies, on every sorted slice |
| Buckets.SearchLoopAsWritten | app/cache/bucket.go:279-303 | The loop exactly as written: a found result always points at an item that compares equal to the hash |
| Buckets.SearchAsWritten | app/cache/bucket.go:272-304 | SearchBucketIndex as written reports found only at an index holding the hash |
| Buckets.SearchAsWrittenMissesMidArray | app/cache/bucket.go:272-304 | On [1,3,5,7] with hash 2 the code as written returns (-1, false) although the insertion point is 1, and appending at -1 leaves the slice unsorted |
| Buckets.DeleteAsWritten | app/cache/bucket.go:167-177 | The slice Delete builds as written is one shorter than the bucket |
| Buckets.DeleteAsWrittenLosesPrefix | app/cache/bucket.go:167-177 | Deleting the middle of [1,2,3] as written gives [3, zero] where the removal is [1,3] |
| Buckets.AtOp | app/cache/bucket.go:74-87 | At with a non-negative index reads from the front, a negative one from the back, and is defined exactly for -len <= index < len |
| Buckets.SwapOpSpec | app/cache/bucket.go:101-116 | Swap keeps the slice sorted, maps the item's hash to the item and every other hash as before, and gives back the replaced item exactly when the hash was stored |
| Buckets.SearchOrStoreOpSpec | app/cache/bucket.go:119-135 | SearchOrStore reports true exactly for a stored hash and then changes nothing and returns the stored item; otherwise the argument is added and returned |
| Buckets.StoreOpSpec | app/cache/bucket.go:138-154 | Store fails with the duplicate error exactly for a stored hash and then changes nothing; otherwise the size grows by one and the item is added, the slice staying sorted |
| Buckets.DeleteOpSpec | app/cache/bucket.go:157-180 | The corrected Delete drops exactly the entry of the hash, keeps the slice sorted, and shrinks it by one only when the hash was stored |
| Buckets.SearchFindsContent | app/cache/bucket.go:90-98 | On a sorted slice the search finds a hash exactly when it is in the content, and the item at the index is the content's item |
| Buckets.BinarySearchSpec | app/node/node.go:377-385 | slices.BinarySearchFunc on a sorted slice reports found exactly for a stored key, at its item, and otherwise the insertion point |
| Buckets.BinarySearchFinds | app/node/node.go:377-385 | On a sorted slice the binary search reports found exactly when some item has the key, at such an item, and otherwise an insertion point |
| Buckets.BinarySearchAgrees | app/node/node.go:377-385 | The position-only binary search and the bucket search give the same verdict, at the same position, with -1 standing for the end |
| Buckets.InsertSpec | app/cache/bucket.go:145-149 | Inserting at the insertion point keeps the slice sorted and distinct, grows it by one and adds exactly the new entry to the content |
| AppCacheBucket.SimpleBucket.constructor | app/cache/bucket.go:40-45 | NewBucket starts empty with the given comparator |
| AppCacheBucket.SimpleBucket.HashCodes | app/cache/bucket.go:48-61 | The hash codes in slice order, nil exactly for an empty bucket |
| AppCacheBucket.SimpleBucket.Size | app/cache/bucket.go:64-66 | Size is the number of items |
| AppCacheBucket.SimpleBucket.Items | app/cache/bucket.go:69-71 | Items is a copy of the slice (an empty one, never nil) |
| AppCacheBucket.SimpleBucket.At | app/cache/bucket.go:74-87 | At agrees with AtOp: negative indexes count from the end, out of range gives not-ok |
| AppCacheBucket.SimpleBucket.Search | app/cache/bucket.go:90-98 | Search finds an item exactly when its hash is in the bucket's content, and returns that item |
| AppCacheBucket.SimpleBucket.Swap | app/cache/bucket.go:101-116 | Corrected: Swap maps the hash to the new item, leaves the rest of the content alone, keeps the bucket sorted and returns the replaced item if there was one |
| AppCacheBucket.SimpleBucket.SearchOrStore | app/cache/bucket.go:119-135 | Corrected: a stored hash gives the stored item with true and no change; otherwise the argument is inserted and returned with false |
| AppCacheBucket.SimpleBucket.Store | app/cache/bucket.go:138-154 | Corrected: a stored hash gives "Bucket Item already existsed" and no change; otherwise the size grows by one and the item is in the content |
| AppCacheBucket.SimpleBucket.Delete | app/cache/bucket.go:157-180 | Corrected: Delete removes exactly the argument's hash from the content, shrinking the bucket by one when it was there and changing nothing otherwise |
| CacheBucket.Bucket.constructor | cache/bucket.go:49-55 | NewBucket starts empty with the given comparator |
| CacheBucket.Bucket.HashCodes | cache/bucket.go:58-73 | The hash codes in slice order, nil exactly for an empty bucket |
| CacheBucket.Bucket.Size | cache/bucket.go:76-84 | Size is the number of items |
| CacheBucket.Bucket.Items | cache/bucket.go:87-97 | A copy of the items, nil exactly for an empty bucket |
| CacheBucket.Bucket.At | cache/bucket.go:100-116 | Negative indexes count from the end; out of range gives not-ok |
| CacheBucket.Bucket.Search | cache/bucket.go:119-130 | Search finds an item exactly when its hash is in the content, and returns that item |
| CacheBucket.Bucket.Swap | cache/bucket.go:133-150 | Corrected: after Swap the content maps the hash to the new item (so Search returns it); the replaced item is returned if there was one |
| CacheBucket.Bucket.SearchOrStore | cache/bucket.go:153-171 | Corrected: a second insert of a stored hash keeps and returns the original item with true; otherwise the argument is inserted |
| CacheBucket.Bucket.Store | cache/bucket.go:174-192 | Corrected: a duplicate hash errors and leaves the bucket unchanged; otherwise the item is added and the size grows by one |
| CacheBucket.Bucket.Delete | cache/bucket.go:195-221 | Corrected: after Delete the hash is gone from the content (so Search fails) and nothing else changed; the code's copies corrupt a middle delete (Findings, cache/bucket.go:195-221 row) |
| CacheBucket.DeleteAsWrittenLosesMiddle | cache/bucket.go:195-221 | As written, indexOfBucket finds 2 in [1,2,3] at index 1 and the two copies leave [3, zero], where the corrected Delete leaves [1,3] |
| MemoryBucket.Bucket.constructor | memory/bucket.go:244-250 | NewBucket starts empty with the given comparator |
| MemoryBucket.Bucket.GetHashCodes | memory/bucket.go:49-64 | The hash codes in slice order, nil exactly for an empty bucket |
| MemoryBucket.Bucket.Count | memory/bucket.go:67-75 | Count is the number of items |
| MemoryBucket.Bucket.GetAll | memory/bucket.go:78-88 | A copy of the items, nil exactly for an empty bucket |
| MemoryBucket.Bucket.GetLastItem | memory/bucket.go:91-102 | The zero value for an empty bucket, else the final element, which in the code's descending order compares below every other (the bucket's test expects the highest; Findings, memory/bucket.go:219 row) |
| MemoryBucket.Bucket.GetItem | memory/bucket.go:105-116 | The item stored under the hash, the zero value when there is none |
| MemoryBucket.Bucket.SetItem | memory/bucket.go:119-134 | Corrected: SetItem makes the content map the hash to the item and leaves every other entry as it was |
| MemoryBucket.Bucket.GetOrAddItem | memory/bucket.go:137-155 | Corrected: a stored hash gives the existing item with existed = true and no change; otherwise the argument is inserted |
| MemoryBucket.Bucket.AddItem | memory/bucket.go:158-175 | Corrected: a duplicate hash errors and leaves the bucket unchanged; otherwise the item is added |
| MemoryBucket.Bucket.RemoveItem | memory/bucket.go:178-204 | Corrected: after RemoveItem the hash is gone, so GetItem gives the zero value; nothing else changes; the code's copies corrupt a middle removal (Findings, memory/bucket.go:178-204 row) |
| MemoryBucket.RemoveAsWrittenLosesMiddle | memory/bucket.go:178-204 | As written, findBucketItemIdx finds 2 in the descending [3,2,1] at index 1 and the two copies leave [1, zero], where the corrected RemoveItem leaves [3,1] |
| MemoryBucket.DescendingOrder | memory/bucket.go:209-241 | Because the search compares (hash, mid), the reverse of the cache variants, a memory bucket runs from the highest hash code to the lowest |
| MemoryBucket.LastItemAfterTwoAdds | memory/bucket.go:209-241 | On an empty bucket under cmp.Compare, AddItem of hash 1, then of hash 2, then GetLastItem gives the hash-1 item, since compare(hash, mid) puts 2 in front; the bucket's test expects the hash-2 item |
| MemoryBucket.TwoAddsDescend | memory/bucket.go:157-175 | Adding 1 to the empty bucket gives [1]; adding 2 then gives [2,1] |
| MemoryBucket.FindAsWrittenMissesMidArray | memory/bucket.go:209-241 | As written, findBucketItemIdx on the descending [7,5,3,1] with hash 6 returns (-1, false) although the insertion point is 1, and appending at -1 leaves the slice out of order |
| MemoryPocket.IndexOf | memory/pocket.go:43 | slices.Index: the first position holding the value, or -1 exactly when it is absent |
| MemoryPocket.RemoveSwapLastSpec | memory/pocket.go:42-54 | Removing by swap-with-last drops one occurrence (the multiset loses exactly one copy) and the length by one, and changes nothing for an absent value |
| MemoryPocket.Pocket.constructor | memory/pocket.go:14-19 | NewPocket is empty |
| MemoryPocket.Pocket.GetAll | memory/pocket.go:22-32 | A copy of the items, nil exactly when empty |
| MemoryPocket.Pocket.Add | memory/pocket.go:35-39 | The arguments are appended in order |
| MemoryPocket.Pocket.Remove | memory/pocket.go:42-54 | The first occurrence is replaced by the last element and the slice shortened: one copy fewer, the length down by one, nothing changed for an absent item |
| NodeManagement.FirstIDsAreRowKeys | app/node/node.go:341-352 | Under the manager's invariant the node IDs TraverseNodeID visits are distinct, strictly increasing, and exactly the stored node IDs |
| NodeManagement.TraverseRow | app/node/node.go:362-375 | The callback loop over one row visits the row in order up to and including the first node it rejects, all of it when none is rejected |
| NodeManagement.RowInsert | app/node/node.go:420-424 | Inserting a connection with the row's node ID at its insertion point keeps the row sorted by resource ID and adds exactly that connection |
| NodeManagement.RowRemove | app/node/node.go:405 | Removing one connection from a row of two or more keeps the row valid and drops exactly that resource ID |
| NodeManagement.MatrixInsertRow | app/node/node.go:415-418 | A new one-node row at the insertion point keeps the matrix sorted by node ID and adds exactly that node ID |
| NodeManagement.MatrixRemoveRow | app/node/node.go:401-404 | Dropping a row keeps the matrix sorted and removes exactly that node ID |
| NodeManagement.NodeManager.constructor | app/node/node.go:494-499 | A fresh manager holds no rows |
| NodeManagement.NodeManager.TraverseNodeID | app/node/node.go:341-352 | The callback sees the first node ID of each row in order; the first error stops the walk and is returned; with no error every row was visited |
| NodeManagement.NodeManager.Search | app/node/node.go:377-385 | A copy of the row stored for the node ID, nil exactly when there is none |
| NodeManagement.NodeManager.TraverseNode | app/node/node.go:362-375 | Nothing is visited for an unknown node ID; otherwise the row in order, stopping after the first node the callback rejects |
| NodeManagement.NodeManager.Delete | app/node/node.go:387-406 | Only the connection with that (node ID, resource ID) goes; a row left empty is dropped; an unknown pair changes nothing; the invariant is kept |
| NodeManagement.NodeManager.SearchOrStore | app/node/node.go:408-428 | A stored (node ID, resource ID) gives the stored node with true and no change; a new node ID gets a one-node row; a known one gets the node inserted into its row; false in both cases |
| NodeManagement.NodeManager.Count | app/node/node.go:430-439 | The length of the node ID's row, 0 exactly when there is none |
| NodeManagement.Access | app/node/node.go:695-705 | Access passes exactly when every enabled guard passes; a refusal is the answer of the first enabled guard that refuses, every enabled guard before it having passed |
| NodeManagement.FirstRefusalShift | app/node/node.go:695-705 | When the first guard lets the node pass, the first refusing guard of the rest is the first refusing guard of the whole list |
| NodeManagement.ResourceID | app/node/node.go:721-734 | The resource ID is 13 bytes: the node type, then the unix time read back as a big-endian uint64, then the sequence as a big-endian uint32 |
| NodeManagement.NodeModule.constructor | app/node/node.go:494-499 | A node module starts with an empty manager (created once) and sequence 0 |
| NodeManagement.NodeModule.Control | app/node/node.go:707-719 | An Access refusal is returned and nothing is stored; a node already stored gives ErrConflict and changes nothing; otherwise only the node's row changes: it becomes [node] when there was none, and otherwise holds the node under its resource ID with the old row's other entries |
| NodeManagement.NodeModule.NewResourceID | app/node/node.go:721-734 | Each call advances the sequence by one modulo 2^32 and returns the resource ID of the type, the time and the new sequence |
| NodeCodec.Header.constructor | app/node/header.go:75-77 | InitHeader gives a valid header with no entries |
| NodeCodec.Header.Set | app/node/header.go:23-25 | Set maps the key to the new value whether it was present or not, and leaves every other entry alone |
| NodeCodec.Header.Get | app/node/header.go:27-33 | Get answers true exactly when the key is present, with its value; otherwise nil (empty) and false |
| NodeCodec.Header.Del | app/node/header.go:35-40 | Del removes the key and nothing else; deleting an absent key changes nothing |
| NodeCodec.SegmentSpec | app/node/header.go:64-66 | A segment read is a 4-byte big-endian length followed by that many bytes; on success the data has exactly that length and sits right after the length; an empty stream gives EOF |
| NodeCodec.SegmentRoundTrip | app/node/header.go:53-56 | A length-prefixed field, as MarshalHeader writes it, reads back as the same data, consuming 4 plus its length bytes, whatever follows |
| NodeCodec.ParseSegment | app/node/request.go:33 | Reading a segment from a stream of chunks agrees with the flat-byte reading, and leaves exactly the unread bytes in the stream |
| NodeCodec.MarshalHeader | app/node/header.go:42-59 | An empty header gives a nil reader and size 0; otherwise the reader holds every item's length-prefixed key and value, in bucket order, and the size is its length |
| NodeCodec.AppendEntries | app/node/header.go:49-57 | The loop appends, item after item, the key length, the key, the value length and the value |
| NodeCodec.AppendItem | app/node/header.go:51-56 | One pass appends the entry's key segment and then its value segment, each a uint32 size and the bytes |
| NodeCodec.DecodeEntry | app/node/header.go:62-70 | One pass reads the key segment and then the value segment; success consumes at least the two 4-byte lengths |
| NodeCodec.EntriesRoundTrip | app/node/header.go:42-73 | The entries MarshalHeader writes are read back, in order, as exactly the same items and without error (keys and values shorter than 2^32 bytes) |
| NodeCodec.UnmarshalHeaderAsWritten | app/node/header.go:61-73 | As written the loop only leaves through a failed read and returns that error, so UnmarshalHeader never reports success, not even at the end of the header |
| NodeCodec.UnmarshalHeader | app/node/header.go:61-73 | Corrected end case: every entry read is Set into the header in order, and the error is the one that stopped the reading (none when the header is used up exactly) |
| NodeCodec.MessageChunks | app/node/message.go:22-29 | A marshalled message is the header size as a uint32 (wrapped modulo 2^32), the header bytes, the body |
| NodeCodec.ReadAll | app/node/message.go:28 | Reading an io.MultiReader to its end fails exactly when one of its readers is nil |
| NodeCodec.EmptyHeaderPanics | app/node/message.go:23-28 | As written, a message with an empty header puts the nil header reader into the MultiReader, so reading it fails; without the nil reader it is four zero bytes and the body |
| NodeCodec.UnmarshalMessage | app/node/message.go:31-54 | Corrected: the error is set exactly when the size read or the header decoding fails; on success the new header holds the decoded entries and the body is the rest of the stream |
| NodeCodec.MessageRoundTrip | app/node/message.go:22-54 | A marshalled message decodes to the items it was built from, and its body stream delivers the same bytes as the original body |
| NodeCodec.NonEmptyHeaderNeverDecodes | app/node/message.go:43-48 | With UnmarshalHeader as written, a message with any header entry never decodes |
| NodeCodec.MarshalMessage | app/node/message.go:22-29 | Corrected: the stream produced is the message's chunks: size, header bytes, body |
| NodeCodec.HeaderSurvivesRoundTrip | app/node/header.go:23-25 | Setting a header's items one by one into an empty header gives back exactly its entries |
| NodeCodec.Request.constructor | app/node/request.go:42-45 | InitRequest gives a fresh empty header, no name and no body |
| NodeCodec.RequestChunks | app/node/request.go:21-29 | A marshalled request is its name as a length-prefixed segment followed by the marshalled message |
| NodeCodec.MarshalRequest | app/node/request.go:21-29 | The stream produced is the request's chunks |
| NodeCodec.UnmarshalRequest | app/node/request.go:31-40 | A failed name read returns its error and leaves the request untouched; otherwise the name is stored even when the message then fails, and the error is set exactly when the message does not decode |
| NodeCodec.UnmarshalRequestMessage | app/node/request.go:39 | Decoding the embedded message into the request keeps its name; header and body change only when the message decodes, to the decoded entries and the rest of the stream; the error is set exactly when it does not |
| NodeCodec.RequestRoundTrip | app/node/request.go:21-40 | A marshalled request parses back to its name, and then to its header items and body |
| NodeCodec.Response.constructor | app/node/response.go:38-41 | InitResponse gives a fresh empty header, code 0 and no body |
| NodeCodec.ResponseChunks | app/node/response.go:18-24 | A marshalled response is its code as a big-endian uint32 (wrapped modulo 2^32) followed by the marshalled message |
| NodeCodec.MarshalResponse | app/node/response.go:18-24 | The stream produced is the response's chunks |
| NodeCodec.DecodeCode | app/node/response.go:28-32 | binary.Read succeeds exactly when four bytes are available; the code is their big-endian value and the rest of the stream follows |
| NodeCodec.UnmarshalResponse | app/node/response.go:26-36 | A failed code read returns its error and leaves the response untouched; otherwise the code is stored and the error is set exactly when the message does not decode |
| NodeCodec.ResponseRoundTrip | app/node/response.go:18-36 | A marshalled response decodes to its code modulo 2^32, then to its header items and body |
| NodeContext.Context.constructor | app/node/context.go:77-85 | InitContext gives code -1, an empty response header, an empty session and a fresh request with an empty header, no name and no body |
| NodeContext.Context.SetHeader | app/node/context.go:44-50 | A nil value deletes the key from the response header; any other value is stored under the key; other entries are unchanged |
| NodeContext.Context.Session | app/node/context.go:52-54 | Corrected lookup: true exactly when the key is in the session, with the value stored under it; nil and false otherwise |
| NodeContext.Context.SessionAsWritten | app/node/context.go:52-54 | As written the lookup hands back the boxed session item, never the value stored in it, and a typed nil item when the key is absent |
| NodeContext.ItemIsNotItsValue | app/node/context.go:52-54 | A boxed session item is never equal to the value it holds, so the as-written lookup misreports every stored value |
| NodeContext.Context.Set | app/node/context.go:56-58 | The value replaces whatever the session held under the key; other keys unchanged |
| NodeContext.Context.Del | app/node/context.go:60-65 | The key leaves the session and nothing else changes; an absent key changes nothing |
| NodeContext.DeleteSession | app/node/context.go:60-65 | The search-then-delete on the session bucket removes exactly that key's value and keeps the bucket valid |
| NodeContext.Context.Respond | app/node/context.go:67-70 | Respond sets code 0 and the body, and leaves header, request and session as they were |
| NodeContext.Context.ThrowError | app/node/context.go:72-75 | ThrowError sets the given code and a body that reads exactly the error's text; header, request and session unchanged |
| NodeApp.FullName | app/node/app.go:160-163 | A named router's route name is its name followed by the handler's name; an unnamed router uses the handler's name as it is |
| NodeApp.RouterDefaults | app/node/app.go:174-183 | No handlers give no default chain; an unnamed router's chain is its middlewares then the handlers; a named router's is one routeHandle wrapping them |
| NodeApp.RouterDefaultsCoverItsRoutes | app/node/app.go:204-211 | A named router's wrapped defaults run the chain exactly for request names starting with the router's name, so for every full route name it built |
| NodeApp.ConcatDefaults | app/node/app.go:103-106 | No default items give no handlers, and one item gives its own handlers |
| NodeApp.ConcatDefaultsAppend | app/node/app.go:103-106 | The handlers of two runs of default items joined are those of the first run followed by those of the second |
| NodeApp.ConcatDefaultsPrefix | app/node/app.go:103-106 | The handlers of the first i default items are a prefix of the concatenation of all of them |
| NodeApp.ReturnGroup | app/node/app.go:197-202 | A router with a positive sequence is its own group; the root router (sequence 0) answers with its app |
| NodeApp.App.constructor | app/node/app.go:50-63 | NewApp has empty route and default tables, sequence 0 and a root router with sequence 0, no name and no middlewares |
| NodeApp.NewRoutes | app/node/app.go:56-57 | The routes table starts empty, keyed by route code and ordered by bytes.Compare, a total order |
| NodeApp.NewDefaults | app/node/app.go:59-60 | The defaults table starts empty, keyed by router sequence and ordered by cmp.Compare, a total order |
| NodeApp.App.Route | app/node/app.go:65-73 | A name already routed panics with the duplicate error and leaves the table unchanged; otherwise the table maps the name to the chain followed by dispatchDefaults |
| NodeApp.StoreRoute | app/node/app.go:69-72 | Store fails exactly on a name already present, changing nothing; otherwise it adds the route under its name |
| NodeApp.App.SetDefaults | app/node/app.go:75-88 | A non-empty chain replaces the router's default entry; an empty chain removes it |
| NodeApp.UpdateDefaults | app/node/app.go:75-88 | The swap or the search-then-delete on the defaults bucket alone, with the same outcome as setDefaults |
| NodeApp.App.NewRoute | app/node/app.go:90-93 | The sequence counter moves on by one as a uint16 (wrapping at 65536) and a fresh router with that sequence and the given name is returned |
| NodeApp.App.Init | app/node/app.go:99-112 | The default chains are appended in ascending router sequence; Init(true) drops the root router and the defaults table; the sequence is unchanged |
| NodeApp.AppendDefaults | app/node/app.go:104-106 | The loop appends each default item's handlers in turn |
| NodeApp.DefaultsInSequenceOrder | app/node/app.go:103 | The default items come in strictly ascending router sequence |
| NodeApp.App.Run | app/node/app.go:114-136 | A name with a route runs its chain; any other name runs the default chains (next directly when there are none) |
| NodeApp.AppRouter.constructor | app/node/app.go:145-151 | NewAppRouter records the app, the sequence and the name, with no middlewares |
| NodeApp.AppRouter.Use | app/node/app.go:153-156 | The handlers join the router's middlewares at the end; the group returned is ReturnGroup of the router |
| NodeApp.AppRouter.Handle | app/node/app.go:158-169 | The full name is routed to middlewares, handlers and dispatchDefaults; a full name already routed panics and changes nothing |
| NodeApp.AppRouter.Default | app/node/app.go:171-187 | The router's default entry becomes its RouterDefaults chain, or is removed when no handlers are given |
| NodeApp.AppRouter.Group | app/node/app.go:189-191 | A fresh unnamed router with the next uint16 sequence |
| NodeApp.AppRouter.Route | app/node/app.go:193-195 | A fresh router with the given name and the next uint16 sequence |
| Streams.Read | app/node/message.go:34 | One Read returns at most the buffer's length, nothing only at the end of the stream, and what it returns plus what is left is the whole stream |
| Streams.ReadFull | app/node/response.go:29 | io.ReadFull returns the first k bytes, or all that is left when fewer remain, and leaves exactly the rest |
| Streams.FullReadError | app/node/response.go:29-32 | The read reports no error exactly when all k bytes were read |
| PeerCodec.FieldSpec | peer/segment.go:62-87 | A field is a 2-byte big-endian size and then that many bytes; reading it fails exactly when the two size bytes are missing, and on success the data has exactly the announced size |
| PeerCodec.FieldRoundTrip | peer/segment.go:106-115 | A field written by CreateHeaderSegmentField reads back as the same data, consuming 2 plus its length bytes, whatever follows |
| PeerCodec.ParseHeaderSegmentField | peer/segment.go:62-87 | Reading a field from a stream of chunks agrees with the flat-byte reading and leaves exactly the unread bytes (corrected read loop) |
| PeerCodec.ReadFieldData | peer/segment.go:71-84 | The corrected loop fills the field with the next bytes of the stream, leaving zeros when the stream ends early, and consumes exactly what it placed |
| PeerCodec.FieldLoopAsWritten | peer/segment.go:72-84 | As written, after the first Read the buffer becomes data[:total], so each later chunk is written over the front of the field; the field keeps its size |
| PeerCodec.PartialReadsScrambleField | peer/segment.go:72-84 | As written, the field [1,2,3,4] delivered in two chunks of two bytes reads as [3,4,0,0] |
| PeerCodec.SplitFieldCorrected | peer/segment.go:62-87 | Filling the field from where the last chunk stopped, the same stream gives back [1,2,3,4] |
| PeerCodec.ParseSegmentType | peer/segment.go:38-43 | One byte is read; at the end of the stream the type is 0 with io.EOF, otherwise it is the next byte and the rest follows |
| PeerCodec.HeaderSpec | peer/segment.go:46-59 | A header segment is a name field then a value field; success consumes at least the two size fields |
| PeerCodec.HeaderRoundTrip | peer/segment.go:96-103 | A header written by CreateHeaderSegment reads back as the same name and value, consuming exactly its bytes |
| PeerCodec.ParseHeaderSegment | peer/segment.go:46-59 | Reading a header from a stream agrees with the flat-byte reading and leaves exactly the unread bytes |
| PeerCodec.FieldValue | peer/segment.go:66-69 | A zero-size field is nil; any other field is its bytes |
| PeerCodec.Header | peer/request.go:26-36 | The lookup returns the value of the first header with that name, and nil when no header has it |
| PeerCodec.SegmentLoopStep | peer/request.go:56-73 | One encoded header segment sets the reserved value when it has the reserved name and is appended to the headers otherwise |
| PeerCodec.SegmentLoopHeaders | peer/request.go:56-73 | A run of encoded headers without the reserved name is appended to the headers in order, ahead of whatever follows |
| PeerCodec.SegmentsRoundTrip | peer/request.go:56-81 | The reserved header then other headers decode to the reserved value and the other headers in order; the next type byte and the rest are what follows |
| PeerCodec.ReadSegments | peer/request.go:56-73 | The segment loop on a stream of chunks agrees with the flat-byte loop and leaves exactly its rest in the stream |
| PeerCodec.HeaderChunks | peer/segment.go:90-103 | The readers of one header deliver its type byte, then the name field and the value field |
| PeerCodec.AppendSegments | peer/request.go:100-117 | Appending each header's readers and then the body segment delivers the given readers, every header's bytes in order, then the body segment when there is a body |
| PeerCodec.MarshalRequest | peer/request.go:87-121 | A nil method is the "Method Should not be nil" error; otherwise the stream is the Method header, each header, then the body segment if any |
| PeerCodec.UnmarshalRequest | peer/request.go:53-84 | The request after decoding: the Method header sets the method, the other headers replace the list when there are any, a body segment sets the body |
| PeerCodec.RequestRoundTrip | peer/request.go:53-121 | A request with a non-empty method and encodable headers decodes, into an empty request, to itself |
| PeerCodec.EmptyMethodComesBackNil | peer/request.go:66-68 | An empty method goes out as a zero-size field and comes back nil |
| PeerCodec.MarshalResponse | peer/response.go:95-123 | The stream is the PeerCode header with the code as a uint32, each header, then the body segment if any |
| PeerCodec.UnmarshalResponse | peer/response.go:59-92 | The response after decoding: the last PeerCode header sets the code read as a big-endian uint32, and a PeerCode value shorter than 4 bytes, at any position, is an index panic; the other headers replace the list when there are any; a body segment sets the body |
| PeerCodec.ShortCodePanics | peer/response.go:62-76 | A PeerCode header whose value is shorter than 4 bytes makes the decoding panic, whatever follows it |
| PeerCodec.ShortThenLongCodePanics | peer/response.go:62-76 | A short PeerCode value panics even when a well-formed PeerCode header follows it |
| PeerCodec.ResponseRoundTrip | peer/response.go:59-123 | A response decodes to itself with its code taken modulo 2^32, which is int(uint32(code)) |
| PeerCodec.RoundTripKeepsIsError | peer/response.go:17-19 | For codes within 32 bits, whether a response is an error survives the round trip (a negative code comes back as a large positive one) |
| PeerManagers.SwapElements | memory/bucket.go:119-134 | After SetItem every stored element is an old one or the new item |
| PeerManagers.SearchOrStoreElements | memory/bucket.go:137-155 | After GetOrAddItem every stored element is an old one or, when it inserted, the new item |
| PeerManagers.NextCode | peer/node_mgr.go:55-62 | Corrected: the next node code is one past the peer's highest code as a uint32, 0 for a peer without nodes |
| PeerManagers.NextCodeAsWritten | peer/node_mgr.go:55-62 | As written: one past the code of the last item, which in the bucket's descending order is the lowest, as a uint32 |
| PeerManagers.ThirdSaveCollides | peer/node_mgr.go:57-64 | With codes 1 and 0 stored, the as-written code is already taken so AddItem refuses the third node, while the corrected code 2 is free |
| PeerManagers.FirstIsHighest | peer/node_mgr.go:45 | The first node of a peer's row holds its highest code |
| PeerManagers.NextCodeIsFresh | peer/node_mgr.go:55-64 | The corrected code is never one already stored for the peer, as long as the codes stay below the uint32 limit |
| PeerManagers.AscendingNextCodeAsWrittenIsFresh | peer/node_mgr.go:55-64 | The other repair: in a row kept ascending, as the bucket's test expects, Save's last code + 1 as written is never one already stored, below the uint32 limit |
| PeerManagers.AscendingLastIsHighest | memory/bucket.go:91-102 | In an ascending row the last item, the one GetLastItem returns, holds the highest code |
| PeerManagers.AddNode | memory/bucket.go:158-175 | Corrected: AddItem on a peer's bucket stores the node under its code, or reports the duplicate error and changes nothing when the code is taken; the row stays sorted |
| PeerManagers.RemoveNode | memory/bucket.go:178-204 | Corrected: RemoveItem on a peer's bucket drops exactly that code and keeps the row sorted; the code leaves a nil item for a middle code (Findings, memory/bucket.go:178-204 row) |
| PeerManagers.RemoveNodeAsWrittenLeavesNil | memory/bucket.go:178-204 | As written, removing code 2 from a peer's codes 3, 2, 1 leaves the code-1 item followed by nil, where the corrected RemoveNode leaves the codes 3 and 1 |
| PeerManagers.SavedCodeIsNext | peer/node_mgr.go:55-62 | The code Save computes from the row GetOrAddItem returned is the corrected next code of the peer's nodes |
| PeerManagers.RowsAfterAdd | memory/bucket.go:137-155 | Adding a sorted row keeps every peer's row sorted |
| PeerManagers.RowsAfterSet | memory/bucket.go:119-134 | Setting a sorted row keeps every peer's row sorted |
| PeerManagers.NodeManager.PeerNodes | peer/node_mgr.go:37-41 | A peer's nodes, sorted; none for a peer without a bucket |
| PeerManagers.NodeManager.constructor | peer/node_mgr.go:20-24 | NewNodeManager holds no peers |
| PeerManagers.NodeManager.Count | peer/node_mgr.go:27-33 | The number of nodes stored for the peer, or -1 for a peer without a bucket |
| PeerManagers.NodeManager.Get | peer/node_mgr.go:36-46 | Nil exactly when the peer has no nodes; otherwise its first node, which in the bucket's descending order as written is the one with the highest code |
| PeerManagers.NodeManager.Save | peer/node_mgr.go:49-68 | The peer's bucket is added when missing; the node gets the next code and is stored, or the duplicate error is returned and the peer's nodes are unchanged; other peers are unchanged |
| PeerManagers.NodeManager.SaveRow | peer/node_mgr.go:50-51 | GetOrAddItem returns the peer's existing nodes, or adds an empty bucket and reports that it was missing |
| PeerManagers.NodeManager.Delete | peer/node_mgr.go:71-76 | Corrected (through RemoveNode): the node's code leaves its peer's bucket, which stays even when empty; an unknown peer changes nothing |
| PeerManagers.RouteCodeOf | peer/route_mgr.go:59-61 | A route code is the node type byte followed by the address |
| PeerManagers.RouteCodeInjective | peer/route_mgr.go:59-61 | Two routes get the same code exactly when their node type and address agree |
| PeerManagers.NewRoute | peer/route_mgr.go:54-62 | The route Save builds has the node's type and address, no failures, and the route code |
| PeerManagers.SaveRoute | peer/route_mgr.go:66-71 | Corrected: GetOrAddItem on a peer's routes: a route already stored under the code is kept with its failures reset to 0 and true; otherwise the new route is inserted and false; the rows stay sorted |
| PeerManagers.RemoveRoute | memory/bucket.go:178-204 | Corrected: RemoveItem on a peer's routes drops exactly that code and keeps the row sorted; the code leaves a nil item for a middle code (Findings, memory/bucket.go:178-204 row) |
| PeerManagers.RouteRowsAfterAdd | memory/bucket.go:137-155 | Adding a sorted route row keeps every peer's row sorted |
| PeerManagers.RouteRowsAfterSet | memory/bucket.go:119-134 | Setting a sorted route row keeps every peer's row sorted |
| PeerManagers.RouteManager.PeerRoutes | peer/route_mgr.go:40-50 | A peer's routes, sorted; none for a peer without a bucket |
| PeerManagers.RouteManager.constructor | peer/route_mgr.go:24-28 | NewRouteManager holds no peers |
| PeerManagers.RouteManager.Count | peer/route_mgr.go:31-37 | The number of routes stored for the peer, or -1 for a peer without a bucket |
| PeerManagers.RouteManager.GetAll | peer/route_mgr.go:40-50 | Nil exactly when the peer has no routes; otherwise all of them |
| PeerManagers.RouteManager.Save | peer/route_mgr.go:53-73 | Corrected: the peer's bucket is added when missing; true exactly when a route with that code existed, which is kept with failures reset, otherwise the new route is stored; other peers are unchanged |
| PeerManagers.RouteManager.SaveRouteRow | peer/route_mgr.go:64-65 | GetOrAddItem returns the peer's existing routes, or adds an empty bucket |
| PeerManagers.RouteManager.Delete | peer/route_mgr.go:76-82 | Corrected (through RemoveRoute): the route's code leaves its peer's bucket, which stays even when empty; an unknown peer changes nothing |
| BroadcastPacket.MarshalPacket | broadcast/packet.go:60-76 | The payload is version 1, the big-endian uint32 of 5 plus the total part length (wrapped modulo 2^32), then the parts concatenated |
| BroadcastPacket.ParsePacketAsWritten | broadcast/packet.go:10-57 | As written: 5 bytes or fewer give "Payload Not Enough" with size -1; another version gives no packet, no error and size -1; the code panics exactly when a version-1 payload declares a size below 5 |
| BroadcastPacket.ParsePacket | broadcast/packet.go:10-57 | Corrected: the same short and wrong-version answers; a packet comes back exactly when there is no error, and then the payload starts with the head of that size followed by the packet; a failed parse of a long enough payload still reports the declared size |
| BroadcastPacket.ParsePacketAgrees | broadcast/packet.go:10-57 | Wherever the code as written returns, the corrected parse returns the same |
| BroadcastPacket.ShortSizePanics | broadcast/packet.go:26 | A version-1 payload declaring size 0 makes payload[5:0] panic as written; the corrected parse reports "Payload Not Enough" with size 0 |
| BroadcastPacket.PacketRoundTrip | broadcast/packet.go:10-76 | ParsePacket gives back the concatenated parts with the size of the whole payload, for non-empty parts whose size fits a uint32, both as written and corrected |
| BroadcastPacket.EmptyPacketRejected | broadcast/packet.go:14-17 | Empty parts marshal to the bare 5-byte head, which ParsePacket rejects as too short |
| BroadcastPacket.TruncatedPacket | broadcast/packet.go:52-55 | A marshalled packet cut short, but longer than the head, fails with "Payload Not Enough" and still reports the full declared size |
| AppBroadcast.PackBuffer | app/broadcast.go:160-169 | A packed block is a zero byte, four header bytes, then the buffer unchanged |
| AppBroadcast.PackBufferHeader | app/broadcast.go:161-166 | The header holds the size as a uint16 and its complement 65535 ^ size, so checksum ^ size is always 65535 |
| AppBroadcast.ParsePacketBufferAsWritten | app/broadcast.go:140-158 | As written, with the bytes past the block's length that its capacity exposes: an empty block panics; a block not starting with 0 is returned as it is with size 0; a zero-marked block panics when its capacity is below 5, and, when only its length is, exactly when checksum ^ size is 0 (on block[5:]), coming back unrecognised otherwise; a longer block is unpacked only when checksum ^ size is 0 and the size is at least len(block) - 4 |
| AppBroadcast.HeaderBytes | app/broadcast.go:144-149 | The five bytes the header slices read: the block's own first five when it has them, the backing array's bytes past its length otherwise |
| AppBroadcast.AsWrittenIgnoresSpare | app/broadcast.go:140-158 | A block of at least five bytes parses the same whatever capacity it has |
| AppBroadcast.ShortReceivedBlocks | app/broadcast.go:78-88 | In the zeroed MTU buffer of the receive path, the block [0] panics on block[5:] and [0, 1] comes back unrecognised |
| AppBroadcast.PackedBufferRejectedAsWritten | app/broadcast.go:140-169 | As written every packBuffer output comes back unrecognised, whatever its capacity, as the whole block with size 0: its checksum ^ size is 65535, and its size is below len(block) - 4 as well |
| AppBroadcast.ParsePacketBuffer | app/broadcast.go:140-158 | Corrected: the same pass-through, and panics as for a block whose capacity is its length, but a block is unpacked when checksum ^ size is 65535 and the size is at least the len(block) - 5 bytes it carries |
| AppBroadcast.PackBufferRoundTrip | app/broadcast.go:140-169 | The corrected parse gives back the buffer and its size from the whole packed block, and from every prefix holding the header the bytes carried and the full size |
| AppBroadcast.FinalBlockPanicsAsWritten | app/broadcast.go:248-255 | As written, when the packed buffer is longer than one MTU and not a multiple of it, the final block's limit size - offset falls below its offset, so buffer[offset:limit] panics (15 bytes, MTU 4: limit 3 at offset 12) |
| AppBroadcast.Fragments | app/broadcast.go:248-255 | The blocks concatenate to the buffer, each is non-empty and at most one MTU long, and all but the last are exactly one MTU |
| AppBroadcast.SplitBlocks | app/broadcast.go:248-255 | The corrected block loop, with the final limit at the buffer's end, cuts exactly the Fragments |
| AppBroadcast.Deliver | app/broadcast.go:220-266 | Corrected (the final block's limit, Findings, app/broadcast.go:248-255 row): an empty payload sends nothing and succeeds; one above 65531 bytes fails with bytes.ErrTooLarge; any other is packed and sent as its MTU blocks, and with a zero MTU the loop writes the empty block without end |
| AppBroadcast.DeliveredStartsPayload | app/broadcast.go:140-266 | A delivered payload's blocks concatenate to its packed buffer, and the corrected parse of the first block recognises the start of a payload of that size |
| QuicNet.AnnounceFrame | app/net/quic.go:676-687 | The announce frame is the uint16 length of the node ID, the ID, the uint16 length of the address, the address: 4 bytes plus both lengths |
| QuicNet.WriteHeader | app/net/quic.go:678-686 | The header written into a fresh zero buffer of 4 + ID length + address length bytes is the ID length, the ID and the address length, with the offset after it |
| QuicNet.DeliverForBroadcast | app/net/quic.go:658-698 | Without public addresses or available settings it fails with ErrUnavailable and sends nothing; otherwise it sends each address's announce frame in order and joins the errors, nil when there are none |
| QuicNet.FillFrame | app/net/quic.go:677-687 | Reusing a buffer that holds this node's header, or writing a new header when the size differs, then copying the address in, yields exactly the address's announce frame, with the header still in place |
| QuicNet.AnnounceFrames | app/net/quic.go:676-692 | One frame per public address, in order, each the announce frame of this node's ID and that address |
| QuicNet.DeliveryErrors | app/net/quic.go:688-697 | At most one error per frame, and none when every delivery succeeds |
| QuicNet.ParseAnnounceAsWritten | app/net/quic.go:498-535 | As written, with the bytes past the payload's length that its capacity exposes: without node settings the module is unavailable; the parse panics exactly when the payload's capacity is below two bytes; a shorter payload with room for two is dropped; any other payload gets the offset walk |
| QuicNet.ParseAnnounce | app/net/quic.go:498-535 | Corrected: a payload shorter than two bytes is dropped like any other short frame; whatever the capacity, wherever the code as written returns, the same answer |
| QuicNet.ParseAnnounceFrame | app/net/quic.go:508-535 | An announcement is accepted only when the payload is exactly the frame of that ID and address, and never for this node's own ID |
| QuicNet.AnnounceRoundTrip | app/net/quic.go:508-535 | A frame built for another node parses back to its ID and address |
| QuicNet.OwnAnnounceIgnored | app/net/quic.go:521-524 | A frame carrying this node's own ID is ignored, whatever the address |
| QuicNet.ShortAnnouncePanicsAsWritten | app/net/quic.go:512 | A one-byte payload whose capacity is its length, []byte{7}, makes the parse as written panic; with room for one more byte it is dropped, as the corrected parse always does |
| QuicNet.QuicRoute.constructor | app/net/quic.go:406-411 | A new route holds its module, node ID, address, the route ID node ID ++ address, and no failures |
| QuicNet.QuicRoute.Close | app/net/quic.go:131-134 | Closing a route removes that route object from its module's list, and only it |
| QuicNet.QuicRoute.Dial | app/net/quic.go:75-110 | The failure counter, the connection, the error and the route list change as DialDecision says: a close removes the route from its module |
| QuicNet.DialDecision | app/net/quic.go:75-110 | Intended: three failures close and refuse with ErrInvalidNode; a good dial to the expected node resets the counter and returns the connection; any failure adds one, a mismatched node ID also closes, and reaching three closes |
| QuicNet.DialAsWritten | app/net/quic.go:84-94 | As written the dial panics exactly when it connected but the peer ID could not be read or was the wrong one: the deferred CloseWithError is taken on the connection just set to nil |
| QuicNet.DialAgrees | app/net/quic.go:75-110 | Wherever the code as written returns, it does what DialDecision says |
| QuicNet.MismatchPanicsAsWritten | app/net/quic.go:87-94 | A peer answering with another node ID crashes the dial as written instead of counting a failure and closing the route |
| QuicNet.FailuresBounded | app/net/quic.go:97-107 | Starting from at most three, the failure counter never passes 3 over any sequence of dials |
| QuicNet.RouteIdFor | app/net/quic.go:393-395 | A route ID is the node ID followed by the address |
| QuicNet.Unlisted | app/net/quic.go:445-454 | Removing a route object that is not listed leaves the list as it is |
| QuicNet.UnlistedAt | app/net/quic.go:448 | Where the route object first sits at i, removing it is slices.Delete(i, i+1) |
| QuicNet.UnlistedTwice | app/net/quic.go:431-456 | In a sorted list a route object occurs at most once, so removing it twice is removing it once |
| QuicNet.QuicModule.RouteIds | app/net/quic.go:458-460 | The route IDs held, one per route, in list order |
| QuicNet.QuicModule.constructor | app/net/quic.go:390 | A new module holds no routes |
| QuicNet.QuicModule.CreateRoute | app/net/quic.go:390-429 | A route ID already held fails with ErrConflict and changes nothing; otherwise a fresh route with no failures is inserted at a position that keeps the IDs sorted, also when Control failed, and Control's error is returned |
| QuicNet.SearchRoute | app/net/quic.go:399-400 | On the sorted routes the search reports found exactly when the route ID is held, and otherwise the position where it belongs |
| QuicNet.InsertRoute | app/net/quic.go:424-425 | Inserting at the position the search gave keeps the routes sorted, adds the route there and its ID at the same place among the IDs |
| QuicNet.QuicModule.DestroyRoute | app/net/quic.go:431-456 | Exactly that route object leaves the list; every other route, also one with the same ID, stays |
| QuicNet.DestroyIn | app/net/quic.go:440-454 | On the list as a value, the search-and-scan removes exactly that route object and keeps the list sorted |
| QuicNet.RouteLowerBound | app/net/quic.go:440-445 | The scan starts at the lower bound of the route's ID with the route nowhere before it, and a route whose ID is not held is not listed |
| QuicNet.ScanEqualIds | app/net/quic.go:445-454 | The scan from the lower bound finds the route object's first position, or reports it is not listed at all |
| QuicNet.LowerBoundSpec | app/net/quic.go:399-400 | slices.BinarySearchFunc on the sorted routes finds the ID exactly when it is held, at its lower bound |
| QuicNet.NotListed | app/net/quic.go:440-443 | A route whose ID is not held is not in the list, so the early return changes nothing |
| QuicNet.AfterNotRoute | app/net/quic.go:451-453 | Once the scan passes the routes with the route's ID, the route is nowhere in the sorted list |
| FilePath.ExtractPathSeq | web/src/components/FilePath/path.ts:1-9 | "/" exactly when the path holds a slash; "\\" exactly when it holds no slash and its first backslash is past index 0; otherwise the "Unknown path separator" error |
| FilePath.WordRun | web/src/components/FilePath/path.ts:11 | The length of the path's leading run of \w characters |
| FilePath.DriveLetters | web/src/components/FilePath/path.ts:11 | When the drive pattern matches the whole path, group 1 is a non-empty leading word run followed by a colon, and the path holds no white space |
| FilePath.UrlResult | web/src/components/FilePath/path.ts:20-23 | The URL branch gives the root URL's string form, or the constructor's error |
| FilePath.ExtractRootAsWritten | web/src/components/FilePath/path.ts:11-33 | As written, with the /g regular expression's lastIndex: from lastIndex 0 it agrees with the stateless root; afterwards lastIndex is 0, unchanged, or the path's length |
| FilePath.ExtractRoot | web/src/components/FilePath/path.ts:12-33 | Corrected (each call matches from the start, Findings, path.ts:11,25-32 row): "/" for a path starting with a slash; "\\\\" for a UNC path; the URL root for a parsable URL; else the drive letters and "/"; else "Unknown path root"; a root is never empty |
| FilePath.DriveRootAlternatesAsWritten | web/src/components/FilePath/path.ts:11-32 | As written, "1:x" gives root "1/" with lastIndex left at 3, and the next call on the same path throws "Unknown path root"; the stateless parse gives "1/" every time |
| FilePath.LastIndexOf | web/src/components/FilePath/path.ts:45 | lastIndexOf gives -1 or a position where the separator occurs, and none occurs past it |
| FilePath.LastSeparator | web/src/components/FilePath/path.ts:45 | A one-character separator whose last occurrence is at k: lastIndexOf finds k |
| FilePath.SkipBack | web/src/components/FilePath/path.ts:48-54 | The backward walk passes only separators at or above the root's length, and stops below it or at a non-separator |
| FilePath.Dirname | web/src/components/FilePath/path.ts:36-56 | dirname of the root is the root; otherwise a result is a strict prefix of the path taken before its last separator |
| FilePath.ParentCut | web/src/components/FilePath/path.ts:45-55 | With a non-empty separator, the cut is the root or a strict prefix of the path |
| FilePath.ParentCutOf | web/src/components/FilePath/path.ts:45-55 | The last separator's position, then the loop, compute the cut |
| FilePath.WalkBack | web/src/components/FilePath/path.ts:48-54 | The loop stops where SkipBack says |
| FilePath.DirnameOf | web/src/components/FilePath/path.ts:36-56 | dirname with its loop computes Dirname |
| FilePath.DirnameSkipsSeparators | web/src/components/FilePath/path.ts:45-55 | Past the index-0 case, dirname cuts the path before its last separator and before the run of separators in front of it, never below the root |
| FilePath.DirnameOfRoot | web/src/components/FilePath/path.ts:40-43 | dirname of a root is that root |
| FilePath.DirnameEdges | web/src/components/FilePath/path.ts:46-47 | A last separator at index 0 gives the root; no separator gives "Invalid path" |
| FilePath.DirnameDoubledSeparator | web/src/components/FilePath/path.ts:48-55 | dirname("/a//b") and dirname("/a/b") are both "/a" |
| FilePath.Ancestors | web/src/components/FilePath/path.ts:62-66 | The successive dirnames end with the root, and there are none for the root itself |
| FilePath.AncestorsChain | web/src/components/FilePath/path.ts:62-66 | Each ancestor is the dirname of the one before it, the first the dirname of the path; each is the root or a strict prefix of the path |
| FilePath.AncestorsDirnames | web/src/components/FilePath/path.ts:62-66 | The first ancestor is the dirname of the path and each further one the dirname of the one before it |
| FilePath.AncestorsPrefixes | web/src/components/FilePath/path.ts:62-66 | Every ancestor is the root or a strict prefix of the path |
| FilePath.Reverse | web/src/components/FilePath/path.ts:61 | Collecting with unshift gives the pushed list reversed |
| FilePath.GenerateParents | web/src/components/FilePath/path.ts:58-68 | The parents are never empty and end with the root, or start with it when reversed; a path that is its own root gives just that root |
| FilePath.CollectAncestors | web/src/components/FilePath/path.ts:62-66 | The loop collects the ancestors in push or unshift order, or stops at the first dirname error |
| FilePath.GenerateParentsOf | web/src/components/FilePath/path.ts:58-68 | generateParents with its loop computes GenerateParents |
| FilePath.SkipForward | web/src/components/FilePath/path.ts:74-78 | The forward walk passes only separators and stops at the end or at a non-separator |
| FilePath.SliceFrom | web/src/components/FilePath/path.ts:79 | path.slice(idx) is a suffix of the path, empty from the end on |
| FilePath.Basename | web/src/components/FilePath/path.ts:71-80 | basename is a suffix of the path |
| FilePath.BasenameOf | web/src/components/FilePath/path.ts:71-80 | basename with its loop computes Basename |
| FilePath.BasenameSplit | web/src/components/FilePath/path.ts:71-80 | When the dirname is a prefix of the path, the path is the dirname, a run of separators and the basename |
| FilePath.PhotosExample | web/src/components/FilePath/path.ts:58-80 | "/srv/data/photos" has parents "/srv/data", "/srv", "/" (reversed: "/", "/srv", "/srv/data") and basename "photos" |
| FilePath.PhotosAncestors | web/src/components/FilePath/path.ts:58-66 | Under the root "/", the ancestors of "/srv/data/photos" are "/srv/data", "/srv" and "/" |
| FilePath.PhotosDirnames | web/src/components/FilePath/path.ts:45-55 | Under the root "/", dirname takes "/srv/data/photos" to "/srv/data", that to "/srv" and that to "/" |
| FilePath.PhotosBasename | web/src/components/FilePath/path.ts:71-80 | The basename of "/srv/data/photos" is "photos" |
| FilePath.DirnameCut | web/src/components/FilePath/path.ts:45-55 | With "/" as separator, last at k, dirname under a given root is the root when k is 0, and otherwise the part before k when k is above the root and not preceded by a separator |
| FilePathInput.CrumbChain | web/src/components/FilePath/Input.tsx:288-291 | An empty value gives [""]; any other value its parents root first; the chain is never empty |
| FilePathInput.Labels | web/src/components/FilePath/Input.tsx:305-307 | One label per crumb: the basename of the crumb with the crumb before it, or the root for the first, as dirname |
| FilePathInput.Breadcrumbs | web/src/components/FilePath/Input.tsx:283-300 | The first element of the chain is the root; rootOnly holds exactly when the value is the root, and then the file name is empty; otherwise the file name is the value's basename with the last crumb as dirname |
| FilePathInput.RootOnlyCrumbs | web/src/components/FilePath/Input.tsx:288-300 | A value that is its own root has no crumbs, no labels and an empty, hidden file name |
| FilePathInput.CrumbsOf | web/src/components/FilePath/Input.tsx:288-307 | The crumbs of a value that is not its root are the rest of the chain, their labels, and the value's basename |
| FilePathInput.PhotosCrumbs | web/src/components/FilePath/Input.tsx:288-307 | "/srv/data/photos" shows under the root "/" as "srv", "data" and then the file name "photos" |
| ModuleResults.FindIndex | app/web/src/components/Modules.tsx:51-53 | findIndex gives the first position holding the name, or -1 when none does |
| ModuleResults.ReplaceNamed | app/web/src/components/Modules.tsx:51-54 | The list after the write keeps its length |
| ModuleResults.FindIndexIsFirst | app/web/src/components/Modules.tsx:51-53 | findIndex picks the first position holding the name |
| ModuleResults.ReplaceNamedSpec | app/web/src/components/Modules.tsx:51-54 | The item lands at the first position holding its name and every other element stays; without a match (index -1) the elements are unchanged |
| ModuleResults.ReplaceNamedIdempotent | app/web/src/components/Modules.tsx:51-54 | Writing the same update twice is the same as writing it once |
| ModuleResults.ResultState.Initial | app/web/src/components/Modules.tsx:29-33 | The initial state: total 0, no modules, version 0 |
| ModuleResults.ResultState.FromValue | app/web/src/components/Modules.tsx:48 | "set" copies the value's total and version, with Items defaulting to [] |
| ModuleResults.ResultState.WriteItem | app/web/src/components/Modules.tsx:51-54 | The list becomes ReplaceNamed of the old list; total and version stay |
| ModuleResults.Reduce | app/web/src/components/Modules.tsx:42-59 | "set" returns a fresh state and leaves the old one alone; "setItem" returns the same state, updated in place when its version is current and untouched when stale; any other action is the "Unknown action" error |
| ExtFSBrowser.InitialState | web/src/components/ExtFS.tsx:79-86 | The browser starts with no parents, and its condition and defaults are both the node-type filter ["N", "RN"] |
| ExtFSBrowser.RootClick | web/src/components/ExtFS.tsx:414-417 | Back to the root: no parents and the default condition; everything else unchanged |
| ExtFSBrowser.ParentClick | web/src/components/ExtFS.tsx:419-424 | The given items become the parents and the last one's children are listed; an empty list fails on destructuring the missing last item |
| ExtFSBrowser.DesktopCrumbs | web/src/components/ExtFS.tsx:490-519 | The first crumb shows exactly when there are two or more parents, the "..." menu exactly when there are three or more, the leaf exactly when there is one; first, menu and leaf together are the parents |
| ExtFSBrowser.DesktopCrumbsKeepPrefix | web/src/components/ExtFS.tsx:382-505 | The first crumb goes back to the first parent and entry k of the "..." menu to parent k + 1, each keeping the parents up to the chosen one and listing its children |
| ExtFSBrowser.MobileMenuMissesAsWritten | web/src/components/ExtFS.tsx:464-467 | As written the first mobile menu entry fails, because it passes an empty list, and every other entry opens the parent before the one chosen |
| ExtFSBrowser.MobileMenuClick | web/src/components/ExtFS.tsx:464-467 | Corrected: entry offset keeps the parents up to and including that entry and lists its children, as the desktop menu does |
| ExtFSBrowser.ItemClick | web/src/components/ExtFS.tsx:631-642 | A click on a file (F or RF) changes nothing; any other item is pushed onto the parents and its children are listed |
| ExtFSBrowser.MovesKeepConditionMatched | web/src/components/ExtFS.tsx:414-424 | Every move keeps the condition in step with the parents: the defaults with no parents, otherwise the children of the last parent |
| ExtFSBrowser.EnterThenBack | web/src/components/ExtFS.tsx:631-642 | Entering an item and then going back to its parent through the crumbs restores the state |
| ExtFSBrowser.NewUrl | web/src/components/ExtFS.tsx:245-248 | The "new" link shows exactly when the last parent is a node, and points at the create route |
| ExtFSBrowser.SettingsUrl | web/src/components/ExtFS.tsx:250-255 | The settings link shows exactly for a folder whose own parent is a node, and points at that folder's link ID |
| ExtFSBrowser.NewAndSettingsExclusive | web/src/components/ExtFS.tsx:243-255 | The two links never show together |
| ExtFSModes.Names | web/src/components/ExtFS/Home.tsx:23 | A query key list of names, entry by entry |
| ExtFSModes.HomeQueries | web/src/components/ExtFS/Home.tsx:33-50 | The home list runs the settings and remote-node queries, both enabled exactly in home mode |
| ExtFSModes.NodeQuery | web/src/components/ExtFS/Node.tsx:33-38 | The node list's key is fixed and it is fetched exactly in node mode |
| ExtFSModes.FileQuery | web/src/components/ExtFS/File.tsx:38-46 | A folder's key holds the item and the path inside it, and it is fetched exactly in folder mode |
| ExtFSModes.RemoteQuery | web/src/components/ExtFS/Remote.tsx:29-37 | A remote node's key holds the node, and it is fetched exactly in remote mode |
| ExtFSModes.RemoteFileQuery | web/src/components/ExtFS/RemoteFile.tsx:30-39 | A remote folder's key holds node, item and path, and it is fetched exactly with an API and in remote-folder mode |
| ExtFSModes.HomeItems | web/src/components/ExtFS/Home.tsx:52-59 | The home list is the local node, once the settings have loaded, followed by the remote nodes in their order |
| ExtFSModes.HomeRemoteClick | web/src/components/ExtFS/Home.tsx:88-98 | A remote node opens remote mode for that node and pushes one entry holding the new state |
| ExtFSModes.HomeLocalClick | web/src/components/ExtFS/Home.tsx:125-130 | The local node opens node mode and the stack becomes that one entry |
| ExtFSModes.NodeItemClick | web/src/components/ExtFS/Node.tsx:58-72 | An unavailable item or a non-folder changes nothing; an available folder opens folder mode on that item and pushes one entry holding the new state |
| ExtFSModes.FileItemClick | web/src/components/ExtFS/File.tsx:68-82 | An unavailable item or a non-folder changes nothing; a folder keeps mode and item, takes the entry's path and pushes one entry |
| ExtFSModes.RemoteItemClick | web/src/components/ExtFS/Remote.tsx:57-72 | An unavailable item or a non-folder changes nothing; a folder opens remote-folder mode on that node and item, with no path yet, and pushes one entry |
| ExtFSModes.RemoteFileItemClick | web/src/components/ExtFS/RemoteFile.tsx:60-74 | An unavailable item or a non-folder changes nothing; a folder keeps node and item, takes the entry's path and pushes one entry |
| ExtFSModes.HomeWellFormed | web/src/components/ExtFS/Home.tsx:18-24 | The home state with an empty stack is well formed |
| ExtFSModes.EnterWellFormed | web/src/components/ExtFS/Node.tsx:66-69 | Pushing a state that carries its mode's fields keeps the explorer well formed |
| ExtFSModes.ClicksKeepWellFormed | web/src/components/ExtFS/Home.tsx:88-130 | Every click on the home list, the node list or a remote node's list keeps each mode carrying exactly the fields its query needs |
| ExtFSModes.FolderClicksKeepWellFormed | web/src/components/ExtFS/File.tsx:68-82 | A click in a folder list, shown in its own mode, keeps the state well formed |
| ExtFSModes.PathOnlyInFolders | web/src/components/ExtFS/RemoteFile.tsx:34-35 | In a well-formed state only the two folder modes carry a path |
| ExtFSModes.ClicksKeepEarlierEntries | web/src/components/ExtFS/RemoteFile.tsx:68-71 | Every click other than the local node leaves the entries already on the stack as they were |
| GoStrings.IndexOf | extfs/services/item.go:210 | The first position of the character in the string |
| GoStrings.Split | app/services/module.go:48 | strings.Split with a one-character separator gives at least one piece, and no piece holds the separator |
| GoStrings.JoinSplit | extfs/services/item.go:205-210 | Joining the pieces of a split with the separator gives the string back |
| GoStrings.SplitPair | extfs/services/item.go:209-213 | A string with exactly one separator splits into its two sides |
| GoStrings.SplitMany | extfs/services/item.go:211-213 | A string with a second separator splits into more than two pieces |
| GoStrings.LeadCount | app/services/module.go:51 | How many copies of the cut character the string starts with |
| GoStrings.TrailCount | app/services/module.go:51 | How many copies of the cut character the string ends with |
| GoStrings.Trim | app/services/module.go:51 | strings.Trim with one cut character drops exactly the leading and trailing copies; a non-empty result starts and ends with another character; it is empty exactly when the string is all copies |
| ExtFSItems.GenerateItemID | extfs/services/item.go:205-207 | An item ID is the type tag, "_", and the link |
| ExtFSItems.ParseGenerated | extfs/services/item.go:205-222 | parseItemID inverts generateItemID exactly for the N and RN tags with a link holding no "_"; every other generated ID parses to ("", "") |
| ExtFSItems.ParseSound | extfs/services/item.go:209-222 | Whatever parses to a non-empty answer came from generateItemID with the N or RN tag and a link holding no "_" |
| ExtFSItems.Decimal | extfs/services/item.go:148 | strconv.FormatUint(n, 10) is a non-empty string of decimal digits |
| ExtFSItems.ItemOfNodeItem | extfs/services/item.go:148-162 | A node item's entry is tagged I (local) or RI (remote) with its decimal ID as link, is a folder or a file as its file type says, and keeps name, availability and parent |
| ExtFSItems.NodeItemIdUnparsed | extfs/services/item.go:148-162 | A node item's entry ID never parses as the ID of a node or a remote node |
| ExtFSItems.NodeItemsOf | extfs/services/item.go:144-203 | One entry per visited node item, in the order visited, and the traversal's error |
| ExtFSItems.SelectNode | extfs/services/item.go:70-81 | The local node's entry: ID "N_" + node ID, the settings' name, type N, available |
| ExtFSItems.KnownItem | extfs/services/item.go:109-116 | A reported remote node's entry: ID "RN_" + node ID, its name, type RN, available, linked to the node ID |
| ExtFSItems.UnknownItem | extfs/services/item.go:127-134 | A live node nobody reported: the same entry with no name |
| ExtFSItems.KnownItems | extfs/services/item.go:102-123 | One entry per reported node, in order |
| ExtFSItems.UnknownItems | extfs/services/item.go:125-140 | One entry per leftover node ID, in order |
| ExtFSItems.SearchRemoteNode | extfs/services/item.go:83-142 | No node manager or no live node gives nothing and no error; otherwise the reported nodes' entries in the order reported, then, when the merge succeeds, the leftover live nodes in sorted order; the result is the listing's value form |
| ExtFSItems.MergedItems | extfs/services/item.go:101-141 | The listing of a merge is the known nodes' entries in the order reported, followed, when the merge did not fail, by one nameless entry per live node left over |
| ExtFSItems.MergeReports | extfs/services/item.go:89-123 | No live node gives nothing; otherwise the outcome is Merge of the sorted live IDs with the reported records |
| ExtFSItems.Search | extfs/services/item.go:35-68 | The total is always -1; with a parent ID the error is always nil, an unparsable parent gives nothing, N lists the local node items and RN the remote node's items; without one, the items are the local node when N is asked for, then, when RN is asked for, the remote-node listing if it has no error, and the error is that listing's |
| ExtFSItems.KnownRemote | extfs/services/remote_node.go:44-51 | A reported node: its ID, name and timestamps, available |
| ExtFSItems.UnknownRemote | extfs/services/remote_node.go:62-66 | A leftover live node: its ID only, with no name and no timestamps, available |
| ExtFSItems.KnownRemotes | extfs/services/remote_node.go:37-58 | One remote node per reported record, in order |
| ExtFSItems.UnknownRemotes | extfs/services/remote_node.go:60-72 | One remote node per leftover ID, in order |
| ExtFSItems.SelectAll | extfs/services/remote_node.go:18-75 | The total is always 0; no node manager is ErrUnavailable; no live node is an empty listing; otherwise the reported nodes in order, then the leftover live nodes sorted; every listed node is available |
| ExtFSItems.MergedRemotes | extfs/services/remote_node.go:36-74 | The remote nodes of a merge are the known ones with their records, followed, when the merge did not fail, by the live nodes left over without a record; every one is available |
| ExtFSItems.SelectAllAccounts | extfs/services/remote_node.go:37-72 | A listing that succeeds shows every reported node with its record and every other live node once, without a name, in sorted order |
| ExtFSItems.MergeFourExample | extfs/services/remote_node.go:37-72 | Two of four live nodes reported (the second first): those two in that order, then the other two sorted |
| LiveNodes.LessIrreflexive | extfs/services/item.go:92 | Go's string order is irreflexive |
| LiveNodes.LessAsymmetric | extfs/services/item.go:92 | Go's string order is asymmetric |
| LiveNodes.LessTotal | extfs/services/item.go:92 | Two different strings are ordered one way or the other |
| LiveNodes.NotLessTransitive | extfs/services/item.go:92 | a <= b <= c in Go's string order gives a <= c |
| LiveNodes.LowerBound | extfs/services/item.go:92 | The position slices.BinarySearch reports: everything before it sorts below x, and the element there does not |
| LiveNodes.LowerBoundSorted | extfs/services/item.go:92 | On a sorted slice nothing from that position on sorts below x |
| LiveNodes.FoundIffIn | extfs/services/item.go:103-106 | On a sorted slice the search finds x exactly when x is in it |
| LiveNodes.InsertSorted | extfs/services/item.go:93 | slices.Insert adds exactly one copy of x |
| LiveNodes.InsertKeepsSorted | extfs/services/item.go:92-93 | Inserting at the searched position keeps the slice sorted |
| LiveNodes.SortLiveSorted | extfs/services/item.go:89-95 | The collected live IDs end sorted |
| LiveNodes.SortLivePermutes | extfs/services/item.go:89-95 | The collected slice holds each live ID as often as it was visited |
| LiveNodes.CollectLive | extfs/services/item.go:89-95 | The TraverseNodeID callback loop collects SortLive of the visited IDs |
| LiveNodes.SortLiveLength | extfs/services/item.go:89-97 | Sorting the live IDs keeps their number, so the listing is empty exactly when no node is live |
| LiveNodes.MergeOutcome | extfs/services/item.go:101-123 | The merge accepts records in the order reported and stops at the first rejected one; with no error it accepted them all, and its error is ErrInternalError or the service's own |
| LiveNodes.MergeAccepts | extfs/services/item.go:101-123 | A found record is accepted ahead of what the merge of the remaining IDs gives |
| LiveNodes.MergeKnownPrefix | extfs/services/item.go:101-123 | The accepted records are the first ones reported, in order |
| LiveNodes.MergeAllKnown | extfs/services/item.go:101-123 | A merge with no error accepted every reported record |
| LiveNodes.MergeErrors | extfs/services/item.go:101-123 | A merge's error is ErrInternalError or the service's own |
| LiveNodes.IdsOf | extfs/services/item.go:103 | The node IDs of the records, in order |
| LiveNodes.DeleteFound | extfs/services/item.go:103-107 | Deleting the element at its searched position keeps the slice sorted and takes x out of it once |
| LiveNodes.MergeKeepsSorted | extfs/services/item.go:101-125 | The leftover IDs of a merge over a sorted slice are still sorted |
| LiveNodes.MergeAccounts | extfs/services/item.go:101-140 | A merge that completes accepted records of live nodes only, and the leftover IDs are exactly the live ones no record named |
| LiveNodes.MergeRejectsUnknown | extfs/services/item.go:103-106 | A record whose node is not live fails the merge with ErrInternalError |
| LiveNodes.MergeLive | extfs/services/item.go:101-123 | The TraverseWithNodeIDs callback loop computes Merge |
| LiveNodes.MergeExample | extfs/services/item.go:101-140 | Two live nodes, one of them known: the known one first, then the other with no record |
| CoreRegistry.ModuleNamedSpec | core/registry.go:55-64 | The lookup finds a module exactly when some module has the name, and what it finds is the first such module |
| CoreRegistry.AddedKeepsDistinct | core/registry.go:24-47 | Adding keeps module names distinct, and a module is refused exactly when its hook reports an error or its name is already taken |
| CoreRegistry.Registry.constructor | core/registry.go:24-47 | A new registry holds no modules |
| CoreRegistry.Registry.AddModule | core/registry.go:24-47 | The hook's error comes first and leaves the list alone; a name already present is a conflict and leaves the list alone; otherwise the module goes at the end |
| CoreRegistry.Registry.GetModules | core/registry.go:49-53 | The modules in the order they were added |
| CoreRegistry.Registry.GetModuleByName | core/registry.go:55-64 | The first module with that name, or none |
| CoreRegistry.AddTwiceConflicts | core/registry.go:37-44 | Adding a fresh module succeeds; adding the same module again is a conflict |
| ModuleService.GenerateModule | app/services/module.go:97-119 | The record keeps the module's avatar, name and description; it has a web part only when the module says so, and it is disabled or writable only when the module says so |
| ModuleService.AllModulesSpec | app/services/module.go:35-42 | One record per registered module, in registry order |
| ModuleService.KeepKeywordsSpec | app/services/module.go:50-55 | The pieces kept are exactly the non-blank ones, and no piece is added |
| ModuleService.KeywordsSpec | app/services/module.go:48-55 | The keywords are exactly the non-blank pieces between commas, left untrimmed; none holds a comma and each has a non-space character |
| ModuleService.SearchKeywords | app/services/module.go:48-55 | The keyword loop yields the keywords defined above |
| ModuleService.MatchStatus | app/services/module.go:66-75 | The status is -1 with no keywords; otherwise it is 1 when some keyword occurs in the name or the description, and 0 when none does |
| ModuleService.SelectedSpec | app/services/module.go:63-83 | The selection is no longer than the registry; it holds the record of every matching module, and every record in it is that of a matching module |
| ModuleService.ModuleServiceImpl.constructor | app/services/module.go:10-12 | The service works over the given registry |
| ModuleService.ModuleServiceImpl.GetAll | app/services/module.go:35-42 | Every registered module as a record, in order |
| ModuleService.ModuleServiceImpl.Search | app/services/module.go:44-86 | With no keywords, every module and their count; with keywords, the records of the matching modules in order and their count, and a nil list when none matches |
| ModuleService.ModuleServiceImpl.SetEnabled | app/services/module.go:15-24 | An unknown name is not found; a module that cannot be switched is forbidden; otherwise the answer is the module's own SetEnable result |
| ModuleService.ModuleServiceImpl.Get | app/services/module.go:27-33 | An unknown name gives the empty record and not found; a known one gives its record; there is an error exactly when no module has the name |
| ModuleService.SelectedSnoc | app/services/module.go:64-83 | Adding a module at the end of the registry adds its record at the end of the selection when it matches, and nothing otherwise |
| ModuleService.KeywordsOfPair | app/services/module.go:48-55 | Two non-blank comma-free keywords joined by a comma come back as those two keywords |
| ModuleService.KeywordsExample | app/controllers/module_test.go:68-124 | The keyword string "Name A,Desc B" holds the keywords "Name A" and "Desc B" |
| ModuleService.SelectedExample | app/controllers/module_test.go:68-124 | Of three modules A, B and C, these keywords select A and B in order |
| ModuleService.ExampleMatches | app/controllers/module_test.go:68-124 | Of the test's modules, "Name A" matches A by its name, "Desc B" matches B by its description, and neither matches C |
| ModuleService.MatchesNeither | app/services/module.go:66-75 | A module whose name and description have every keyword's length and equal none of them matches no keyword |
| TypeRegistry.AddUnderAsWritten | runtime/registry.go:51-55 | As written: the type gets a list ending with the module and the other lists stay; a list that already held the module becomes the module alone |
| TypeRegistry.AddUnder | runtime/registry.go:51-55 | Corrected: the type gets a list holding the module that keeps every old entry and grows by at most one; the registry is unchanged exactly when the module was already listed under the type |
| TypeRegistry.Appended | runtime/registry.go:40-58 | Corrected: Append over the types fails only with ErrModuleType and never forgets a known type |
| TypeRegistry.AddUnderAsWrittenDropsOthers | runtime/registry.go:51-55 | As written, appending a module already listed under a type replaces that list with the module alone |
| TypeRegistry.AddUnderKeeps | runtime/registry.go:51-55 | With the intended update, the other types' lists are unchanged and the type's own list keeps every entry and holds the module |
| TypeRegistry.AddUnderWellFormed | runtime/registry.go:51-55 | With the intended update, no list holds a module twice and every module fits its type |
| TypeRegistry.FitCount | runtime/registry.go:46-50 | The number of leading types the module fits; the type after them, if any, is a misfit |
| TypeRegistry.AppendedSpec | runtime/registry.go:40-58 | Append fails exactly when some type is a misfit; the module is listed under every type before the first misfit; other types' lists are unchanged, and no list loses an entry |
| TypeRegistry.AppendedError | runtime/registry.go:46-50 | Append fails, with ErrModuleType, exactly when some type is a misfit |
| TypeRegistry.AppendedKeeps | runtime/registry.go:51-55 | No list loses an entry during Append |
| TypeRegistry.AppendedLists | runtime/registry.go:46-56 | The module is listed under every type before the first misfit |
| TypeRegistry.AppendedOthers | runtime/registry.go:46-56 | The lists of types Append did not reach, or not named, stay as they were |
| TypeRegistry.AppendedWellFormed | runtime/registry.go:40-58 | Append keeps every list free of duplicates and of modules that do not fit |
| TypeRegistry.AppendedIdempotent | runtime/registry.go:40-58 | Appending the same module under the same types a second time changes nothing and gives the same error |
| TypeRegistry.AppendAgain | runtime/registry.go:40-58 | When the module is already under every type before the first misfit, Append leaves the registry as it is |
| TypeRegistry.TraversalSpec | runtime/registry.go:124-132 | The traversal visits a prefix of the list; every module passed over was accepted; it fails exactly when a module is rejected, with the last visited module's error; otherwise it visits the whole list |
| TypeRegistry.VisitedPrefix | runtime/registry.go:124-132 | The modules a traversal visits are a prefix of the list, and the whole list when none is rejected |
| TypeRegistry.VisitedAccepted | runtime/registry.go:124-132 | Every module the traversal visits before the last was accepted |
| TypeRegistry.FirstErrorIff | runtime/registry.go:124-132 | The traversal fails exactly when some module is rejected |
| TypeRegistry.FirstErrorLast | runtime/registry.go:124-132 | A failed traversal returns the error of the last module it visited |
| TypeRegistry.Registry.constructor | runtime/registry.go:28-32 | A new registry knows no types |
| TypeRegistry.Registry.Count | runtime/registry.go:34-38 | The length of the type's list, and 0 exactly for an unknown type or an empty list |
| TypeRegistry.Registry.Append | runtime/registry.go:40-58 | Corrected: the new registry and the error are those Append's definition gives, and the registry stays well formed |
| TypeRegistry.Registry.ModulesByType | runtime/registry.go:71-76 | The type's list and true when the type is known; an empty list and false otherwise |
| TypeRegistry.Registry.TraverseByType | runtime/registry.go:112-133 | An unknown type or an empty list visits nothing and gives nil; otherwise the calls and the error are those of a traversal of the type's list |
| TypeRegistry.ModulesForType | runtime/registry.go:143-155 | Nil for an unknown type or an empty list, otherwise the type's list; in a well-formed registry, a list exactly when the type is known |
| NodeService.Refreshed | app/services/node.go:129-136 | The node's identity is kept; there is no error exactly when its ID decodes; then it is online exactly when a connection is held; a decoding error leaves the node unchanged |
| NodeService.ListedSpec | app/services/node.go:34-44 | The listed nodes are no more than the repository's items; each passes the online filter; each item that passes is listed; without a filter every item is listed in order |
| NodeService.ListedSound | app/services/node.go:34-44 | Every listed node passes the Online filter and is the shown form of a repository item, and there are no more of them than items |
| NodeService.ListedComplete | app/services/node.go:34-44 | Every repository item whose shown form passes the Online filter is listed |
| NodeService.ListedUnfiltered | app/services/node.go:34-44 | Without an Online filter every item is listed, in shown form, in the repository's order |
| NodeService.ShownKeepsIdentity | app/services/node.go:35-38 | A blocked node keeps its stored Online value, and refreshing never changes which node it is |
| NodeService.CreatedModel | app/services/node.go:80-83 | The saved record has the client's name and node ID, is blocked only when true is sent, is not online and has no ID yet |
| NodeService.Edited | app/services/node.go:96-107 | The trimmed name replaces the old one when it is not blank; a sent Blocked value is applied; the ID, node ID and Online value are kept |
| NodeService.UpdateSpecProperties | app/services/node.go:89-127 | Update saves exactly when the record exists and a field was sent, and saves the edited record; it closes connections only after a successful save that blocks the node with a manager present; a failed select or save gives its error and record |
| NodeService.UpdateRefreshes | app/services/node.go:119-125 | An existing unblocked node with nothing to save comes back refreshed, with the refresh's error, and nothing is saved or closed |
| NodeService.NodeServiceImpl.constructor | app/services/node.go:15-18 | The service works over the given repository and optional node manager |
| NodeService.NodeServiceImpl.Search | app/services/node.go:20-46 | A failed search, a search for blocked nodes or a missing manager gives the repository's answer as it is; otherwise the repository's total and the listed nodes, with no error |
| NodeService.ListShown | app/services/node.go:34-44 | The loop over the repository's items yields exactly Listed: each shown, and those failing the Online filter dropped |
| NodeService.NodeServiceImpl.Select | app/services/node.go:48-58 | A failed select gives its error; a blocked node, or one read with no manager, comes back as stored; otherwise the node is refreshed |
| NodeService.NodeServiceImpl.Delete | app/services/node.go:60-76 | A failed select or delete gives its error and closes nothing; otherwise connections are closed exactly when the node was not blocked and a manager is present, and the error is then nil exactly when the node ID decodes, and otherwise the decoding error itself |
| NodeService.NodeServiceImpl.Create | app/services/node.go:78-87 | The repository saves the record the client's fields describe, and its answer is returned |
| NodeService.NodeServiceImpl.Update | app/services/node.go:89-127 | The saved record, closing, refreshed node and error are those of Update's definition, whose properties UpdateSpecProperties and UpdateRefreshes state |
| NodeService.SetNodeOnline | app/services/node.go:129-136 | The node and error are those of the refresh defined above |
| NodeService.CloseNode | app/services/node.go:138-142 | There is no error exactly when the node ID decodes, and otherwise the error is the decoding error |

## Left out

- Locks, goroutines and channels: every operation is modelled as one atomic step. Concurrent interleavings, and the read lock that `QuicRoute.Dial` still holds on its three-failures path, are not modelled.
- Network and file I/O: QUIC streams and UDP sockets are modelled as chunked byte streams, and their errors as parameters. Deliver's UDP dialing and writes are left out.
- Repositories, the node manager a provider gives, base64 decoding, a module's SetEnable effect, ExtFS's Control, `URL.canParse`, and settings lookups are oracles passed in as functions, because their code is not part of this model.
- `runtime.Registry.Modules` and `Traverse` are left out, because they walk a Go map whose order is unspecified. `TraverseByType` and `ModulesByType` are modelled.
- TypeRegistry.ModulesForType: the per-module type assertion `module.(T)` is not modelled, because the modules are stored untyped. The registry's own fit check stands in for it.
- Type fitting in the runtime registry (`Implements` or equal type) is a predicate on a type reference and the set of interfaces a module implements. Go reflection is not modelled.
- CoreRegistry.Registry.AddModule: a hook that re-enters the registry is not modelled. The hook's answer is a field of the module.
- PeerManagers: nested buckets are values stored in the outer bucket's rows. Aliasing of a nested bucket shared between callers is not modelled.
- Go strings are sequences of characters. UTF-8 byte lengths and invalid encodings are not modelled.
- Integer widths are written out where the code wraps or truncates (uint16 sizes, uint32 codes). Elsewhere integers are unbounded.
- The app/node `ParseSegment` helper's file is not part of this model. It is modelled as reading the layout `MarshalHeader` writes, with `io.ReadFull` semantics.
- QuicNet.ServeBroadcast: the steps after parsing the announcement (SplitHostPort, ResolveIPAddr, Greet) are left out, because they are network I/O.
- QuicNet: `quicRoute.Do` and `Greet`'s stream handling are left out, because they are network I/O.
- ExtFSItems.Search: the model follows the code, where a failing child lookup is swallowed by a shadowed `err` and the total is always -1.
- ModuleService.ModuleServiceImpl.Search: keywords are compared untrimmed, as the code does, so " Name A" looks for the leading space.
- NodeService.NodeServiceImpl.Search: errors from refreshing an individual node are ignored, as in the code.
- NodeService.NodeServiceImpl.Update: after a failed close the node is not refreshed, as in the code.
- ExtFSItems: SearchNodeItemWithParentID ignores the link ID, as in the code.
- AppBroadcast.Deliver: a zero MTU, which Deliver reads when it runs before the first sigOnce has set the MTU, makes the Go loop write the empty block forever; the model cannot run forever and reports this as the value `Endless([])` instead.
- AppBroadcast.Deliver: the blocks are the corrected split; as written, a payload of more than one block whose packed size is not a multiple of the MTU panics on the final block's slice (Findings, app/broadcast.go:248-255 row).
- FilePath.ExtractRoot: each call matches from the start of the path; the code's shared /g regular expression carries lastIndex from one call to the next (Findings, path.ts:11,25-32 row).
- QuicNet.QuicModule.DestroyRoute: the call `nodeModule.NodeManager().Delete(route)` made before the route list is edited is not modelled, because the node manager a provider gives is not part of this model. Only the route list is.
- QuicNet.QuicModule.CreateRoute: the loop that draws a new resource ID and calls Control again while Control answers ErrConflict is not modelled; its final result is the `control` parameter. That loop never ends with ErrConflict, but the parameter is not restricted, so the model also covers a `control` of ErrConflict the code cannot produce.
- PeerCodec.MarshalRequest: the skip of nil entries in the header list is not modelled, because headers are values and a nil header cannot be represented.
- CacheBucket.Bucket.Swap: a new hash goes in at its sorted place through the corrected search; the code's indexOfBucket appends a hash that belongs before a middle item at the end, where a later Search misses it (Findings, cache/bucket.go row).
- CacheBucket.Bucket.SearchOrStore: inserts at the corrected position, not at the end where the code's indexOfBucket puts a mid-array hash (Findings, cache/bucket.go row).
- CacheBucket.Bucket.Store: inserts at the corrected position, not at the end where the code's indexOfBucket puts a mid-array hash (Findings, cache/bucket.go row).
- MemoryBucket.Bucket.SetItem: a new hash goes in at its sorted place through the corrected search under Flip(cmp); the code's findBucketItemIdx appends a mid-array hash at the end (Findings, memory/bucket.go row).
- MemoryBucket.Bucket.GetOrAddItem: inserts at the corrected position, not at the end where the code's findBucketItemIdx puts a mid-array hash (Findings, memory/bucket.go row).
- MemoryBucket.Bucket.AddItem: inserts at the corrected position, not at the end where the code's findBucketItemIdx puts a mid-array hash (Findings, memory/bucket.go row).
- CacheBucket.Bucket.Delete: removes exactly the item; the code's second copy lands on index 0 of the new slice, so a middle delete loses the prefix and leaves a zero value at the end (Findings, cache/bucket.go:195-221 row).
- MemoryBucket.Bucket.RemoveItem: removes exactly the item; the code's second copy lands on index 0 of the new slice, so a middle removal loses the prefix and leaves a zero value at the end (Findings, memory/bucket.go:178-204 row).
- PeerManagers.RemoveNode: the corrected RemoveItem; as written, a middle code leaves a nil item in the peer's bucket, on which a later GetItem, GetLastItem or Save calls HashCode and panics.
- PeerManagers.RemoveRoute: the corrected RemoveItem; as written, a middle code leaves a nil item in the peer's routes.
- PeerManagers.NodeManager.Delete: goes through the corrected RemoveNode, so the nil item the code can leave is not modelled.
- PeerManagers.RouteManager.Delete: goes through the corrected RemoveRoute, so the nil item the code can leave is not modelled.
- MemoryBucket: the model keeps the code's descending order, which the peer managers' first-item reads rely on; the ascending order the bucket's test expects is not modelled (Findings, memory/bucket.go:219 row).
- PeerManagers.AddNode: the ordered insert into a peer's bucket is the corrected AddItem, not the code's mid-array append.
- PeerManagers.SaveRoute: the ordered insert into a peer's routes is the corrected GetOrAddItem, not the code's mid-array append; PeerManagers.RouteManager.Save goes through it.
- Go slices are bounded by capacity. AppBroadcast.ParsePacketBufferAsWritten and QuicNet.ParseAnnounceAsWritten take the backing array's bytes past the length as a parameter, because their header slices read through the capacity. Every other slice in the model is of a slice whose capacity is its length, or stays within the length.
- AppBroadcast.ParsePacketBuffer: the corrected parse is stated for a block whose capacity is its length, so a zero-marked block shorter than five bytes panics.
- ParseAnnounceAsWritten: only the first slice, payload[0:2], can read past the length; the later slices are bounded by the length checks before them.
- ShortAnnouncePanicsAsWritten: the panic needs a payload whose capacity is its length, such as []byte{7}; on the receive path the payload is block[5:] of an MTU buffer and is dropped instead.
- Tag quantities and UI rendering (layout, styling, translations, React effects) are left out. Only the state each component computes is modelled.

## Findings

| source | as written | input that shows it | evidently intended | confidence | as-written member | corrected member |
|---|---|---|---|---|---|---|
| app/cache/bucket.go:272-304 | SearchBucketIndex leaves the index at -1 when the hash belongs before a middle item, so Store appends it out of order | items [1,3,5,7], hash 2 | the insertion point 1 | not executed | Buckets.SearchAsWrittenMissesMidArray | Buckets.SearchSpec |
| cache/bucket.go:226-258 | indexOfBucket, the same search as SearchBucketIndex, leaves the index at -1 when the hash belongs before a middle item, so Store appends it out of order | items [1,3,5,7], hash 2 | the insertion point 1 | not executed | Buckets.SearchAsWrittenMissesMidArray | CacheBucket.Bucket.Store |
| memory/bucket.go:209-241 | findBucketItemIdx, the same search with the comparison reversed, leaves the index at -1 when the hash belongs before a middle item, so AddItem appends it out of order | items [7,5,3,1], hash 6 | the insertion point 1 | not executed | MemoryBucket.FindAsWrittenMissesMidArray | MemoryBucket.Bucket.AddItem |
| app/cache/bucket.go:157-180 | Delete copies the prefix, then copies the suffix over it from index 0 | items [1,2,3], deleting 2 | the items [1,3] | not executed | Buckets.DeleteAsWrittenLosesPrefix | Buckets.DeleteOpSpec |
| cache/bucket.go:195-221 | Delete, the same make/copy/copy as in app/cache, copies the suffix over the prefix from index 0 | items [1,2,3], deleting 2: [3, zero] | the items [1,3] | not executed | CacheBucket.DeleteAsWrittenLosesMiddle | CacheBucket.Bucket.Delete |
| memory/bucket.go:178-204 | RemoveItem, the same make/copy/copy, copies the suffix over the prefix from index 0; in a peer bucket the zero value is a nil item | descending [3,2,1], removing 2: [1, zero] | the items [3,1] | not executed | MemoryBucket.RemoveAsWrittenLosesMiddle | MemoryBucket.Bucket.RemoveItem |
| memory/bucket.go:219 | findBucketItemIdx compares compare(hash, mid), so the bucket is descending and GetLastItem (lines 91-102) returns the lowest hash, where memory/bucket_test.go:88-93 expects the last item added with the higher hash | AddItem of hash 1, then hash 2, then GetLastItem: the hash-1 item | either an ascending bucket, as the test expects, or the descending bucket with node_mgr.go reading its first item; the model keeps the code's order | not executed | MemoryBucket.LastItemAfterTwoAdds | PeerManagers.AscendingNextCodeAsWrittenIsFresh |
| peer/node_mgr.go:55-64 | the next code is one past the last item's code, the lowest one in descending order | stored codes 1 and 0 | a code not yet in use (2): one past the first item's code in the descending bucket, which the model uses, or an ascending bucket, in which the code as written is already fresh (memory/bucket.go:219 row) | not executed | PeerManagers.ThirdSaveCollides | PeerManagers.NextCodeIsFresh |
| app/broadcast.go:140-158 | parsePacketBuffer takes every packBuffer block for an unrecognised one, since checksum ^ size is 65535 | any packed buffer | the block's payload back | not executed | AppBroadcast.PackedBufferRejectedAsWritten | AppBroadcast.PackBufferRoundTrip |
| broadcast/packet.go:24-27 | a declared size below 5 makes payload[5:size] panic | payload [1,0,0,0,0,9] | "Payload Not Enough" | not executed | BroadcastPacket.ShortSizePanics | BroadcastPacket.ParsePacket |
| peer/segment.go:72-84 | after a partial read the buffer becomes data[:total], so later chunks overwrite the front of the field | field [1,2,3,4] read in two chunks | the field [1,2,3,4] | not executed | PeerCodec.PartialReadsScrambleField | PeerCodec.SplitFieldCorrected |
| app/node/header.go:61-73 | UnmarshalHeader only leaves its loop through a failed read, so it never succeeds | any header with an entry | the entries MarshalHeader wrote | not executed | NodeCodec.NonEmptyHeaderNeverDecodes | NodeCodec.MessageRoundTrip |
| app/node/message.go:23-28 | an empty header leaves a nil reader in the MultiReader | a message with no header entries | the size bytes and then the body | not executed | NodeCodec.EmptyHeaderPanics | NodeCodec.MessageChunks |
| app/node/context.go:52-54 | Session returns the boxed session item instead of its value | any stored key | the stored value | not executed | NodeContext.ItemIsNotItsValue | NodeContext.Context.Session |
| app/broadcast.go:248-255 | the final block's limit is size - offset, which falls below the offset | 10-byte payload (15 packed bytes), MTU 4: buffer[12:3] | the block buffer[12:15] | not executed | AppBroadcast.FinalBlockPanicsAsWritten | AppBroadcast.SplitBlocks |
| app/net/quic.go:86-94 | the deferred CloseWithError runs on a nil connection when the peer ID is wrong | a peer answering with another node ID | a failure counted and the route closed | not executed | QuicNet.MismatchPanicsAsWritten | QuicNet.DialDecision |
| app/net/quic.go:512 | a payload shorter than two bytes whose capacity is also its length is sliced past its capacity by payload[0:2] | payload []byte{7} (exact capacity); the receive path's block[5:] has spare capacity and is dropped instead | the payload dropped | not executed | QuicNet.ShortAnnouncePanicsAsWritten | QuicNet.ParseAnnounce |
| web/src/components/FilePath/path.ts:11,25-32 | the shared /g regular expression keeps lastIndex between calls | "1:x" twice in a row | root "1/" both times | not executed | FilePath.DriveRootAlternatesAsWritten | FilePath.ExtractRoot |
| web/src/components/ExtFS.tsx:464-467 | the mobile menu slices parentItems up to the offset, excluding the chosen entry | the first menu entry | the chosen entry opened | not executed | ExtFSBrowser.MobileMenuMissesAsWritten | ExtFSBrowser.MobileMenuClick |
| runtime/registry.go:51-55 | re-appending a listed module replaces the type's list with that module alone | {T:[a,b]} plus b under T | {T:[a,b]} unchanged | not executed | TypeRegistry.AddUnderAsWrittenDropsOthers | TypeRegistry.AppendedSpec |
