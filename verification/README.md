# Broadcast, modelled and proved

Broadcast is a small TCP server framework: clients send commands in one of two
text protocols, backends register handlers for them, and a client library and a
command-line tool talk to it. This project models four connected parts of it and
proves what they promise, over every input, every run or every reachable state.

1. **The typed wire codec** (`Decimal`, `Wire`, `WireProofs`, `RoundTrip`,
   `BufferClient`, `Commands`). `Wire` says as functions what each write appends
   and what each read takes off the stream; `BufferClient` is the stateful client,
   proved against them. On top: the reader's answer does not depend on what
   follows or on how the stream is cut (`ReadStable`, `ReadMinimal`), and a stream
   of messages is read back to the last byte if and only if every message lies in
   an explicit domain (`StreamRoundTrip`). The redis form carries every command;
   the line form carries exactly the `LineSafe` ones (`LineCommandBack`).
2. **The stats store behind the request loop** (`StatsMachine`, `MemoryBackend`,
   `StatsBackend`, `StatsReplies`, `StatsCommands`, `StatsLaws`, `StatsObserved`,
   `ProtocolServer`, `Pipeline`, `Connections`).
   `StatsMachine` is a sequential machine over plain maps and sets. The live
   store, with counters and member sets shared by reference, and every handler are
   proved to take its steps; the request loop, on any byte stream, is proved to
   write exactly its replies. `StatsReplies` decides, from the store and the command
   alone, whether a reply can be carried by the wire; with it, a pipelining client
   reads exactly the machine's replies if and only if every request passes that test
   (`PipelineEndToEnd`, `Converse` on live objects), and a fresh server answers every
   tidy list of commands in full (`FirstConversation`). `Connections` serves several
   clients on one store in any order of turns, with counter flushes in between, and
   gives each the replies to its own requests (`ServeTogether`), which it reads back
   to the last byte under the same exact test (`EachClientReadsItsShare`). `StatsLaws`
   proves laws of the machine over whole runs: conservation of set sizes and counters,
   the window of rates, independence of interleavings. `StatsObserved` tells the same machine by the replies alone: what
   is written is read (`ReadAfterWrite`, `NilExactly`), and membership over any run
   (`MembersExactly`).
3. **The line editor** (`Terminal`, `Redraw`, `MultiRedraw`, `History`,
   `EditorModel`, `LineEditor`). The editor's buffer, edited in place with
   memmove, refines a zipper for every key and every input; the multi-line redraw
   reproduces the wrapped text on a terminal with deferred autowrap over any run,
   clearings of the screen included; a table of what each key sends is decoded exactly
   (`CodesDecode`, `DecodedIsCode`); the single-line redraw and its fast append have
   exact conditions; the history is a suffix of the log, navigation undoes itself,
   and all along a session every entry holds its latest edited text, if and only if
   every line shown fits the buffer (`EveryEntryHoldsItsLatest`).
4. **Pub/sub, the client registry and the connection pool** (`PubSub`, `Pool`,
   `PoolCommands`).
   State machines whose properties are about whole traces: who a publication
   reaches (`Delivery`), and that every pooled call gets its own reply or fails,
   under any interleaving, failures and publications, if and only if every command
   given to `Do` earns at most one reply and leaves no subscription (`SafeExactly`).
   `PoolCommands` says which client commands those are in either protocol
   (`RedisFitExactly`, `LineEarnsAtMostOne`, `LineFitExactly`). A connection is lost
   only by a `DoAsync` that leaves it open (`LostExactly`). The live
   objects carry the trace, or the machine's state, as ghost fields and are proved to
   follow it: `Publish` sends to exactly those `Delivery` names, and `Client.Do` takes
   exactly the machine's steps.

Code that changes state step by step is a class or a method with loops, proved
against a function; the laws are lemmas about those functions. Ranging over a Go
map is a loop over a set that picks an arbitrary element, so replies that list a
set are specified up to order (`ByteStrings.Enumerates`).

Where the code departs from what its documentation or names suggest, the code is
followed and the departure is proved:

- DECR of a missing key stores the negated amount but replies with the amount
  itself (`StatsLaws.DecrementReply` gives the exact condition, `StatsLaws.FirstDecrement`
  the failing input).
- COUNT is announced as fire-and-forget, yet a bad or missing argument is answered
  with an error frame (`StatsMachine.SilentExactly`, `StatsMachine.BadCountIsAnswered`).
- A publication drops subscribers that are gone without counting them down; the
  count is therefore an upper bound (`PubSubMachine.ExcessCounts`,
  `PubSubMachine.CountCanExceed`), and the gate on it still suppresses no delivery.
- An empty string, or text with a line feed, written as a simple string, an error
  or a set member does not survive the wire (`RoundTrip.MessageRoundTrip`,
  `StatsReplies.CarriableExactly`; failing inputs `RoundTrip.EmptyStringIsRefused`,
  `StatsReplies.EmptyMemberCannotBeListed`).
- A single-line redraw of a full row erases its last byte
  (`Redraw.SingleRefreshFaithful`, `Redraw.FullRowLosesItsLastByte`).
- A single-line redraw of an empty row leaves the cursor one column too far right, so
  with an empty prompt the byte typed next, printed without a redraw, appears one
  column off, and so do those after it until a redraw (`Redraw.FastAppendAfterRedraw`
  gives the exact condition, `Redraw.EmptyPromptDrifts` the failing keys). The editor's
  display is promised except while it drifts so (`LineEditors.LineEditor.EditInsert`
  says when that starts), which never happens with a prompt.
- Navigating the history cuts a line that is as long as the buffer allows by one
  byte (`EditorModel.NavigateKeepsSheet`, `EditorModel.FullLineLosesAByte`).
- The pool of connections hands a call another call's reply after a line-form command
  whose text holds a line feed and so is several requests, and returns publications
  after a subscription (`PoolMachine.SafeExactly` gives the exact condition,
  `PoolCommands.LineFeedEarnsTwo` and `PoolCommands.SubscriptionIsUnfit` the inputs,
  `PoolCommands.UnfitGoesWrong` the runs).
- A connection that `DoAsync` took from the pool is never given back, so it stays open
  in nobody's hands unless the call failed (`PoolMachine.LostExactly`).
- The count of connected clients goes wrong when a connection is accepted under an
  address still registered, or exits when it no longer is (`BroadcastServer.Accept`,
  `BroadcastServer.Exit` give the exact conditions).

Integers of the source are int64; wrap-around is written out (`ByteStrings.Wrap`).
Library code enters as a parameter `Wire.Lib`: which texts parse as floats and as
JSON, how a value is printed, how a string is quoted. Sockets become a finite byte
sequence with a read position, and the 128-byte line buffer is kept; network
failures of the pool become a parameter (`PoolMachine.Weather`).

## Model

| member | source | states |
|---|---|---|
| Decimal.IntRoundTrip | server/client.go:158-163 | Every int64, the minimum included, is read back by the parser as the number that was printed. |
| Decimal.ParseIntExactly | server/client.go:450-455 | Exactly which texts are accepted, which number each denotes, and when the error is a syntax rather than a range error. |
| Decimal.FormatIntShape | server/client.go:129-134 | A printed int64 takes 1 to 20 bytes and holds no line feed, so every length line fits the 128-byte line buffer. |
| Decimal.PrintedShortest | server/client.go:158-163 | The printed text is canonical: no text that reads as the number is shorter, and none other is as short. |
| ByteStrings.UpperExactly | server/context.go:16-24 | Two names have the same upper case exactly when they are equal but for the case of their letters, told byte by byte; an upper-cased name holds no lower-case letter. |
| BufferClients.BufferClient.constructor | server/client.go:111-118 | A new client has consumed nothing and written nothing. |
| BufferClients.BufferClient.WriteLen | server/client.go:129-134 | Appends the prefix, the decimal length and CRLF, and changes nothing else. |
| BufferClients.BufferClient.WriteString | server/client.go:137-142 | Appends exactly the frame of a simple string, prefix `+`. |
| BufferClients.BufferClient.WriteByte | server/client.go:144-149 | Appends exactly the frame of a single byte, prefix `&`. |
| BufferClients.BufferClient.WriteBytes | server/client.go:151-156 | Appends exactly the length-prefixed frame of a byte string, prefix `$`. |
| BufferClients.BufferClient.WriteInt64 | server/client.go:158-163 | Appends exactly the frame of an integer, prefix `:`. |
| BufferClients.BufferClient.WriteFloat64 | server/client.go:165-170 | Appends exactly the frame of a float's text, prefix `.`. |
| BufferClients.BufferClient.WriteBool | server/client.go:172-181 | Appends exactly the frame of a bool, prefix `?`. |
| BufferClients.BufferClient.WriteError | server/client.go:183-192 | Appends exactly the frame of an error, which always carries `ERR ` first, also for a nil error. |
| BufferClients.BufferClient.WriteNull | server/client.go:194-199 | Appends exactly the null bulk string. |
| BufferClients.BufferClient.WriteBulk | server/client.go:201-207 | The loop appends the count and each part as a bulk string, in order: one `Bulk` message. |
| BufferClients.BufferClient.WriteInterface | server/client.go:209-235 | Appends the frame the value's type calls for; values without a frame of their own, nested arrays among them, go out as printed text. |
| BufferClients.BufferClient.WriteArray | server/client.go:237-247 | The loop appends the count and every element in order: one `Array` message. |
| BufferClients.BufferClient.WriteJson | server/client.go:249-259 | Appends the `~json` line and the document as a bulk string, or, for a value that cannot be marshalled, nothing. |
| BufferClients.BufferClient.WriteCommand | server/client.go:261-268 | Puts the upper-cased name in front of the arguments and writes them as one array. |
| BufferClients.BufferClient.ReadSlice | server/client.go:479-482 | Takes the bytes up to a line feed, or fails when 128 bytes hold none, or the stream ends first. |
| BufferClients.BufferClient.ReadLine | server/client.go:479-491 | Takes one CRLF-terminated line off the stream, with the source's three error outcomes. |
| BufferClients.BufferClient.ReadLineInvariant | server/client.go:493-509 | Takes one line, stripping exactly one CR or space before the line feed when there is one. |
| BufferClients.BufferClient.ReadBlock | server/client.go:290-303 | Takes n bytes and the empty line that must follow. |
| BufferClients.BufferClient.ReadPayload | server/client.go:272-307 | Takes one bulk string; negative lengths below -1 are the panic outcome. |
| BufferClients.BufferClient.ReadBulkPayload | server/client.go:312-341 | Takes an array of bulk strings, or reports the first error met. |
| BufferClients.BufferClient.ReadPayloadItems | server/client.go:328-336 | The loop that fills the slice reads the payloads in order and stops at the first error. |
| BufferClients.BufferClient.ReadInterface | server/client.go:349-437 | The recursive, stream-consuming reader agrees with the parse function `Wire.Read` on every stream, in value, error and bytes consumed, and terminates. |
| BufferClients.BufferClient.ReadItems | server/client.go:389-397 | The loop over the elements of an array, which calls the reader recursively, agrees with `Wire.ReadMany`. |
| WireProofs.ReadStable | server/client.go:349-437 | On arbitrary bytes, nested arrays and `~` documents included: an answer other than running out of input is the same value or error, with the same bytes consumed, whatever follows. |
| WireProofs.ReadManyStable | server/client.go:389-397 | The same for a run of n values. |
| WireProofs.LineStable | server/client.go:479-491 | The same for one line. |
| WireProofs.BlockStable | server/client.go:290-303 | The same for a sized block and its empty line. |
| WireProofs.ReadNotHungry | server/client.go:349-437 | Bytes that a read consumed entirely are enough: without what follows, the reader does not ask for more. |
| WireProofs.ReadSuffix | server/client.go:349-437 | What a successful read leaves is a suffix of the stream. |
| WireProofs.ReadExact | server/client.go:349-437 | The bytes a value occupies, alone, read back as that value with nothing left. |
| WireProofs.ReadMinimal | server/client.go:349-437 | Every proper prefix of those bytes makes the reader wait for more: results do not depend on how the stream is cut into chunks. |
| RoundTrip.ReadYieldsReadable | server/client.go:349-437 | Whatever bytes arrive, a value that is read lies in the explicit domain `Readable`. |
| RoundTrip.BlobBack | server/client.go:359-381 | Arbitrary bytes survive as a bulk string, whatever follows on the stream. |
| RoundTrip.ValuesBack | server/client.go:237-247 | Reading as many values as were written one after the other yields them, flattened where the format flattens. |
| RoundTrip.ArrayBack | server/client.go:237-247 | An array of readable values is read back as that array. |
| RoundTrip.MessageBack | server/client.go:129-268 | Each message with a readable meaning is read back as that meaning, and no byte of what follows is taken. |
| RoundTrip.MessageRoundTrip | server/client.go:129-268 | If and only if: a message is read back as its meaning exactly when that meaning is in the domain (non-empty lines without a line feed that fit 128 bytes; bytes other than line feed; bounded sizes). |
| RoundTrip.StreamRoundTrip | server/client.go:129-268 | If and only if: a whole list of messages is read back, to the last byte, exactly when every one of them is readable. |
| RoundTrip.EmptyStringIsRefused | server/client.go:137-142 | The failing input: the line written for an empty simple string is refused by the reader. |
| RoundTrip.LineFrames | server/client.go:129-268 | What the one-line messages look like on the wire, in ASCII. |
| RoundTrip.LengthFrames | server/client.go:129-268 | And those that announce a length. |
| RoundTrip.LineRead | server/client.go:349-437 | What each one-line reply is read as, by its first byte and the rest of the line; the negative lengths that crash, the texts that are no number. |
| RoundTrip.LineRefused | server/client.go:290-303 | How a line without a carriage return, cut, or longer than the buffer is refused. |
| RoundTrip.BlockRefused | server/client.go:349-437 | How a payload cut short is refused. |
| RoundTrip.PrefixFree | server/client.go:129-268 | No readable message is a proper prefix of another, and equal bytes mean the same. |
| RedisClient.WriteCommand | protocols/redis/redisprotocol_client.go:27-37 | The loop writes the upper-cased name and the arguments as one bulk array. |
| RedisClient.PayloadsBack | server/client.go:328-336 | Any list of byte strings written as bulk strings is read back as payloads. |
| RedisClient.RedisCommandBack | protocols/redis/redisprotocol_client.go:27-37 | A command with any bytes in its arguments reaches the server as its upper-cased name and its arguments. |
| RedisClient.OpeningLines | server/client.go:272-341 | What the line that opens a payload, or a list of payloads, is refused for; a null payload reads as an empty one. |
| LineClient.ReadBulkLine | protocols/line/lineprotocol_client.go:26-35 | Reads a line, refuses one shorter than two bytes, and splits it at single spaces. |
| LineClient.WriteCommand | protocols/line/lineprotocol_client.go:37-50 | The growing buffer ends as the words joined by spaces, followed by CRLF. |
| LineClient.JoinSplit | protocols/line/lineprotocol_client.go:34-34 | Joining undoes splitting on every line. |
| LineClient.SplitJoin | protocols/line/lineprotocol_client.go:34-46 | If and only if: splitting undoes joining exactly when no word holds a space. |
| LineClient.InvariantLineBack | server/client.go:493-509 | A line without a line feed that fits the buffer is read back whole, one CR stripped; a longer one fails; one with a line feed inside never comes back. |
| LineClient.LineEndings | server/client.go:493-509 | A line may end in a line feed alone or after one carriage return or one space; an empty one is refused. |
| LineClient.LineCommandBack | protocols/line/lineprotocol_client.go:26-50 | If and only if: the line form carries a command exactly when no word holds a space or line feed and the line has at least 2 bytes and fits the buffer. |
| LineClient.ProtocolsAgree | protocols/line/lineprotocol_client.go:26-50 | On that domain, both protocols hand the server the same array. |
| Context.BroadcastContext.RegisterCommand | server/context.go:16-19 | Records the registration and the help entry under the upper-cased name. |
| Context.BroadcastContext.Register | server/context.go:22-24 | Records the registration; the dispatch table stays the table of all registrations so far. |
| Context.BroadcastContext.RegisterHelp | server/context.go:27-29 | Changes the help table alone. |
| Context.LastRegistrationWins | server/context.go:16-24 | A name finds the handler registered last under a name equal to it but for the case of letters, and finds one exactly when one was registered. |
| StatsCommands.RegisterBackend | backends/stats/metrics.go:523-553 | Adds the sixteen modelled registrations of the stats backend to whatever is there. |
| StatsCommands.EveryNameFindsItsHandler | backends/stats/metrics.go:523-553 | After that, every spelling of a stats command name, equal to it but for the case of letters, reaches its own handler, whatever was registered before. |
| StatsCommands.UsageOpensWithTheName | backends/stats/metrics.go:89-521 | The usage text a handler sends opens with the name that handler is registered under. |
| StatsMachine.SilentExactly | backends/stats/metrics.go:232-256 | If and only if: a command earns no reply exactly when it is a well-formed COUNT, whatever the store holds. |
| StatsMachine.BadCountIsAnswered | backends/stats/metrics.go:232-256 | The failing inputs: COUNT without a key, and with an amount that is no number, are answered. |
| StatsMachine.ApplyFits | backends/stats/memorybackend.go:73-117 | Every command keeps all stored numbers within int64. |
| StatsMachine.InterIgnoresOrder | backends/stats/memorybackend.go:295-335 | The intersection depends on which sets are named, not on order or repetition. |
| StatsReplies.UsageFits | backends/stats/metrics.go:89-521 | Every usage text, behind its error prefix, fits a line of the wire. |
| StatsReplies.ReportFitsExactly | backends/stats/metrics.go:72-87 | If and only if: the report of a rejected number fits a line exactly when its quoted text has no line feed and at most 79 bytes (75 when the number is out of range). |
| StatsReplies.MembersGrow | backends/stats/memorybackend.go:177-212 | A command adds to the stored members at most those it was given, and only SADD adds any. |
| StatsReplies.ApplySound | backends/stats/memorybackend.go:73-212 | Every command keeps the numbers within int64 and the keys and members within their bound plus the words it was given. |
| StatsReplies.CarriableExactly | backends/stats/metrics.go:53-521 | If and only if, known before the command is handled: its reply can be carried exactly when there is one, every member it would list fits a line, and so does the report of a number it would reject. |
| StatsReplies.EmptyMemberCannotBeListed | backends/stats/metrics.go:410-435 | The failing input: SADD of an empty member, then SMEMBERS. |
| StatsReplies.TidyStep | backends/stats/metrics.go:296-318 | Commands that store only members fitting a line keep all stored members so, and can always be answered. |
| MemoryBackends.MemberSet.Insert | backends/stats/memorybackend.go:177-194 | Adds a member and answers by how much the set grew. |
| MemoryBackends.MemberSet.AddAll | backends/stats/memorybackend.go:286-288 | Ranging over another live set in any order adds exactly its members. |
| MemoryBackends.Counter.Roll | backends/stats/memorybackend.go:50-58 | One flush of one counter: the rate moves into the history, the history keeps its newest 100 entries, the value returns to 0. |
| MemoryBackends.MemoryBackend.FlushCounters | backends/stats/memorybackend.go:43-61 | Ranging over the counters in any order flushes each exactly once and leaves the rest of the store alone. |
| MemoryBackends.MemoryBackend.CounterBy | backends/stats/memorybackend.go:73-83 | Adds to a live counter with int64 wrap-around or creates one; every other key is unchanged. |
| MemoryBackends.MemoryBackend.IncrBy | backends/stats/memorybackend.go:89-100 | New value and reply of INCR, wrap-around included. |
| MemoryBackends.MemoryBackend.DecrBy | backends/stats/memorybackend.go:106-117 | New value and reply of DECR, with the source's differing sign on a missing key. |
| MemoryBackends.MemoryBackend.Del | backends/stats/memorybackend.go:119-133 | Removes the key from values and counters and answers how many of the two held it; sets stay. |
| MemoryBackends.MemoryBackend.Exists | backends/stats/memorybackend.go:135-144 | Answers whether a value is stored. |
| MemoryBackends.MemoryBackend.Get | backends/stats/memorybackend.go:148-157 | The stored value, or the not-found error. |
| MemoryBackends.MemoryBackend.Set | backends/stats/memorybackend.go:159-164 | Stores and answers 1. |
| MemoryBackends.MemoryBackend.SetNx | backends/stats/memorybackend.go:166-175 | Stores and answers 1 only when there is no value; else -1 and no change. |
| MemoryBackends.MemoryBackend.InsertAt | backends/stats/memorybackend.go:187-193 | Inserts into the live set of one key; every other set keeps its contents. |
| MemoryBackends.MemoryBackend.SAdd | backends/stats/memorybackend.go:177-194 | Adds one member to a live set, created when missing, and answers the growth; no other set changes although sets are shared by reference. |
| MemoryBackends.MemoryBackend.Ensure | backends/stats/memorybackend.go:181-185 | Finds or creates the set of a key without touching any other. |
| MemoryBackends.MemoryBackend.SRem | backends/stats/memorybackend.go:196-212 | Removes one member and answers the shrinkage; -1 and no change for a missing key. |
| MemoryBackends.MemoryBackend.SCard | backends/stats/memorybackend.go:214-224 | The size of the set, 0 when missing. |
| MemoryBackends.MemoryBackend.SMembers | backends/stats/memorybackend.go:226-236 | The live set itself, or none. |
| MemoryBackends.MemoryBackend.SDiff | backends/stats/memorybackend.go:238-262 | A fresh set, or the argument itself when the key is missing, equal to the difference; no stored set is written. |
| MemoryBackends.MemoryBackend.SIsMember | backends/stats/memorybackend.go:264-277 | 1 or 0 for membership. |
| MemoryBackends.MemoryBackend.SUnion | backends/stats/memorybackend.go:279-293 | A fresh set equal to the union of the named sets. |
| MemoryBackends.MemoryBackend.SInter | backends/stats/memorybackend.go:295-335 | Scans one of the smallest named sets only, yet yields exactly the plain intersection; null exactly when some key is missing. |
| MemoryBackends.MemoryBackend.Collect | backends/stats/memorybackend.go:299-312 | The first loop finds every set and an index of minimum cardinality. |
| MemoryBackends.MemoryBackend.Common | backends/stats/memorybackend.go:314-334 | The scan of that one set yields the intersection of all. |
| MemoryBackends.MemoryBackend.InAll | backends/stats/memorybackend.go:317-327 | The inner loop, which skips the scanned set, decides membership in the intersection. |
| StatsBackends.FlushInt | backends/stats/metrics.go:53-60 | Sends exactly the integer frame. |
| StatsBackends.FlushNil | backends/stats/metrics.go:62-66 | Sends exactly the null frame. |
| StatsBackends.WriteUsage | backends/stats/metrics.go:91-94 | Sends exactly one error frame with the command's usage text. |
| StatsBackends.WriteInts | backends/stats/metrics.go:363-371 | One number goes out alone, several as one array in argument order. |
| StatsBackends.WriteMembers | backends/stats/metrics.go:400-404 | Ranging over a set in any order sends one array that lists each member exactly once. |
| StatsBackends.StatsBackend.Set | backends/stats/metrics.go:89-103 | On every argument list, SET takes the live store one step of the sequential machine and sends the one frame its reply calls for, or returns the machine's error unsent. |
| StatsBackends.StatsBackend.SetNx | backends/stats/metrics.go:105-119 | On every argument list, SETNX takes the live store one step of the sequential machine and sends the one frame its reply calls for, or returns the machine's error unsent. |
| StatsBackends.StatsBackend.Get | backends/stats/metrics.go:121-138 | On every argument list, GET takes the live store one step of the sequential machine and sends the one frame its reply calls for, or returns the machine's error unsent. |
| StatsBackends.StatsBackend.Exists | backends/stats/metrics.go:140-154 | On every argument list, EXISTS takes the live store one step of the sequential machine and sends the one frame its reply calls for, or returns the machine's error unsent. |
| StatsBackends.StatsBackend.Del | backends/stats/metrics.go:156-178 | On every argument list, DEL takes the live store one step of the sequential machine and sends the one frame its reply calls for, or returns the machine's error unsent. A key named twice is counted once. |
| StatsBackends.StatsBackend.Incr | backends/stats/metrics.go:180-204 | On every argument list, INCR takes the live store one step of the sequential machine and sends the one frame its reply calls for, or returns the machine's error unsent. |
| StatsBackends.StatsBackend.Decr | backends/stats/metrics.go:206-230 | On every argument list, DECR takes the live store one step of the sequential machine and sends the one frame its reply calls for, or returns the machine's error unsent. |
| StatsBackends.StatsBackend.Count | backends/stats/metrics.go:232-256 | On every argument list, COUNT takes the live store one step of the sequential machine and sends the one frame its reply calls for, or returns the machine's error unsent. A well-formed call sends nothing. |
| StatsBackends.StatsBackend.SAdd | backends/stats/metrics.go:296-318 | On every argument list, SADD takes the live store one step of the sequential machine and sends the one frame its reply calls for, or returns the machine's error unsent. Repeated members count once. |
| StatsBackends.StatsBackend.SRem | backends/stats/metrics.go:320-344 | On every argument list, SREM takes the live store one step of the sequential machine and sends the one frame its reply calls for, or returns the machine's error unsent. A missing key answers -1. |
| StatsBackends.StatsBackend.SCard | backends/stats/metrics.go:346-374 | On every argument list, SCARD takes the live store one step of the sequential machine and sends the one frame its reply calls for, or returns the machine's error unsent. |
| StatsBackends.StatsBackend.SDiff | backends/stats/metrics.go:376-408 | On every argument list, SDIFF takes the live store one step of the sequential machine and sends the one frame its reply calls for, or returns the machine's error unsent. No stored set changes, though the fold starts on the live one. |
| StatsBackends.StatsBackend.SMembers | backends/stats/metrics.go:410-435 | On every argument list, SMEMBERS takes the live store one step of the sequential machine and sends the one frame its reply calls for, or returns the machine's error unsent. |
| StatsBackends.StatsBackend.SIsMember | backends/stats/metrics.go:437-465 | On every argument list, SISMEMBER takes the live store one step of the sequential machine and sends the one frame its reply calls for, or returns the machine's error unsent. |
| StatsBackends.StatsBackend.SInter | backends/stats/metrics.go:467-496 | On every argument list, SINTER takes the live store one step of the sequential machine and sends the one frame its reply calls for, or returns the machine's error unsent. |
| StatsBackends.StatsBackend.SUnion | backends/stats/metrics.go:498-521 | On every argument list, SUNION takes the live store one step of the sequential machine and sends the one frame its reply calls for, or returns the machine's error unsent. |
| StatsBackends.StatsBackend.DelAll | backends/stats/metrics.go:163-175 | The loop deletes the set of named keys and adds up what each deletion found. |
| StatsBackends.StatsBackend.AddAll | backends/stats/metrics.go:306-314 | The loop leaves old plus arguments in the set and sums to the growth. |
| StatsBackends.StatsBackend.RemoveAll | backends/stats/metrics.go:330-340 | The loop leaves old minus arguments in the set and sums to the shrinkage; a missing key ends it at once. |
| StatsBackends.StatsBackend.Subtract | backends/stats/metrics.go:391-398 | The fold with its early exit yields the first set minus the union of the rest, for any key list. |
| StatsLaws.CreditStep | backends/stats/metrics.go:296-344 | One command changes the size of a set by exactly what its reply tells. |
| StatsLaws.SetConservation | backends/stats/metrics.go:296-374 | Over any run, SCARD(k) is the sum of SADD replies minus the sum of non-negative SREM replies on k. |
| StatsLaws.CounterConservation | backends/stats/memorybackend.go:43-83 | Over any run of commands and flushes, the counter is what was counted minus what flushes took and deletions discarded, modulo int64 wrap-around. |
| StatsLaws.TallyStep | backends/stats/memorybackend.go:43-61 | A command that does not delete a key leaves its rate and history alone; a flush shifts them. |
| StatsLaws.RateWindow | backends/stats/memorybackend.go:43-61 | While a key lives, its rate is the last one computed and its history the newest 100 of all earlier ones, in order. |
| StatsLaws.RateWindowFromBirth | backends/stats/memorybackend.go:43-83 | From the COUNT request that creates a counter on: after n flushes the history is exactly the newest 100 of the initial 0 followed by the first n-1 of the n rates computed. |
| StatsLaws.MovesAddUp | backends/stats/memorybackend.go:89-117 | Any sequence of INCR and DECR on a key leaves the starting value (0 if absent) plus the signed sum, wrapped, also when the first one creates the key. |
| StatsLaws.InterleavingSum | backends/stats/memorybackend.go:89-117 | Every interleaving of the clients' sequences has the clients' total sum and length. |
| StatsLaws.InterleavingsAgree | backends/stats/memorybackend.go:89-117 | Any two interleavings of the same clients leave the same store. |
| StatsLaws.DecrementReply | backends/stats/memorybackend.go:106-117 | If and only if: DECR replies with the value it stores exactly when the key exists, or the amount is 0 or the int64 minimum. |
| StatsLaws.FirstDecrement | backends/stats/memorybackend.go:106-117 | The failing input: the first DECR of a key stores -1 and answers 1. |
| StatsObserved.ReportSpelled | backends/stats/metrics.go:89-103 | What a rejected number is reported as: bad syntax, unless it grows too large before its first bad byte. |
| StatsObserved.TooFewArguments | backends/stats/metrics.go:89-521 | Which commands need a second argument; too few change nothing and earn the usage error. |
| StatsObserved.DefaultAmount | backends/stats/metrics.go:180-256 | INCR, DECR and COUNT without an amount are the same command with amount 1. |
| StatsObserved.ValueQueries | backends/stats/metrics.go:121-154 | GET and EXISTS look at their first key only and change nothing; EXISTS answers 1 exactly when GET finds something. |
| StatsObserved.SetLaw | backends/stats/metrics.go:89-103 | After SET, GET answers the number its text denotes; a text that is no int64 is reported and changes nothing. |
| StatsObserved.SetNxLaw | backends/stats/metrics.go:105-119 | SETNX stores and answers 1 exactly when GET finds nothing; else -1, and nothing changes. |
| StatsObserved.IncrLaw | backends/stats/memorybackend.go:89-103 | INCR replies with what GET then answers: the value before, 0 if none, plus the amount, wrapped. |
| StatsObserved.DecrLaw | backends/stats/memorybackend.go:106-117 | DECR leaves GET the value before minus the amount, wrapped, and replies with it unless the key was missing. |
| StatsObserved.CountLaw | backends/stats/memorybackend.go:64-83 | COUNT adds the amount to the counter, wrapped, and says nothing. |
| StatsObserved.DelLaw | backends/stats/memorybackend.go:119-133 | DEL answers how many of the keys named, each once, GET finds, plus how many have a counter; then none of them has either, and all others, and all sets, are as before. |
| StatsObserved.ReadAfterWrite | backends/stats/metrics.go:89-138 | Over any run: once SET has stored a number, GET answers it through any commands and flushes that neither write nor delete the key. |
| StatsObserved.NilExactly | backends/stats/metrics.go:89-178 | If and only if, over any run from an empty store: GET finds nothing exactly for a key never written or deleted after every write. |
| StatsObserved.MembersLaw | backends/stats/metrics.go:410-465 | SMEMBERS lists exactly the members SISMEMBER reports. |
| StatsObserved.IsMemberLaw | backends/stats/metrics.go:437-465 | SISMEMBER of several members answers each in its place. |
| StatsObserved.CardLaw | backends/stats/metrics.go:346-374 | SCARD answers the size of what SMEMBERS lists, for each key in its place. |
| StatsObserved.DiffLaw | backends/stats/metrics.go:376-408 | SDIFF lists what SISMEMBER finds in the first set and in none of the others; nothing if there is no first set. |
| StatsObserved.InterLaw | backends/stats/metrics.go:467-496 | SINTER lists what SISMEMBER finds in all of them; nothing if one is missing. |
| StatsObserved.UnionLaw | backends/stats/metrics.go:498-521 | SUNION lists what SISMEMBER finds in one of them at least. |
| StatsObserved.AddRemoveReplies | backends/stats/metrics.go:296-344 | SADD answers how many of the members named, each once, SISMEMBER did not find, SREM how many it did, or -1 exactly when SMEMBERS finds no set. |
| StatsObserved.MembersExactly | backends/stats/metrics.go:296-465 | If and only if, over any run from an empty store: SISMEMBER finds a member exactly when a SADD named it and no later SREM did; SMEMBERS lists exactly those, and nothing at all exactly when no SADD named the key. |
| ProtocolServers.ProtocolServer.Call | protocols/redis/redisprotocol.go:87-91 | Running the registered handler is one step of the machine. |
| ProtocolServers.ProtocolServer.HandleData | protocols/redis/redisprotocol.go:77-95 | Dispatch on the upper-cased name: QUIT ends, an unknown name is an error, anything else is the handler's step. |
| ProtocolServers.EndsExactly | protocols/redis/redisprotocol.go:77-86 | If and only if: a request ends the connection exactly when it is empty or QUIT in any case, which redis answers with OK. |
| ProtocolServers.UnknownIsRefused | protocols/redis/redisprotocol.go:87-95 | A command registered under no name equal to it but for case changes nothing and earns the one error text. |
| ProtocolServers.ProtocolServer.ReadData | protocols/line/lineprotocol_client.go:26-35 | The next request in the form of the protocol in use. |
| ProtocolServers.ProtocolServer.RunTurn | protocols/redis/redisprotocol.go:52-74 | One turn of the loop on any stream: the store, the frames and whether the connection goes on are those of one turn of the machine. |
| ProtocolServers.ProtocolServer.RunClient | protocols/redis/redisprotocol.go:38-75 | On every byte stream, the endless loop leaves the store where the sequential machine leaves it and writes, in order, exactly one frame per reply of the machine. |
| Pipeline.RequestsBack | protocols/redis/redisprotocol.go:52-60 | Commands written ahead arrive as the requests they are, and then the stream ends. |
| Pipeline.OneReplyEach | protocols/redis/redisprotocol.go:52-74 | The number of replies is the number of reply-bearing requests, decided by the requests alone. |
| Pipeline.ReplyInPlace | protocols/redis/redisprotocol.go:52-74 | The i-th reply is that of the i-th reply-bearing request, on the store as the earlier requests left it. |
| Pipeline.DeliveredConveys | backends/stats/metrics.go:53-66 | What the frame of a reply means to its reader is that reply; set members in some order, each once. |
| Pipeline.ReadableExactly | server/client.go:349-437 | If and only if: a conveyed reply is in the codec's domain exactly when its texts are short, non-empty lines and its sizes are bounded. |
| Pipeline.FramesReadBack | server/client.go:349-437 | If and only if: reading the frames that deliver some replies yields exactly those replies, to the last byte, exactly when each can be carried. |
| Pipeline.RespondCarriable | protocols/redis/redisprotocol.go:77-95 | If and only if, per request on a sound store: its reply can be carried exactly when there is one and what it asks to be sent fits the wire; an unknown command always can. |
| Pipeline.ServeCarriable | protocols/redis/redisprotocol.go:52-74 | If and only if, for a whole connection on a sound store: all replies can be carried exactly when every request up to its end is speakable; the store stays sound. |
| Pipeline.TidySpeaks | protocols/redis/redisprotocol.go:52-74 | A condition on the commands alone makes every request speakable, whatever happens before it. |
| Pipeline.PipelineEndToEnd | protocols/redis/redisprotocol.go:38-95 | If and only if, on store and commands: a client that writes any list of commands ahead reads back exactly the machine's replies, in order and to the last byte, exactly when every request is speakable. |
| Pipeline.PipelineFromEmpty | protocols/redis/redisprotocol.go:38-95 | From an empty store, for all commands that store only members fitting a line and whose bad numbers are short: every reply is read back. |
| Pipeline.NamedCommandRuns | protocols/redis/redisprotocol.go:77-91 | A name typed in any mixture of cases, upper-cased by the client and again by the server, runs its own command. |
| Pipeline.AnswersFollow | protocols/redis/redisprotocol.go:38-95 | If and only if: reading as many values as are owed gives the machine's replies exactly when every request is speakable. |
| Pipeline.WriteAll | protocols/redis/redisprotocol_client.go:27-37 | Writing commands one after the other produces the concatenation of their encodings, in either protocol. |
| Pipeline.RunAll | protocols/redis/redisprotocol.go:38-75 | A live server run on the commands a client wrote leaves the machine's store and sends frames for exactly its replies. |
| Pipeline.ReadAnswers | server/client.go:349-437 | A client that reads n values gets what the parse of the stream gives. |
| Pipeline.Converse | protocols/redis/redisprotocol.go:38-95 | The whole conversation on live objects: the client gets the machine's replies if and only if every request is speakable, and the store stays sound. |
| Pipeline.FirstConversation | protocols/redis/redisprotocol.go:38-95 | From a fresh server with the stats backend registered: every tidy list of commands is answered in full. |
| Connections.EachStreamInOrder | protocols/redis/redisprotocol.go:38-75 | Whatever the schedule of several connections and flushes, each one's requests are handled in the order of its own stream, none skipped or invented, and it closes only after a request that ends it or after its last one. |
| Connections.EarnedInPlace | protocols/redis/redisprotocol.go:52-74 | Each request of the merged run earns the machine's answer on the store as everything handled before it, of whatever connection, left it. |
| Connections.ShareIsOwed | protocols/redis/redisprotocol.go:52-74 | How many replies a connection gets depends on its own requests alone. |
| Connections.EachConnectionGetsItsOwn | protocols/redis/redisprotocol.go:52-74 | So over every schedule of every set of streams. |
| Connections.TurnIsAdvance | protocols/redis/redisprotocol.go:52-74 | One turn of one request loop is one step of the merged run, and adds to the share of no other connection. |
| Connections.OneTurn | protocols/redis/redisprotocol.go:52-74 | A live turn among several clients: one client's frames grow by its own, all others stay as they are. |
| Connections.FlushTurn | backends/stats/memorybackend.go:43-61 | A live flush between turns: the store is that of the merged run, no client notices. |
| Connections.ShareCarriable | protocols/redis/redisprotocol.go:52-74 | If and only if, per connection of a merged run: its replies can all be carried exactly when each of its requests is speakable on the store where it is handled; the store stays sound. |
| Connections.EachClientReadsItsShare | protocols/redis/redisprotocol.go:52-74 | If and only if: each client reads back exactly its share, to the last byte, exactly when each of its requests is speakable on the store where it is handled. |
| Connections.LogIsRun | backends/stats/memorybackend.go:43-335 | The store of a merged run is that of the run of its commands and flushes. |
| Connections.LiveConservation | backends/stats/memorybackend.go:43-335 | So over every schedule of connections and flushes, set sizes are what the replies say, and counters what was counted minus what was taken. |
| Connections.ServeTogether | protocols/redis/redisprotocol.go:38-75 | Several live clients served in turns in any order, with flushes in between: the store ends as in the merged run, and each client's frames deliver, in order, exactly what its own requests earned. |
| PubSubMachine.DueStep | backends/pubsub/pubsub_backend.go:26-109 | How each event changes an address's claim to a topic. |
| PubSubMachine.ExcessCounts | backends/pubsub/pubsub_backend.go:99-103 | In every reachable state the count of a topic exceeds its subscribers by exactly the number of stragglers dropped so far, so it is never too small. |
| PubSubMachine.SubscribedExactly | backends/pubsub/pubsub_backend.go:26-109 | If and only if: an address is in a topic exactly when it subscribed and nothing since has cost it the subscription. |
| PubSubMachine.Delivery | backends/pubsub/pubsub_backend.go:77-109 | If and only if, over whole runs: a publication reaches an address exactly when it is live, subscribed after its last unsubscription, and was live at every publication on the topic since. |
| PubSubMachine.CountCanExceed | backends/pubsub/pubsub_backend.go:99-103 | Count and subscribers do differ: four events after which a topic counts 1 and holds nobody. |
| PubSubBackends.BroadcastServer.Accept | server/server.go:176-177 | A connection is registered under its address; the registry stays the live set of the trace, and the count stays right exactly when the address was free. |
| PubSubBackends.BroadcastServer.Exit | server/server.go:179-183 | A client that exits is removed; the count stays right exactly when it was still registered. |
| PubSubBackends.BroadcastServer.GetClient | server/server.go:123-126 | The registered client of an address, if any. |
| PubSubBackends.PubSubBackend.Subscribe | backends/pubsub/pubsub_backend.go:26-52 | The loop joins every named topic, creating missing ones; the live channels stay those of the trace. |
| PubSubBackends.PubSubBackend.SubscribeTo | backends/pubsub/pubsub_backend.go:31-48 | One key: joins once, counting only a new subscriber. |
| PubSubBackends.PubSubBackend.Unsubscribe | backends/pubsub/pubsub_backend.go:54-74 | The loop leaves every named topic; the live channels stay those of the trace. |
| PubSubBackends.PubSubBackend.UnsubscribeFrom | backends/pubsub/pubsub_backend.go:59-70 | One key: leaves, counting down only a present subscriber. |
| PubSubBackends.PubSubBackend.Publish | backends/pubsub/pubsub_backend.go:77-109 | On the live objects: exactly the connected clients that subscribed after their last unsubscription and were connected at every publication since are sent the publication, whole and once; nobody else is sent anything. |
| PubSubBackends.PubSubBackend.Spread | backends/pubsub/pubsub_backend.go:82-106 | Who the live channel reaches, and which subscribers are dropped, but not from the count. |
| PubSubBackends.PubSubBackend.SendTo | backends/pubsub/pubsub_backend.go:90-97 | One subscriber: the client registered under that address is sent the frame, no other client anything. |
| PubSubBackends.PubSubBackend.SendAll | backends/pubsub/pubsub_backend.go:88-98 | The loop over the subscribers, in any order, sends to the live ones and lists exactly the others. |
| PoolMachine.StepKeepsAlignment | client/go/broadcast/client.go:46-105 | Every step of any caller, publications included, keeps idle and held connections distinct, idle ones quiet, the idle list within its maximum, and every result one's own, as long as commands given to `Do` are fit. |
| PoolMachine.AlwaysAligned | client/go/broadcast/client.go:46-105 | So over every interleaved run, failures included. |
| PoolMachine.EveryCallGetsItsOwnReply | client/go/broadcast/client.go:46-51 | From an empty pool, over every run whose commands are fit, every finished call failed or has the reply to its own command. |
| PoolMachine.SubscribingReadsAPublication | client/go/broadcast/client.go:46-51 | The failing run of a command that earns no reply but subscribes: its call returns a publication. |
| PoolMachine.SecondCallReadsALeftover | client/go/broadcast/client.go:46-51 | The failing run of a command that earns two replies, or one and a subscription: the next call returns what was left. |
| PoolMachine.SafeExactly | client/go/broadcast/client.go:46-155 | If and only if, over all runs with any failures, interleaving and publications: every call gets its own reply exactly when every command that may be given to `Do` earns at most one reply and leaves no subscription (if the pool keeps no connection: does not subscribe without earning a reply). |
| PoolMachine.GiveBackExactly | client/go/broadcast/client.go:96-105 | If and only if: giving back a connection used in any way keeps the pool aligned exactly when the list is full, or the connection has no unread frame and no subscription and is not idle already. |
| PoolMachine.LastInFirstOut | client/go/broadcast/client.go:78-105 | The connection given back last is taken first, as it was; one too many is closed, and Close closes every idle one. |
| PoolMachine.LostExactly | client/go/broadcast/client.go:46-137 | If and only if, over every run from an empty pool, whatever the commands and failures: a connection is open, not idle and in no call's hands exactly when a `DoAsync` that did not fail has left it behind; a call that failed has closed its connection, and the list stays within its maximum. |
| ConnectionPools.ClientConnection.Connect | client/go/broadcast/client.go:157-173 | Connects once; a failed dial leaves the connection unconnected. |
| ConnectionPools.ClientConnection.Finalize | client/go/broadcast/client.go:186-193 | Leaves the connection unconnected. |
| ConnectionPools.ClientConnection.DoAsync | client/go/broadcast/client.go:118-137 | Connects, writes and flushes; an error on the wire closes; otherwise the server answers and subscribes as the command makes it. |
| ConnectionPools.ClientConnection.Read | client/go/broadcast/client.go:148-155 | Takes the first unread frame, whosever it is; blocks when there is none; fails and closes when the server has closed or the network fails; crashes on a connection never made. |
| ConnectionPools.Client.Get | client/go/broadcast/client.go:78-94 | Takes the front idle connection or makes one: exactly the machine's step. |
| ConnectionPools.Client.Put | client/go/broadcast/client.go:96-105 | Pushes the connection to the front, or closes it when the list is full: exactly the machine's step. |
| ConnectionPools.Client.GetAndSend | client/go/broadcast/client.go:46-57 | The first two steps of a call, in the machine's terms. |
| ConnectionPools.Client.Arrive | client/go/broadcast/client.go:118-155 | Publications reach the connection of a waiting call only while it is subscribed. |
| ConnectionPools.Client.Await | client/go/broadcast/client.go:139-155 | The read of a call: blocks, or ends with the machine's step; its own result if the command is fit. |
| ConnectionPools.Client.GiveBackTo | client/go/broadcast/client.go:46-51 | The last step of a call keeps the pool aligned if its command is fit. |
| ConnectionPools.Client.Do | client/go/broadcast/client.go:46-51 | Takes the machine's steps for any command; with a fit one it keeps the pool aligned and fails, returns its own command's reply, or blocks. |
| ConnectionPools.Client.DoAsync | client/go/broadcast/client.go:53-57 | Takes the machine's steps for any command at all and keeps the pool aligned: the connection used is not given back. |
| ConnectionPools.Client.Close | client/go/broadcast/client.go:59-68 | The loop empties the list and leaves every connection in it unconnected: exactly the machine's step. |
| PoolCommands.EarnsWhatIsOwed | protocols/redis/redisprotocol.go:52-95 | On the stats commands, what a command earns is the number of replies the request loop owes the requests it is read as. |
| PoolCommands.TopicsFollow | backends/pubsub/pubsub_backend.go:26-74 | Joining and leaving, as the pool sees it, are what the pub/sub backend does to the topics of the address. |
| PoolCommands.EffectAppend | protocols/redis/redisprotocol.go:52-74 | The effect of requests one after the other is the effects one after the other, up to the one that ends the connection. |
| PoolCommands.CommandThenRest | protocols/redis/redisprotocol.go:52-60 | What is on the stream after a command is read as it would be alone, unless the command broke the connection. |
| PoolCommands.CommandsFollow | protocols/redis/redisprotocol.go:52-74 | So commands sent one after another on one connection take effect one after another. |
| PoolCommands.RedisFitExactly | protocols/redis/redisprotocol_client.go:27-37 | If and only if: in the redis form every command is one request earning at most one reply, and a pool may carry it exactly when it is not a subscription. |
| PoolCommands.LineIsOneRequest | protocols/line/lineprotocol_client.go:26-50 | If and only if: in the line form a command is exactly one request, after which the connection goes on, exactly when its joined line has no line feed, at least 2 bytes, and fits the buffer. |
| PoolCommands.LineEarnsAtMostOne | protocols/line/lineprotocol_client.go:37-50 | If and only if: whatever is registered, a command earns at most one reply exactly when its first two lines are not both requests that keep the connection open; so all commands without a line feed do. |
| PoolCommands.LineFitExactly | protocols/line/lineprotocol_client.go:37-50 | If and only if: a command without a line feed may be carried by a pool exactly when it does not read as a subscription. |
| PoolCommands.ClientsSafeExactly | client/go/broadcast/client.go:46-155 | If and only if, for client commands in either protocol: every call of every run gets its own reply exactly when every command a client may give to `Do` is fit. |
| PoolCommands.LineFeedEarnsTwo | protocols/line/lineprotocol_client.go:37-50 | The failing input: GET with a line feed and a second GET in its key, in the line form, is two requests, both answered. |
| PoolCommands.SubscriptionIsUnfit | backends/pubsub/pubsub_backend.go:26-52 | The failing input: SUBSCRIBE, in the redis form. |
| PoolCommands.UnfitGoesWrong | client/go/broadcast/client.go:46-51 | For every unfit command of a client, a run on which a call returns another call's reply or a publication. |
| Terminals.CellDivMod | cmd/broadcast-cli/linenoise.c:496-499 | The division and remainder of the row arithmetic name the cell that wrapping byte by byte reaches. |
| Terminals.PrintWrapped | cmd/broadcast-cli/linenoise.c:527-529 | Printing from the top left corner of a blank region with deferred autowrap fills exactly the cells of the wrapped text. |
| Terminals.WrappedRows | cmd/broadcast-cli/linenoise.c:496-496 | The rows a wrapped text occupies. |
| Redraw.TrimWindow | cmd/broadcast-cli/linenoise.c:463-470 | The two trimming loops end with the closed-form window: a slice that holds the cursor and fits the row. |
| Redraw.WindowExactly | cmd/broadcast-cli/linenoise.c:463-470 | The window skips no more than the cursor needs and shows all that fits. |
| Redraw.SingleRefresh | cmd/broadcast-cli/linenoise.c:454-487 | For every text, cursor and width: what the row and the cursor are after a single-line redraw, all other rows untouched. |
| Redraw.SingleRefreshFaithful | cmd/broadcast-cli/linenoise.c:454-487 | If and only if: the window stays fully visible exactly when it does not fill the row, and the cursor is on its column exactly when prompt and position are not both at 0 (or there is one column). |
| Redraw.FastAppend | cmd/broadcast-cli/linenoise.c:587-590 | If and only if, from any cursor column on a row that is shown whole: writing just the new byte leaves the identical screen a full redraw would, exactly when the cursor stood at the end. |
| Redraw.FastAppendAfterRedraw | cmd/broadcast-cli/linenoise.c:587-590 | If and only if: after a full redraw the fast append is right exactly when prompt and text are not both empty. |
| Redraw.EmptyPromptDrifts | cmd/broadcast-cli/linenoise.c:580-604 | The failing input: with an empty prompt, a byte typed, deleted, and another typed in its place shows one column off. |
| Redraw.FullRowLosesItsLastByte | cmd/broadcast-cli/linenoise.c:454-487 | The failing input: a prompt and text that fill the row. |
| Redraw.PrintInRow | cmd/broadcast-cli/linenoise.c:476-478 | Printing over a row replaces exactly its beginning. |
| MultiRedraw.ClearUpErases | cmd/broadcast-cli/linenoise.c:515-520 | The clearing loop erases exactly the rows it walks up over. |
| MultiRedraw.ClearPhase | cmd/broadcast-cli/linenoise.c:506-525 | From any displayed state, the first phase blanks the whole region and stands in its top left corner, nothing above touched. |
| MultiRedraw.CursorFacts | cmd/broadcast-cli/linenoise.c:531-554 | The row numbers the code computes against the cells of the last byte and of the cursor. |
| MultiRedraw.PlacePhase | cmd/broadcast-cli/linenoise.c:531-559 | The last phase moves from after the last byte to the cursor's cell and prints nothing. |
| MultiRedraw.DrawPhase | cmd/broadcast-cli/linenoise.c:527-559 | From any blank region: the text wrapped and the cursor on its cell, nothing above touched. |
| MultiRedraw.MultiRefresh | cmd/broadcast-cli/linenoise.c:493-566 | One redraw, whatever was shown: the region is exactly the new prompt and buffer wrapped, the cursor on its cell, rows above untouched, and the remembered maximum again bounds the rows in use. |
| MultiRedraw.MultiRefreshCleared | cmd/broadcast-cli/linenoise.c:873-876 | The same redraw right after the screen was cleared, whatever rows the editor still has in mind. |
| MultiRedraw.RedrawnShows | cmd/broadcast-cli/linenoise.c:493-566 | One redraw, with or without a clearing of the screen before it. |
| MultiRedraw.RefreshesShow | cmd/broadcast-cli/linenoise.c:493-566 | Any run of redraws and clearings ends showing the last text and cursor and nothing else; what was above stays until a clearing. |
| MultiRedraw.EditingShows | cmd/broadcast-cli/linenoise.c:710-737 | From a freshly written prompt, for every sequence of edited texts and clearings. |
| Histories.HistoryIsLogSuffix | cmd/broadcast-cli/linenoise.c:995-1054 | After any interleaving of additions and changes of the maximum, the history is exactly the newest part of the deduplicated log, within the maximum, and not empty once something was added. |
| Histories.NewestIsTheEnd | cmd/broadcast-cli/linenoise.c:1013-1048 | What is kept of a list cut to its newest n is exactly its end. |
| Histories.History.Add | cmd/broadcast-cli/linenoise.c:995-1022 | The array, shifted down in place when full, holds the contents with the line added, unless it repeats the newest. |
| Histories.History.ShiftDown | cmd/broadcast-cli/linenoise.c:1016-1016 | The memmove moves every entry down by one. |
| Histories.History.SetMaxLen | cmd/broadcast-cli/linenoise.c:1028-1054 | The reallocated array keeps exactly the newest entries; a maximum below 1 changes nothing. |
| Histories.History.Shrunk | cmd/broadcast-cli/linenoise.c:1033-1048 | The copy loop fills a new array with the newest entries, as many as fit. |
| Histories.History.Replace | cmd/broadcast-cli/linenoise.c:646-647 | Overwrites one entry and no other. |
| Histories.History.DropNewest | cmd/broadcast-cli/linenoise.c:757-760 | Forgets the newest entry and keeps the rest. |
| EditorModel.EditsOnText | cmd/broadcast-cli/linenoise.c:580-684 | What insert, delete, backspace and kill-right do, told on the flat text and cursor position: the bytes kept, their order and the new cursor. |
| EditorModel.TransposeOnText | cmd/broadcast-cli/linenoise.c:778-786 | Transposing exchanges exactly the two bytes around the cursor, told on the flat text. |
| EditorModel.MovesOnText | cmd/broadcast-cli/linenoise.c:607-636 | Moves keep the text; left and right undo each other away from the ends. |
| EditorModel.PreviousWordGone | cmd/broadcast-cli/linenoise.c:688-700 | Deleting the previous word removes one run of non-spaces and the run of spaces after it, both as long as possible, and nothing else. |
| EditorModel.NavigateKeepsSheet | cmd/broadcast-cli/linenoise.c:642-662 | If and only if: a step through the history loses no edit, and changes no line exactly when the line it shows fits the buffer. |
| EditorModel.PressIsLocal | cmd/broadcast-cli/linenoise.c:756-880 | One key: an edit changes only the line being edited; navigation changes no line if and only if the line it shows fits the buffer. |
| EditorModel.EveryEntryHoldsItsLatest | cmd/broadcast-cli/linenoise.c:642-662 | If and only if, over every sequence of keys: at every moment each entry holds the text its last edit left, exactly when every line shown by navigation on the way fits the buffer. |
| EditorModel.EditIsPressing | cmd/broadcast-cli/linenoise.c:738-882 | A whole session is the pressing of the keys of its input up to the one that ends it, which then drops the scratch entry. |
| EditorModel.FullLineLosesAByte | cmd/broadcast-cli/linenoise.c:657-658 | The failing input: a line as long as the buffer allows loses its last byte for good by being shown once. |
| EditorModel.WalkIs | cmd/broadcast-cli/linenoise.c:642-662 | k steps within range show exactly the entry k away and change no line. |
| EditorModel.ThereAndBack | cmd/broadcast-cli/linenoise.c:642-662 | k steps back and k steps forward restore the text, cursor at its end, every entry as it was. |
| EditorModel.Navigate | cmd/broadcast-cli/linenoise.c:642-662 | The index stays within the history, whose length does not change. |
| EditorModel.Press | cmd/broadcast-cli/linenoise.c:756-880 | Every key keeps the index within the history. |
| EditorModel.NextKey | cmd/broadcast-cli/linenoise.c:738-853 | A key takes at least one byte and no more than there are; only the byte itself can be inserted. |
| EditorModel.CodesDecode | cmd/broadcast-cli/linenoise.c:756-880 | The table of the byte strings that send each key: each decodes to its key, whatever follows. |
| EditorModel.DecodedIsCode | cmd/broadcast-cli/linenoise.c:756-880 | And nothing else does: what is decoded is the code of a key, or an escape sequence that is the code of none. |
| EditorModel.UndecodedExactly | cmd/broadcast-cli/linenoise.c:738-815 | If and only if: no key is decoded exactly when the input is empty or a cut escape sequence. |
| EditorModel.BytesPress | cmd/broadcast-cli/linenoise.c:738-882 | The bytes of a key that does not end the session press that key, and the session goes on with the rest. |
| EditorModel.BytesEnd | cmd/broadcast-cli/linenoise.c:756-777 | Enter gives the line, Ctrl-C gives up, Ctrl-D on an empty line ends the input; what becomes of the scratch entry. |
| EditorModel.MovingKeys | cmd/broadcast-cli/linenoise.c:792-880 | What Home, End, Left, Right, Ctrl-U, Ctrl-K and Ctrl-L leave of the text and where they leave the cursor; no entry changes. |
| EditorModel.ChangingKeys | cmd/broadcast-cli/linenoise.c:765-791 | The same for the keys that take away, insert or exchange. |
| EditorModel.NavigatingKeys | cmd/broadcast-cli/linenoise.c:642-662 | Up shows the next older line and Down the next newer one, as far as there are any, cut to what the buffer holds, cursor at the end; the line left is stored first. |
| LineEditors.MemMove | cmd/broadcast-cli/linenoise.c:595-595 | Overlapping move within the array: the destination holds the old source, all other cells are unchanged. |
| LineEditors.LineEditor.constructor | cmd/broadcast-cli/linenoise.c:714-736 | An empty buffer of size-1 bytes of text, and the prompt on the terminal. |
| LineEditors.LineEditor.RefreshSingleLine | cmd/broadcast-cli/linenoise.c:454-487 | Emits exactly the specified output for the current line. |
| LineEditors.LineEditor.ComposeRow | cmd/broadcast-cli/linenoise.c:463-484 | The output collected piece by piece is the specified one. |
| LineEditors.LineEditor.RefreshMultiLine | cmd/broadcast-cli/linenoise.c:493-566 | Emits exactly the specified output and updates the old position and the maximum. |
| LineEditors.LineEditor.Compose | cmd/broadcast-cli/linenoise.c:503-559 | The output collected piece by piece is the specified one. |
| LineEditors.LineEditor.ClearRegion | cmd/broadcast-cli/linenoise.c:506-525 | The clearing loop's output. |
| LineEditors.LineEditor.RefreshLine | cmd/broadcast-cli/linenoise.c:570-575 | After an edit, or a clearing of the screen, the terminal shows the current line, whatever it showed before. |
| LineEditors.LineEditor.EditInsert | cmd/broadcast-cli/linenoise.c:580-604 | The buffer becomes the zipper with the byte inserted, unless full, through the fast path or not, and is displayed; the display starts to drift only on an empty line with an empty prompt whose cursor a redraw left one column off, and then the row is really wrong. |
| LineEditors.LineEditor.PutLast | cmd/broadcast-cli/linenoise.c:583-586 | The byte is appended to the text in the buffer. |
| LineEditors.LineEditor.WriteLast | cmd/broadcast-cli/linenoise.c:587-590 | The fast path keeps the display, or starts the drift described with EditInsert. |
| LineEditors.LineEditor.OpenGap | cmd/broadcast-cli/linenoise.c:595-599 | The memmove opens a gap of one byte at the cursor. |
| LineEditors.LineEditor.EditMoveLeft | cmd/broadcast-cli/linenoise.c:607-612 | The zipper one to the left, displayed. |
| LineEditors.LineEditor.EditMoveRight | cmd/broadcast-cli/linenoise.c:615-620 | The zipper one to the right, displayed. |
| LineEditors.LineEditor.EditMoveHome | cmd/broadcast-cli/linenoise.c:623-628 | The zipper at its start, displayed. |
| LineEditors.LineEditor.EditMoveEnd | cmd/broadcast-cli/linenoise.c:631-636 | The zipper at its end, displayed. |
| LineEditors.LineEditor.RemoveAt | cmd/broadcast-cli/linenoise.c:668-670 | The memmove closes over one byte, at any position. |
| LineEditors.LineEditor.EditDelete | cmd/broadcast-cli/linenoise.c:666-673 | The zipper without the byte at the cursor, displayed. |
| LineEditors.LineEditor.EditBackspace | cmd/broadcast-cli/linenoise.c:676-684 | The zipper without the byte before the cursor, displayed. |
| LineEditors.LineEditor.EditDeletePrevWord | cmd/broadcast-cli/linenoise.c:688-700 | The zipper without the previous word, displayed. |
| LineEditors.LineEditor.CloseGap | cmd/broadcast-cli/linenoise.c:697-697 | The memmove closes the gap, terminator included. |
| LineEditors.LineEditor.BeforeWord | cmd/broadcast-cli/linenoise.c:692-695 | The two loops find the start of the previous word. |
| LineEditors.LineEditor.ExchangeBytes | cmd/broadcast-cli/linenoise.c:779-782 | The exchange of the two bytes around the cursor and the step right are the zipper's. |
| LineEditors.LineEditor.EditTranspose | cmd/broadcast-cli/linenoise.c:778-786 | The zipper with the bytes around the cursor exchanged, displayed. |
| LineEditors.LineEditor.EditKillLine | cmd/broadcast-cli/linenoise.c:857-861 | The empty zipper, displayed. |
| LineEditors.LineEditor.EditKillRight | cmd/broadcast-cli/linenoise.c:862-866 | The zipper without what follows the cursor, displayed. |
| LineEditors.LineEditor.EditClearScreen | cmd/broadcast-cli/linenoise.c:873-876 | The line is unchanged and displayed, in both modes. |
| LineEditors.LineEditor.LoadLine | cmd/broadcast-cli/linenoise.c:657-659 | Copy, forced terminator and length leave the line cut to the buffer. |
| LineEditors.LineEditor.StoreLine | cmd/broadcast-cli/linenoise.c:644-647 | The history becomes the sheet of lines with the edited one in its place. |
| LineEditors.LineEditor.EditHistoryNext | cmd/broadcast-cli/linenoise.c:642-662 | The session after one step through the history, displayed. |
| LineEditors.LineEditor.ShowLine | cmd/broadcast-cli/linenoise.c:657-660 | Another line in the buffer, cursor at its end, displayed. |
| LineEditors.LineEditor.EditKey | cmd/broadcast-cli/linenoise.c:756-880 | The dispatch of a key that edits: the zipper operation of that key, displayed. |
| LineEditors.LineEditor.PressKey | cmd/broadcast-cli/linenoise.c:756-880 | The dispatch of a key takes the session where the session model goes, keeps `pos <= len <= buflen`, the terminator and the display. |
| LineEditors.LineEditor.Edit | cmd/broadcast-cli/linenoise.c:738-882 | For every input, the loop ends with the session model's text, history and outcome. |
| LineEditors.Linenoise | cmd/broadcast-cli/linenoise.c:710-883 | A whole call from set-up to return: scratch entry, session and outcome, for every history, prompt narrower than the terminal, and input. |
| LineEditors.FastPath | cmd/broadcast-cli/linenoise.c:587-590 | The fast append leaves what the editor promises to display, from the end of the row, and a wrong row from where a redraw leaves the cursor on an empty one. |

## Left out

- BufferClients.BufferClient.WriteFloat64: takes the digits of the float as given; that they denote the float is the library's.
- BufferClients.BufferClient.WriteCommand: upper-cases ASCII letters only.
- BufferClients.BufferClient.ReadPayload: a positive length too large to allocate, which panics, is read on as any other; only negative lengths crash.
- BufferClients.BufferClient.ReadBulkPayload: the same for a count too large to allocate.
- BufferClients.BufferClient.ReadInterface: the same for both; which texts are floats and JSON documents is a parameter of type `Wire.Lib`.
- RedisClient.WriteCommand: takes the printed texts of the arguments and upper-cases ASCII letters only.
- LineClient.WriteCommand: takes the printed texts of the arguments and upper-cases ASCII letters only.
- Context.BroadcastContext.RegisterCommand: upper-cases ASCII letters only.
- Context.BroadcastContext.Register: upper-cases ASCII letters only.
- Context.BroadcastContext.RegisterHelp: upper-cases ASCII letters only.
- Context.LastRegistrationWins: ignores the case of ASCII letters only.
- StatsCommands.RegisterBackend: registers neither COUNTERS nor KEYS, and leaves descriptions and usage lines empty.
- MemoryBackends.Counter.Roll: rates are exact ratios over an arbitrary positive interval instead of float64 over the wall clock.
- MemoryBackends.MemoryBackend.FlushCounters: the same.
- MemoryBackends.MemoryBackend.SInter: collects the contents of the named sets before scanning where the code collects references to them; nothing writes them in between.
- ProtocolServers.ProtocolServer.HandleData: upper-cases ASCII letters only, and events are not logged.
- PubSubBackends.PubSubBackend.Publish: the frames are written at once where the code hands them to goroutines.
- PubSubBackends.PubSubBackend.Spread: the same.
- PubSubBackends.PubSubBackend.SendAll: the same.
- PubSubBackends.PubSubBackend.SendTo: the same.
- EditorModel.NextKey: an input that ends inside an escape sequence is cut off there, where the code goes on with whatever bytes its local array holds.
- LineEditors.LineEditor.Edit: the same.
- LineEditors.LineEditor.constructor: needs a prompt narrower than the terminal, because otherwise the trimming loops of the code wrap around below zero, and a buffer of more than one byte, because with one the history navigation of the code writes before it.
- LineEditors.Linenoise: the same.
- LineEditors.LineEditor.RefreshLine: a full row is shown without its last byte, as `Redraw.SingleRefreshFaithful` says.
- LineEditors.LineEditor.EditInsert: every byte counts as one printed column, so what is promised of the display holds for printable bytes only; line feed, tab and other control bytes are inserted as text and printed otherwise. Nothing is promised of a single-line display while it drifts, from the moment the contract names to the next redraw.
- Sockets, dialing, flush failures and the internals of the buffered reader and writer: a stream is a byte sequence with a position and a 128-byte line limit.
- Where the reader stands after an error: every caller gives the connection up then, so the contracts leave it open.
- JSON decoding, general value printing and quoting: parameters of type `Wire.Lib`.
- A nil byte slice is the same as an empty one; no caller tells them apart.
- The default protocol with PING and ECHO, INFO, CMDS, COUNTERS, and KEYS, whose wildcard search has no sensible specification in the code.
- Memory: the number of keys, members and words of a connection is bounded by int64 only.
- Goroutines, locks and data races: every turn of a request loop, flush, accept, exit and pool operation is an atomic step.
- Under the line protocol the words of a request are slices of the reader's buffer; handlers copy them before the next read, but a publication sent later from a goroutine may not. The model copies at once.
- Closing the server and its network clients: runs stop before shutdown.
- ConnectionPools.ClientConnection.DoAsync: the server handles a command as soon as it is flushed; a command of the default protocol, neither redis nor line, enters only by what it earns.
- A connection that user code takes from the pool and uses by hand enters only through the exact condition under which giving it back keeps the pool aligned.
- Terminal output is a sequence of terminal operations, not escape bytes; a byte is one column wide, there is always room below, and above until the screen is cleared.
- NUL bytes in the input, write errors and allocation failure in the line editor.
- Completion, raw mode, column probing, history files and the key-code printer of the line editor.
- Configuration, logging, the benchmark, the main programs and the clients in other languages.
