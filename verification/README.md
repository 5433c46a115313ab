# Verified models of a C toolbox

Dafny models of the stateful data structures, protocols and codecs of a C toolbox, with proofs of what they are for.
`dafny verify dfyconfig.toml` checks everything.

| files | what they model |
|---|---|
| `Probing`, `Buckets`, `KHash` | the khash table: triangular probing, tombstones, load bound, in-place kick-out rehash |
| `JsonText`, `JsonLayout`, `JsonPrinter` | what cJSON prints, what that looks like, and the printer over its growing buffer |
| `JsonGrammar`, `JsonParser`, `JsonStrings`, `JsonRoundTrip` | the cJSON grammar on positions, the parser that refines it, and parse-after-print |
| `JsonTokens`, `JsonSpelling` | JSON text as a tree of spellings, written down without the parser, and that the parser accepts exactly it |
| `JsonNumber` | what is printed and read of a number's value |
| `JsonMinify`, `JsonComments` | in-place minifying, and the blanks and comments that it drops |
| `JsonCompare`, `JsonIdentity` | looking up and comparing, on values and on nodes of a memory |
| `Utf8`, `AsciiText` | the strict UTF-8 decoder and the conversion of JSON text to ASCII |
| `ThreadPool`, `Counting`, `ThreadPoolMonitor` | the thread pool as a step system over all interleavings, and the code over the linked list that makes its steps |
| `MessageQueue`, `Channel`, `ChannelMonitor` | the growing ring queue, the channel as a step system, and the code over the ring that makes its steps |
| `LinkedQueue` | the intrusive circular list, on heap nodes |
| `TimerModel`, `Timers`, `TimerPass` | the event loop's timer list, passes over it, the poll timeout |
| `Checksums`, `PngFormat`, `PngRoundTrip`, `PngWriter` | the PNG writer, a decoder, and the round trip |
| `Hessian` | Hessian 2.0 integers and strings |
| `ByteBuffer` | the network buffer and its read-only views |
| `BufferFamily`, `BufferTraces` | all buffers of a program as values: views of views, released in any order, over whole runs |
| `BufferProgram`, `BufferRuns` | the same on heap objects: every call, and every sequence of calls, is such a run |
| `TcpOptions` | the parser of TCP options |
| `Arithmetic`, `Bytes` | shared facts |

How the models are built:

- What the source changes in place (tables, buffers, lists, decoders, writers) is a class or an array with methods;
  each method is tied to a function or a value of the old state, and lemmas are about those functions.
- Threads are step systems: one step is what one thread does while it holds the mutex. A run is any sequence of
  steps, so statements about runs cover every interleaving and spurious wakeups.
- The clock, callbacks, hash functions and the meaning of a number text are parameters and therefore arbitrary.
- C integers are unbounded integers where the source cannot overflow, and are reduced or bounded where it can:
  32-bit rounding in khash, `INT_MAX` in the printer, 32-bit products in the PNG writer, a sum of Hessian integers.

Where the code does not do what its documentation or its purpose says, the exact boundary is a theorem:

- The parser accepts a text exactly if it begins, behind bytes up to the space, with a spelling of a value nested no
  deeper than 1000 (`JsonSpelling.ParseExactly`). Numbers have at most 63 bytes. Beyond JSON that admits any such byte
  as white space, numbers with leading zeros or with digits on one side of the point only, bytes below the space in
  strings, and `\u` without four digits, which counts as the code 0 and may swallow the backslash of the next escape.
- A printed value parses back exactly when its nesting is at most 1000 (`JsonRoundTrip.ParsePrint`).
- Printing into a given buffer succeeds exactly with room for the terminator and, but for a number, one more byte; the
  header asks for five (`JsonPrinter.PrintPreallocated`).
- A finite number is printed as a text that is read back as the same number, in any locale; NaN and infinity are
  printed as `null` (`JsonNumber.ValueRoundTrip`). The text has 15 digits exactly if these suffice
  (`JsonNumber.FifteenDigits`).
- `cJSON_Compare` finds a value equal to a copy of itself exactly when it holds no NaN and its members with one key
  mean the same (`JsonCompare.CompareIsEquivalence`, `JsonCompare.CopyDiffers`). The shortcut for identical items
  changes nothing unless the two trees share a node that is not such a value (`JsonIdentity.CompareNodesMeaning`), and
  then it can only make more of them equal (`JsonIdentity.IdentityOnlyAdds`), as any item to itself
  (`JsonIdentity.CompareIdentical`).
- `threadpool_cancel` returns true for a task that is already running exactly when some other entry is queued
  (`ThreadPool.CancelResult`), and there is a run in which it does (`ThreadPool.CancelOfRunning`).
- A decoder of stored blocks and of exactly the three chunks that the writer puts out gets the image back exactly when
  it has pixels, its scan lines fit a stored block, and the length of the compressed data fits its 32-bit field
  (`PngRoundTrip.PngRoundTrip`). Otherwise it gets nothing; a decoder of other blocks and chunks may make something
  else of such a file. The documented widths below 16383 meet the second condition but not, for enough lines, the
  third.
- The two-byte form of Hessian integers is chosen for 200 values too many (`Hessian.IntRoundTrip`), and Hessian
  strings survive exactly when every byte is at most 0x80 (`Hessian.StringRoundTrip`), because bytes are written as
  the length and characters are read; with the number of characters all well-formed text would survive
  (`Hessian.CharactersRoundTrip`).
- The conversion of text to ASCII fails exactly on malformed UTF-8, and ends the program on the empty string
  (`AsciiText.ConvertAccepts`).
- The network buffer grows exactly when it is not locked by a view and no prepended header is waiting
  (`ByteBuffer.Buffer.Append`). Shrinking keeps the contents exactly when reading stands at the end of the reserved
  room or they are all zeros (`ByteBuffer.Buffer.Shrink`).
- Over every run of calls the reference count of a buffer is the number of views of it that are not released, a buffer
  is locked exactly while it is a view or has one (`BufferTraces.RunSound`), and no byte that a view lies on changes
  unless a header is prepended over it (`BufferTraces.ViewKeepsBytes`). What a program does is such a run, up to the
  call at which the source stops (`BufferRuns.Execute`). Prepending takes no lock: what is read of the parent of a
  view and replaced by a header shows in the view (`BufferProgram.OverwriteView`), which is otherwise spared exactly
  as far as the bytes agree (`BufferProgram.Program.PrependSeenBy`).
- Without a clock that stepped back the poll timeout respects every deadline, negative delays included
  (`TimerModel.NotMisled`); after a step back it can sleep too long (`TimerModel.SteppedBack`), exactly when the timer
  that counts as nearest is not due and another deadline is earlier (`TimerModel.RespectsUnlessMisled`).
- A live timer that is visited fires exactly when its delay has passed since it was armed, except that with a negative
  delay it may wait for the next second; one that was rewound fires at any time after the first second of the epoch
  (`TimerPass.FiresExactly`).
- Timers created in a pass are lost exactly when, of the deleted timers at the head of the list, one that is not the
  last has a finalizer that creates some (`TimerPass.LostExactly`), which can happen (`TimerPass.LosesOne`).
- Puts and deletes with at most m keys at any time never leave the khash table more than four buckets, or four for each
  of the m (`KHash.Churn`).
- `kh_put` fails exactly for a new key in a table of 2^31 live buckets, where it returns the bucket of another key
  (`KHash.Table.Put`); with any hash function a run of puts leads there (`KHash.FillTable`, `KHash.FailingPut`). At
  2^31 buckets with at least half of them live it no longer rehashes, because its request for one more overflows
  (`KHash.Table.MakeRoom`).

## Model

| member | source | states |
|---|---|---|
| Probing.ProbeStep | base/khash.h:238-238 | adding the incremented step counter and masking leads to the next triangular probe |
| Probing.FirstReturn | base/khash.h:236-239 | the probe sequence over 2^k buckets first comes back to its start exactly at step 2n-1 |
| Probing.ProbeInjective | base/khash.h:233-240 | the first n probes are pairwise different |
| Probing.ProbeSurjective | base/khash.h:233-240 | every bucket is visited within the first n probes |
| Probing.DepthUnique | base/khash.h:233-240 | a bucket's step is the only one below n that reaches it |
| Buckets.RoundUp32 | base/khash.h:176-176 | the least power of two not below the argument, and 0 where 32 bits overflow |
| Buckets.Capacity | base/khash.h:249-250 | a resize leads to a power of two between 4 and 2^31, at least the request and less than twice it, and to four for a request of up to four or beyond 2^31 |
| Buckets.CapacityOfCleanup | base/khash.h:311-312 | asking for one bucket less than a table has keeps its capacity |
| Buckets.CapacityOfGrowth | base/khash.h:315-315 | asking for one more doubles it, or makes the first four |
| Buckets.CapacityOverflow | base/khash.h:176-250 | a resize leads to at least the request exactly up to 2^31; beyond, the request overflows and comes to four buckets |
| Buckets.RequestFits | base/khash.h:310-318 | whichever request a put makes at the load bound, the entries fit the new table, except for the request that overflows, which fits nothing |
| Buckets.RequestAtBound | base/khash.h:310-318 | the request at the load bound, with the doubled size in 32 bits, leads to as many buckets when fewer than half are live or there can be no more, else to twice as many or the first four |
| Buckets.SearchBound | base/khash.h:230-243 | with fewer occupied buckets than buckets, every probe path meets an empty bucket within n steps |
| Buckets.SearchResult | base/khash.h:237-241 | where a search stops, the bucket is live exactly when the key is present, and then it is the key's bucket |
| Buckets.StopsEarly | base/khash.h:236-239 | a search that stops does so within n steps, so one of n steps is a full circle |
| Buckets.FullCircle | base/khash.h:239-239 | after a full circle the key is not in the table and no bucket is empty |
| Buckets.SearchCircles | base/khash.h:327-334 | then a deleted bucket was seen exactly when not all buckets are live |
| Buckets.FullTable | base/khash.h:196-196 | there are at most as many entries as buckets, and as many exactly when all are live |
| Buckets.SizeCountsLive | base/khash.h:196-196 | size counts the live buckets, which are among the occupied ones |
| Buckets.Insertion | base/khash.h:336-345 | writing a key at a free bucket of its path keeps the whole invariant and adds one entry to the map |
| Buckets.Deletion | base/khash.h:349-355 | setting the deleted bit keeps the invariant and removes one entry from the map |
| Buckets.RehashStart | base/khash.h:253-267 | the arrays of a valid table with fresh new flags are a rehash in which nothing is placed yet |
| Buckets.TakeOut | base/khash.h:271-276 | taking an old entry into hand keeps the rehash invariant without its key |
| Buckets.PutDown | base/khash.h:278-291 | placing the entry in hand on its new path keeps every other entry where it is found |
| Buckets.KickOut | base/khash.h:283-286 | swapping with an entry in the way conserves the entries: the other one is in hand, never both or neither |
| Buckets.RoomLeft | base/khash.h:281-281 | while an entry is in hand the new table has an empty bucket |
| Buckets.FewerLive | base/khash.h:286-286 | every kick-out leaves fewer old entries |
| Buckets.RehashDone | base/khash.h:295-303 | with no old entry left the new arrays satisfy the whole invariant for the same map |
| Buckets.UpperBound | base/khash.h:303-303 | the load bound is the whole number nearest to 77 hundredths of the buckets, and lies above half of them and below all |
| KHash.Table.constructor | base/khash.h:212-214 | a new table is the empty map without buckets |
| KHash.Table.Get | base/khash.h:230-243 | returns a bucket exactly for the keys of the map, with the key and its value in it, in tables without an empty bucket too |
| KHash.Table.Put | base/khash.h:307-348 | in every table returns a live bucket, which holds the key unless it is new and 2^31 buckets are live; the code is 0 exactly for a key that was present or in that failure, and never 2 after a rehash that doubles; the map gains at most that key; the number of buckets is kept below the load bound, if it is more than twice the number of entries, and at 2^31, and otherwise doubles or becomes 4 |
| KHash.Table.FindSite | base/khash.h:319-335 | the search of put ends at the key, at the last deleted bucket on its path, or without any at the empty one; it goes full circle, and falls back to where it began, only when every bucket is live |
| KHash.Table.Claim | base/khash.h:336-347 | the code tells which of the three it was; for a new key no bucket is claimed exactly when all are live |
| KHash.Table.SetValue | base/khash.h:521-521 | storing a value at a live bucket changes the map at its key only |
| KHash.Table.MakeRoom | base/khash.h:310-318 | the map is the same, and there is a bucket below the load bound exactly if there was one or the table has fewer than 2^31 buckets or more than twice as many as entries; otherwise nothing changes; how many buckets there are then |
| KHash.Table.RehashFull | base/khash.h:310-318 | at the load bound the entries are rehashed to below it, at the same number of buckets if more than twice the entries and else at twice as many or the first four; at the largest capacity with half of them live nothing happens |
| KHash.Table.Fill | base/khash.h:336-345 | claims a free bucket for a key that was absent |
| KHash.Table.Del | base/khash.h:349-355 | removes exactly the key of a live bucket and nothing otherwise |
| KHash.Table.Clear | base/khash.h:223-229 | empties the map |
| KHash.Table.Resize | base/khash.h:244-306 | keeps the map for growth, cleanup and shrinking, and does nothing when the entries would not fit |
| KHash.Table.MoveEntry | base/khash.h:270-293 | the kick-out loop ends and keeps every entry of the map in exactly one place |
| KHash.Table.Exchange | base/khash.h:283-286 | one kick-out: the entry in hand is placed and the one in the way is in hand, with fewer old entries |
| KHash.Table.FindEmpty | base/khash.h:278-281 | the first empty bucket of the new path, found without a bound check |
| KHash.Table.MoveAll | base/khash.h:269-294 | the rehash loop turns the old table into one that satisfies the invariant for the same map |
| KHash.FillTable | base/khash.h:307-348 | with any hash function, 2^31 puts of different keys into a new table find their places |
| KHash.Churn | base/khash.h:307-355 | with any hash function, any sequence of puts and deletes on a new table leaves exactly the keys that it should, and with at most m of them at any time never more than the larger of 4 and 4 m buckets |
| KHash.FailingPut | base/khash.h:307-348 | with any hash function, in a table filled with the numbers below 2^31 the put of the next one returns the bucket of another key, with the code of a key that was there |
| JsonPrinter.PrintBuffer.Ensure | base/cJSON.c:326-411 | succeeds exactly when the bytes and a terminator fit the most the buffer can become, and keeps what was printed |
| JsonPrinter.PrintBuffer.UpdateOffset | base/cJSON.c:414-424 | moves the offset behind pending text that holds no terminator |
| JsonPrinter.PrintBuffer.CountEscapes | base/cJSON.c:807-831 | the first pass counts exactly what escaping will add |
| JsonPrinter.PrintBuffer.WriteEscaped | base/cJSON.c:852-894 | the second pass writes the escaped string within that count |
| JsonPrinter.PrintBuffer.PrintString | base/cJSON.c:780-899 | leaves the literal and a terminator at the offset, within what was granted |
| JsonPrinter.PrintBuffer.PrintNumber | base/cJSON.c:463-489 | leaves the text of the number, a terminator, and the offset behind it |
| JsonPrinter.PrintBuffer.PrintValue | base/cJSON.c:1205-1280 | prints the rendered value behind what was there; it succeeds exactly when the room suffices |
| JsonPrinter.PrintBuffer.PrintArray | base/cJSON.c:1377-1436 | the same for arrays, items and separators |
| JsonPrinter.PrintBuffer.PrintObject | base/cJSON.c:1548-1659 | the same for objects, with indentation when formatted |
| JsonPrinter.Print | base/cJSON.c:1026-1087 | returns the rendered value exactly when it fits INT_MAX bytes |
| JsonPrinter.PrintPreallocated | base/cJSON.c:1129-1147 | succeeds exactly when the text, its terminator and one spare byte (none for a number) fit the caller's buffer, and then fills it |
| JsonPrinter.NothingEscaped | base/cJSON.c:839-848 | a string for which escaping adds nothing is printed as it is |
| JsonLayout.EscapeOf | base/cJSON.c:852-894 | the text of each byte: two characters for the quote, the backslash and the control characters with a letter, six with a lower-case digit for the others below the space, itself for the rest |
| JsonLayout.StringLayout | base/cJSON.c:780-899 | a string is the texts of its bytes between quotes |
| JsonLayout.FormattedPrint | base/cJSON.c:1377-1659 | a formatted array stands in one line with a comma and a blank between items; a formatted object has a line for each member, a tab for each level and behind the colon, a comma at each line end but the last, and the brace on its own line |
| JsonLayout.UnformattedPrint | base/cJSON.c:1377-1659 | an unformatted print has commas and colons between the parts and nothing else |
| JsonParser.ParseBuffer.Utf16Literal | base/cJSON.c:530-648 | decodes one escape or a surrogate pair to UTF-8, as the grammar says |
| JsonParser.ParseBuffer.ParseString | base/cJSON.c:651-777 | finds the closing quote, decodes the bytes between, and moves behind it, as the grammar says |
| JsonParser.ParseBuffer.ParseNumber | base/cJSON.c:219-293 | reads the number text that strtod accepts and moves behind it |
| JsonNumber.FormatNumber | base/cJSON.c:427-486 | tries 15 digits, then 17, or null, and puts a point for the locale's decimal point, within 25 bytes |
| JsonNumber.ValueRoundTrip | base/cJSON.c:427-490 | a finite double has a text, and it is read back as that double in any locale; any other is printed as null, which is no number |
| JsonNumber.FifteenDigits | base/cJSON.c:442-459 | the text of 15 digits is printed whenever it is read back as the number, and otherwise the one of 17 |
| JsonNumber.TextLength | base/cJSON.c:442-465 | only texts of more than 25 bytes are refused, and what is not finite is null |
| JsonNumber.PrintedNumber | base/cJSON.c:219-293 | wherever that text stands in front of something else the parser reads the same double and stops behind it |
| JsonNumber.ValueIntExactly | base/cJSON.c:273-287 | the integer is the nearest one toward zero within 32 bits, and the value itself exactly when that is such an integer; infinity gives the largest and the smallest |
| JsonNumber.ValueIntMonotone | base/cJSON.c:273-287 | saturation keeps the order of values |
| JsonNumber.IntegerRoundTrip | base/cJSON.c:219-490 | a 32-bit integer survives printing and parsing as the integer of the number |
| JsonParser.ParseBuffer.ParseValue | base/cJSON.c:1149-1202 | agrees with the grammar from every position and depth |
| JsonParser.ParseBuffer.ParseArray | base/cJSON.c:1283-1374 | the loop builds the items the grammar reads, within the nesting limit |
| JsonParser.ParseBuffer.ParseObject | base/cJSON.c:1439-1545 | the loop builds the members the grammar reads, within the nesting limit |
| JsonParser.ItemsStep | base/cJSON.c:1318-1355 | one turn of the array loop is one step of the grammar, success and failure |
| JsonParser.MembersStep | base/cJSON.c:1472-1527 | one turn of the object loop is one step of the grammar |
| JsonParser.Parse | base/cJSON.c:937-1023 | the whole parser is the grammar, with or without the demand that nothing follows |
| JsonTokens.StringParses | base/cJSON.c:530-777 | a literal spelled with any escapes, the slash and digits of both cases included, is parsed to the bytes that they stand for |
| JsonTokens.StringOf | base/cJSON.c:530-777 | whatever literal the parser accepts is spelled so |
| JsonTokens.RegularOpen | base/cJSON.c:666-688 | escapes as section 7 of RFC 8259 has them never close a literal early |
| JsonTokens.NumberParses | base/cJSON.c:219-293 | the longest decimal of at most 63 bytes is what is read |
| JsonTokens.NumberOf | base/cJSON.c:219-293 | whatever number the parser accepts is such a decimal |
| JsonSpelling.ValueParses | base/cJSON.c:1149-1202 | every spelling of a value is parsed to it at every position, from every depth that leaves room for its nesting |
| JsonSpelling.ValueOf | base/cJSON.c:1149-1202 | whatever the parser accepts is a spelling of what it returns, and ends where it stops |
| JsonSpelling.ParseExactly | base/cJSON.c:937-1023 | a text is accepted with a value exactly when it begins, behind white space, with a spelling of it that is nested no deeper than 1000, followed by white space only if that is demanded |
| JsonStrings.DecodeByte | base/cJSON.c:699-752 | the parser reads an escaped byte back as that byte |
| JsonStrings.StringRoundTrip | base/cJSON.c:651-899 | a printed string parses back wherever it stands, and the parser stops right after it |
| JsonStrings.RenderedNulFree | base/cJSON.c:1205-1280 | printed text holds no terminator, which is what moving the offset later relies on |
| JsonRoundTrip.NumberRoundTrip | base/cJSON.c:219-293 | a number text followed by something else is read back as that text |
| JsonRoundTrip.ValueRoundTrip | base/cJSON.c:1149-1202 | a printed value parses back at every position and depth exactly when the nesting limit allows |
| JsonRoundTrip.ItemsRoundTrip | base/cJSON.c:1283-1436 | so do the items of an array |
| JsonRoundTrip.MembersRoundTrip | base/cJSON.c:1439-1659 | so do the members of an object |
| JsonRoundTrip.ParsePrint | base/cJSON.c:1019-1097 | parsing a print, formatted or not, returns the value exactly when its nesting is at most 1000 |
| JsonMinify.Minify | base/cJSON.c:2398-2466 | the in-place loop leaves the minified text and its terminator |
| JsonMinify.KeepsString | base/cJSON.c:2443-2456 | string literals are copied as they are, escapes included |
| JsonMinify.KeepsValue | base/cJSON.c:2398-2466 | a printed value inside a text is minified to its unformatted print |
| JsonMinify.MinifyPrint | base/cJSON.c:2398-2466 | minifying any print equals the unformatted print byte for byte |
| JsonComments.MinifyPieces | base/cJSON.c:2398-2466 | of a text of literals, other bytes, slashes that begin no comment, blanks, line comments and block comments exactly the blanks and comments are dropped |
| JsonComments.MinifyLastLine | base/cJSON.c:2426-2433 | a line comment may end with the text |
| JsonComments.PrintMade | base/cJSON.c:1205-1280 | an unformatted print is made of such literals and bytes |
| JsonComments.MinifyCommented | base/cJSON.c:2398-2466 | a print with blanks and comments anywhere between its pieces minifies to the unformatted print |
| JsonCompare.FindFirst | base/cJSON.c:1714-1740 | a lookup finds the first member whose key is the name byte for byte or, if case does not matter, as long and at each place the same byte or the same letter of A to Z and a to z; it fails only when there is none |
| JsonCompare.FoldExactly | base/cJSON.c:74-95 | keys have the same fold exactly if they are the same in that sense |
| JsonCompare.SameIgnoringCase | base/cJSON.c:74-95 | the comparing loop tells exactly whether two C strings are the same but for case |
| JsonCompare.GetObjectItem | base/cJSON.c:1714-1740 | the loop stops at the first such member, in either mode, or behind the last |
| JsonCompare.FindDenotes | base/cJSON.c:1714-1740 | looking a key up in the list and in the map it means agree |
| JsonCompare.CompareMeaning | base/cJSON.c:2568-2691 | two values without common nodes compare equal exactly when both are coherent and mean the same up to member order |
| JsonCompare.CompareExactly | base/cJSON.c:2568-2691 | without maps: two values compare equal exactly when both are coherent and they are alike, with the same numbers and texts, items in order, and for each member one of the other with the same key in the sense of the lookup and a value that is alike |
| JsonCompare.CoherentExactly | base/cJSON.c:2650-2686 | an object is coherent exactly when its values are and members with the same key are alike |
| JsonCompare.CompareIsEquivalence | base/cJSON.c:2598-2691 | comparing the contents of different nodes is symmetric and transitive; a value equals a copy of itself exactly when it is coherent |
| JsonCompare.CopyDiffers | base/cJSON.c:2650-2686 | an object with one key twice and different values is not equal to a copy of itself |
| JsonIdentity.CompareIdentical | base/cJSON.c:2592-2596 | an item is equal to itself, whatever it holds |
| JsonIdentity.CompareNodesMeaning | base/cJSON.c:2568-2691 | when all nodes that the trees share are coherent, comparing nodes with the shortcut for identical ones is comparing what they hold |
| JsonIdentity.CoherentSettled | base/cJSON.c:2568-2691 | so it is for a coherent value against anything in one memory |
| JsonIdentity.IdentityOnlyAdds | base/cJSON.c:2592-2596 | whatever nodes the trees share, values that compare equal by contents do so with the shortcut |
| Utf8.DecodeAccepts | base/utf8_decode.c:125-184 | the decoder accepts exactly the well-formed characters of RFC 3629 and moves by their length |
| Utf8.DecodeInverts | base/utf8_decode.c:125-184 | an accepted character determines its bytes |
| AsciiText.Decoder.Next | base/utf8_decode.c:125-184 | one call decodes at the index, moves it, and records where the character began |
| AsciiText.ConvertAccepts | dubbo_client/dubbo_hessian.c:16-30 | the conversion fails exactly on malformed UTF-8 and ends the program exactly on the empty string |
| AsciiText.Utf82Ascii | dubbo_client/dubbo_hessian.c:16-66 | the loop computes the conversion, and the empty string ends the program |
| AsciiText.AsciiWritten | dubbo_client/dubbo_hessian.c:28-58 | the converted text is the bytes below 0x80 as they are and one escape, or a pair for a character of four bytes, in lower case for each other character |
| AsciiText.HexEscapeInverts | dubbo_client/dubbo_hessian.c:44-56 | the hexadecimal digits of an escape are read back as its code unit |
| AsciiText.Surrogates | dubbo_client/dubbo_hessian.c:37-49 | a pair of surrogates carries its code point |
| AsciiText.AsciiRoundTrip | dubbo_client/dubbo_hessian.c:16-66 | a printed valid UTF-8 string, converted to pure ASCII, parses back to the same string |
| ThreadPool.StepInv | base/threadpool.c:137-189 | every step of every thread keeps the invariant of threads, wakeups, order, draining and history |
| ThreadPool.RunInv | base/threadpool.c:137-264 | it holds after every run |
| ThreadPool.NoLostWakeup | base/threadpool.c:146-189 | while the queue is not empty some worker that is not gone can go on without a signal |
| ThreadPool.StartedInOrder | base/threadpool.c:156-166 | tasks start in the order of submission, each at most once, without the cancelled ones |
| ThreadPool.DrainedBeforeExit | base/threadpool.c:156-172 | once a worker is gone all tasks submitted before the release have started; once all are gone each uncancelled one has finished |
| ThreadPool.RemainingDecreases | base/threadpool.c:146-178 | after the release every worker step, spurious wakeups included, leaves less to do |
| ThreadPool.ReleaseEnds | base/threadpool.c:223-243 | after the release the workers make at most as many steps as there was work |
| ThreadPool.ReleaseNotStuck | base/threadpool.c:157-161 | until all workers are gone one of them can step without a signal: the exit message reaches every worker |
| ThreadPool.CancelExactly | base/threadpool.c:251-264 | a cancel that returns true prevents the task exactly when it was still queued; otherwise the task is running and nothing changes |
| ThreadPool.CancelResult | base/threadpool.c:251-264 | a cancel returns true for a queued task, false for a finished one, and for a running one true exactly when some other entry is queued |
| ThreadPool.CancelOfRunning | base/threadpool.c:251-264 | there is a run in which a cancel returns true for a running task |
| ThreadPoolMonitor.Monitor.Submitting | base/threadpool.c:180-189 | what threadpool_submit does with the linked list while it holds the mutex is a step of the pool |
| ThreadPoolMonitor.Monitor.Releasing | base/threadpool.c:223-232 | so is the posting of the exit message |
| ThreadPoolMonitor.Monitor.Locking | base/threadpool.c:146-169 | so is what a worker does from the top of its loop or back from a wait: it waits, takes the first task off the list, or leaves the exit message there |
| ThreadPoolMonitor.Monitor.Cancelling | base/threadpool.c:251-264 | so is a cancel, which removes a queued node, or one linked to itself, which changes nothing |
| MessageQueue.Queue.constructor | base/mq.c:51-66 | a new queue is empty |
| MessageQueue.Queue.Count | base/mq.c:77-93 | counts the messages around the end of the ring |
| MessageQueue.Queue.Expand | base/mq.c:31-49 | unrolls a full ring into one of twice the size |
| MessageQueue.Queue.Push | base/mq.c:95-114 | appends to the contents; the ring doubles exactly when its last slot is filled |
| MessageQueue.Queue.Pop | base/mq.c:116-136 | takes the oldest message, or nothing from an empty queue |
| Channel.StepInv | base/chan.c:42-73 | every step keeps order, capacity and wakeups |
| Channel.RunInv | base/chan.c:42-73 | so does every run |
| Channel.RunRefinesFifo | base/chan.c:42-73 | what was received is a prefix of what was sent; a channel with a capacity never holds more and its ring never grows |
| Channel.NoLostWakeup | base/chan.c:45-70 | with nobody on the way, waiting receivers mean an empty channel and waiting senders a full one |
| ChannelMonitor.Monitor.Sending | base/chan.c:45-56 | what ch_send does with the ring queue while it holds the mutex is a step of the channel |
| ChannelMonitor.Monitor.Receiving | base/chan.c:61-70 | so is what ch_recv does |
| LinkedQueue.Link.constructor | base/queue.h:45-50 | a node linked to itself is an empty list |
| LinkedQueue.Empty | base/queue.h:39-40 | tells whether the head is alone |
| LinkedQueue.InsertHead | base/queue.h:84-91 | the node becomes the first, in both directions |
| LinkedQueue.InsertTail | base/queue.h:93-100 | the node becomes the last, in both directions |
| LinkedQueue.Remove | base/queue.h:102-107 | takes the node out, in both directions; a node alone stays as it is |
| LinkedQueue.Add | base/queue.h:52-59 | moves everything behind one head to the end of the other, the empty list included |
| LinkedQueue.Split | base/queue.h:61-70 | cuts a list before a node and puts another head before the rest |
| LinkedQueue.Move | base/queue.h:72-82 | moves everything to another head |
| LinkedQueue.Foreach | base/queue.h:36-37 | visits every node behind the head once and in order |
| LinkedQueue.OneList | base/queue.h:36-37 | the links leave no choice: one head has one list |
| TimerModel.AddMilliseconds | 3rd/ae/ae.c:186-198 | the deadline lies exactly the delay after the reading, in C's truncating arithmetic |
| Timers.EventLoop.CreateTimeEvent | 3rd/ae/ae.c:200-217 | a new timer is put in front with the next id, armed at the clock's reading with the delay |
| Timers.EventLoop.DeleteTimeEvent | 3rd/ae/ae.c:219-230 | marks the timer with the id and nothing else, and succeeds exactly when there is one |
| Timers.EventLoop.RunActions | 3rd/ae/ae.c:297-319 | what a callback or a finalizer makes of the list, the ids and the clock readings, action by action: created timers in front with the next ids, armed at the next readings, and deleted ones marked |
| TimerModel.RanBehind | 3rd/ae/ae.c:297-319 | whatever a callback does, of the entries that were there it only marks some as deleted |
| Timers.EventLoop.Unlink | 3rd/ae/ae.c:291-295 | unlinks one node through the previous one, or through the head, and then all that is in front of it goes as well |
| Timers.EventLoop.Fire | 3rd/ae/ae.c:315-326 | calls the callback and re-arms the timer from the reading that follows those of the callback, or marks it as deleted |
| Timers.EventLoop.StepBack | 3rd/ae/ae.c:273-279 | a clock that ran backwards sets all deadlines to the epoch |
| Timers.EventLoop.VisitOne | 3rd/ae/ae.c:285-329 | one turn of the loop extends the log of the pass by one visit, explained by what the node held at the very reading that the turn took; the check on new ids is never true |
| Timers.EventLoop.ProcessTimeEvents | 3rd/ae/ae.c:259-331 | a pass visits each node that was there once, with the readings of the clock that it takes in order; it leaves exactly the entries that the log says, the created timers in front of the survivors, loses some exactly when the list before it says so, and every time in the list is the one its last arming gave |
| TimerModel.ReachedIsOld | 3rd/ae/ae.c:303-311 | every visited node has an id from before the pass |
| Timers.EventLoop.SearchNearestTimer | 3rd/ae/ae.c:243-256 | finds a timer with the least deadline, or none in an empty list |
| Timers.EventLoop.PollTimeout | 3rd/ae/ae.c:358-396 | blocks only without timers to wait for; the sleep ends with some deadline, and is too long for another exactly when the poll is misled, which it is not while no timer was armed after the present time |
| TimerModel.RespectsUnlessMisled | 3rd/ae/ae.c:243-396 | the sleep for the timer found as nearest respects every deadline exactly unless that timer is not due and another deadline is earlier |
| TimerModel.NotMisled | 3rd/ae/ae.c:186-279 | that is so for no list of timers armed no later than now, or with times in normal form, or rewound, whatever the delays |
| TimerModel.SteppedBack | 3rd/ae/ae.c:249-252 | after a step back of the clock two timers and a poll make it so: the sleep is 799 milliseconds with a deadline in 300 |
| TimerPass.EveryVisit | 3rd/ae/ae.c:285-329 | a node is removed exactly when it was deleted before its visit, and otherwise fires exactly when it is due at the reading of its visit, the next after those of the visits before |
| TimerPass.FiresExactly | 3rd/ae/ae.c:312-314 | a visited timer that is live fires exactly when the milliseconds from the reading of its arming to that of its visit are at least its delay; with a negative delay that takes away more milliseconds than the reading had, when the second is reached; when rewound, at any reading after the first second of the epoch |
| TimerPass.FiresOnce | 3rd/ae/ae.c:303-328 | no timer fires twice in a pass, and none that was created in it |
| TimerPass.DeletedDoesNotFire | 3rd/ae/ae.c:289-301 | a timer that an earlier callback of the pass deleted does not fire |
| TimerPass.FinalState | 3rd/ae/ae.c:312-328 | in the end a surviving node is deleted exactly when a callback deleted it or its own wanted no more, and re-armed exactly when it fired |
| TimerPass.FinalNode | 3rd/ae/ae.c:290-328 | the survivors keep their order |
| TimerPass.NeverEarly | 3rd/ae/ae.c:312-314 | over any run of creations, deletions and passes no timer fires, at a reading taken within the pass, before the delay of its last arming is over, unless the clock was seen to run backwards since |
| TimerPass.PassDetermined | 3rd/ae/ae.c:281-331 | what the list holds before a pass, the clock and the callbacks leave no choice in what the pass does |
| TimerPass.LostExactly | 3rd/ae/ae.c:285-301 | what the entries and finalizers say before a pass decides whether it loses created timers: it does exactly when the first entries up to some are deleted, by finalizers in front of them at the latest, and a finalizer before the last of them creates some |
| TimerPass.LosesOne | 3rd/ae/ae.c:290-301 | a pass over two deleted timers loses the one that the first finalizer creates |
| TimerPass.NoneLost | 3rd/ae/ae.c:290-301 | so none are when finalizers create none |
| Checksums.NibbleTable | base/svpng.h:80-85 | a lookup for four bits is four bits of the CRC division |
| Checksums.TableByte | base/svpng.h:85-85 | two lookups are the CRC of section 3.4 of RFC 2083 for one byte |
| Checksums.CrcAppend | base/svpng.h:85-86 | the CRC runs on over concatenations |
| Checksums.AdlerStep | base/svpng.h:89-89 | reducing at every byte gives the sums of section 8.2 of RFC 1950 |
| PngWriter.Writer.PutC | base/svpng.h:85-85 | puts a byte out and updates the CRC |
| PngWriter.WrappedSizes | base/svpng.h:82-98 | pitch, bytes a line and length field as 32-bit arithmetic gives them are the sizes modulo 2^32 |
| PngWriter.Writer.PutLines | base/svpng.h:100-106 | each scan line becomes one stored block, the last one final, under both checksums |
| PngWriter.Svpng | base/svpng.h:79-110 | for all 32-bit sizes, products that wrap included, the writer puts out exactly the specified file |
| PngRoundTrip.ChunkRoundTrip | base/svpng.h:90-91 | a chunk is read back with its length, type and the complemented CRC as a number (section 3.4 of RFC 2083) |
| PngRoundTrip.EndOfFile | base/svpng.h:91-109 | every file ends with the twelve bytes of an empty IEND chunk, its CRC AE 42 60 82 included |
| PngRoundTrip.LinesInflate | base/svpng.h:100-106 | the stored blocks (section 3.2.4 of RFC 1951) inflate to the filtered rows |
| PngRoundTrip.ZippedLength | base/svpng.h:98-98 | the number of bytes put out is the one the IDAT length field holds modulo 2^32 |
| PngRoundTrip.TooWide | base/svpng.h:102-102 | with a pitch above 65535 the stored blocks do not inflate to the image |
| PngRoundTrip.WrappedLength | base/svpng.h:98-98 | with a length that wrapped the three chunks are not where a decoder of just these looks for them |
| PngRoundTrip.WrappedLines | base/svpng.h:82-105 | with a pitch that wrapped it does not decode either |
| PngRoundTrip.PngRoundTrip | base/svpng.h:79-110 | for all 32-bit sizes a decoder of stored blocks and the three chunks, with the signature, types, color types and checksums of the standards, gets the image exactly when it has pixels, a pitch of at most 65535 and a length of compressed data below 2^32, and nothing otherwise |
| Hessian.IntRoundTrip | dubbo_client/dubbo_hessian.c:136-189 | an int32 survives exactly outside -2248..-2049, where it is read as 47, whatever follows it; the sum in the test, where it overflows, does not matter |
| Hessian.IntLayout | dubbo_client/dubbo_hessian.c:136-189 | which numbers have one byte, two, three or five, and that their bytes are the number to the base 256 above the mark of the form |
| Hessian.Rejoin4 | dubbo_client/dubbo_hessian.c:155-183 | the four bytes are the two's complement of the number |
| Hessian.ExtentOfString | dubbo_client/dubbo_hessian.c:84-121 | walking over as many characters as the string has bytes ends with it exactly when all bytes are at most 0x80 |
| Hessian.StringRoundTrip | dubbo_client/dubbo_hessian.c:193-351 | a string of at most 0x8000 bytes survives in all three length forms exactly when all bytes are at most 0x80 |
| Hessian.WidthIsLeadingOnes | dubbo_client/dubbo_hessian.c:84-121 | a byte above 0x80 starts a character of two to four bytes exactly if it begins with as many one bits, and otherwise none |
| Hessian.CharactersRoundTrip | dubbo_client/dubbo_hessian.c:84-121 | well-formed text sent with its number of characters would be read back as it is |
| Hessian.Utf8Copy | dubbo_client/dubbo_hessian.c:84-121 | copies exactly the bytes of the characters, or nothing |
| Hessian.WriteString | dubbo_client/dubbo_hessian.c:320-351 | writes the header for the length and the bytes |
| ByteBuffer.Buffer.constructor | base/buffer.c:32-56 | an empty buffer with room in front, without views and without a released one kept |
| ByteBuffer.Buffer.WriteLocked | base/buffer.c:595-603 | a buffer is locked exactly while it is a view or has one |
| ByteBuffer.Buffer.MakeSpace | base/buffer.c:219-236 | compacts or grows and keeps the contents, exactly unless a prepended header is unread; then an assertion fails or the copy would not fit |
| ByteBuffer.Buffer.EnsureWritable | base/buffer.c:238-246 | makes room and keeps the contents, exactly unless it is locked or has to make room while a prepended header is unread; where it reads and how much memory it takes afterwards |
| ByteBuffer.Buffer.Append | base/buffer.c:248-254 | appends to the contents under the same condition, with the read index and the size that the next append depends on, and leaves a locked buffer as it is |
| ByteBuffer.Buffer.Prepend | base/buffer.c:256-261 | puts data in front exactly when the room in front suffices, over the bytes that were there and no others |
| ByteBuffer.Buffer.Retrieve | base/buffer.c:161-178 | drops what was read and moves behind it, or gives the reserved room back at the end |
| ByteBuffer.Buffer.Shrink | base/buffer.c:207-267 | refused exactly when locked; otherwise the indices stay valid exactly up to the new end, and the contents are kept exactly when reading stands at the reserved room or they are zeros |
| ByteBuffer.ShiftedWindow | base/buffer.c:263-267 | bytes moved between zeros look the same from another place exactly when they are zeros themselves, in both directions |
| ByteBuffer.Buffer.ReadonlyView | base/buffer.c:605-639 | a view lies in the buffer's memory where its unread bytes are and has the first of them as contents; the buffer counts it, and a struct kept from a released view is used up |
| ByteBuffer.Buffer.Release | base/buffer.c:58-88 | refused exactly while there are views; releasing a view takes it from its parent, of which only the count, the views and the kept struct change |
| BufferFamily.CountsViews | base/buffer.c:595-603 | in a sound family the reference count is the number of outstanding views and decides the lock |
| BufferFamily.Alone | base/buffer.c:207-236 | the memory of an unlocked buffer is seen by no other buffer |
| BufferFamily.LentSound | base/buffer.c:605-639 | lending a view, of a view too, keeps a family sound |
| BufferFamily.ReleasedSound | base/buffer.c:58-88 | so does releasing what has no views |
| BufferFamily.MovedSound | base/buffer.c:207-236 | so does moving the memory of an unlocked buffer |
| BufferProgram.Program.Counts | base/buffer.c:595-603 | the same of the live buffers of a program, whatever calls it made |
| BufferProgram.Program.PrependSeenBy | base/buffer.c:256-261 | what another buffer sees of the memory is kept exactly where the header has the same bytes |
| BufferProgram.OverwriteView | base/buffer.c:256-261 | a header in the place of what was read of the parent shows in an outstanding view, which changes exactly when the header is something else |
| BufferRuns.Step | base/buffer.c:32-267 | a call succeeds exactly when it is allowed, and does to the handles, the fields of all buffers and all of their memory exactly what is said of worlds |
| BufferRuns.Execute | base/buffer.c:32-267 | every sequence of calls is a run of worlds, up to the first call that is not allowed, at which the source stops |
| BufferTraces.NextSound | base/buffer.c:32-267 | every allowed call keeps a family sound |
| BufferTraces.RunSound | base/buffer.c:595-603 | over every run the reference count of a buffer is the number of its views that are not released, and it is locked exactly while it is a view or has one |
| BufferTraces.BytesStay | base/buffer.c:605-639 | a call leaves a view where it is, and each byte under it what it was, or what a header prepended over it says |
| BufferTraces.ViewKeepsBytes | base/buffer.c:605-639 | over a run in which a view is not released and no header is written over a byte that it lies on, it lies there with that byte throughout |
| BufferTraces.ViewShowsHeader | base/buffer.c:256-261 | a byte under a view over which a header is written is the header's |
| BufferTraces.AppendAllowed | base/buffer.c:238-254 | at any point of a run appending is allowed exactly to a buffer that is no view and has none left, with room or without a prepended header unread |
| TcpOptions.TcpOpt.ParseLoop | net/sniff.c:323-388 | the loop stops on every input, with the result and the stored values of the specification |
| TcpOptions.TcpOpt.ParseHeader | net/sniff.c:306-388 | for every header length but the bare one the result is that of the general loop, fast path or not |
| TcpOptions.FastPath | net/sniff.c:279-299 | the aligned timestamp, where it is recognised, stores what the general loop stores |
| TcpOptions.LastValue | net/sniff.c:345-373 | an option is what is stored unless one of its kind follows |
| TcpOptions.ParseWire | net/sniff.c:327-388 | every list of well-formed options, up to its length, an end mark or an option that does not fit, is read as a whole, the last value of each kind is stored, and the result is false exactly for an option that has no length, one below 2 or one too long |
| TcpOptions.Options | net/sniff.c:323-388 | any bytes are such a list with such an end |

## Left out

- KHash.Table.Del: requires a bucket number of at most the number of buckets, as the source does silently.
- JsonPrinter.PrintBuffer.PrintNumber: is given the text; which one it is, is the matter of `JsonNumber.FormatNumber`.
- JsonParser.ParseBuffer.ParseNumber: keeps the text that strtod accepts; its value and the integer beside it are functions of the text in `JsonNumber`.
- JsonNumber.ValueRoundTrip: takes sprintf, sscanf and strtod as parameters, with what the C standard promises of 17 digits; negative zero is the same as zero.
- JsonIdentity.CompareNodesMeaning: leaves open, when the trees share a node that is not coherent, whether its identity makes a difference.
- BufferRuns.Step: of the memory of a buffer that was appended to it says what the unread bytes are, not what is left around them.
- BufferRuns.Execute: ends at a call on a released buffer and at a shrink that leaves the indices behind the memory, after which the source accesses what is not its own.
- PngRoundTrip.PngRoundTrip: says nothing of decoders that read other blocks or chunks in a file whose lengths do not fit.
- JsonMinify.Minify: requires that a string literal or comment does not run past the terminator, where the source reads on behind the text.
- JsonRoundTrip.ParsePrint: requires C strings, number texts that strtod reads as a whole, and no raw items; anything else is not JSON text.
- Hessian.Utf8Copy: reports a character that runs past the given bytes as a failure; the source copies what is behind them.
- TimerPass.NeverEarly: promises nothing of timers that were rewound after the clock was seen to run backwards, which fire at once on purpose.
- ThreadPool.CancelExactly: covers tasks that were submitted and not taken back before; cancelling any other task, and submitting one task twice, are left out. The same holds of `CancelResult` and `CancelOfRunning`.
- khash: the packing of the two flag bits into words, the set variant without values, custom key comparison, allocation failure. Masking with n-1 is taken as the remainder by n, and 0.77 as an exact fraction.
- cJSON: the error position, hooks, references, duplicating, editing of trees, the next/prev links, NULL strings.
- Thread pool and channel: pthread primitives beyond mutual exclusion, waiting and signalling; a fair scheduler.
- Event loop: file events, poll backends, the sleep itself; timers of more than one loop.
- PNG: reading other than stored blocks and filter 0, which the writer does not use.
- Hessian: other types, chunks that are not the last (tag 0x52 sends the source back to the same chunk; the model reports that).
- Network buffer: when memory is given back, integers, searching, reading from sockets.
- TCP options: packet capture and everything around it; a length byte missing at the very end is not read, since either value of it ends in failure.
- nova, thrift and dubbo framing, the string map, the handle table, wait groups, PHP bindings and command-line programs.
