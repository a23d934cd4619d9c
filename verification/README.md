# Verified models of WebKit tool and glue code

This project models the parts of the WebKit tree that carry algorithms and shared state
outside the engine itself, and proves what they are for. Everything is Dafny; `dafny verify
dfyconfig.toml` checks the whole project.

| files | what they model |
|---|---|
| `Register.dfy`, `Crc.dfy`, `CrcEdge.dfy`, `CrcResidue.dfy` | the table-driven CRC of DumpRenderTree against the bit-serial register of section 3.4 of RFC 2083; what damage it detects |
| `Chunks.dfy`, `Png.dfy`, `PngDamage.dfy` | chunk files (section 3.2 of RFC 2083) with a checking reader, and the tEXt comment that DumpRenderTree splices into a PNG |
| `JsHeap.dfy`, `Convert.dfy`, `ConvertCode.dfy`, `Unfolding.dfy` | the conversion of a possibly cyclic JavaScript object graph to a CF tree |
| `CfBridge.dfy`, `CfProperty.dfy` | the value bridge in both directions, and property access on CF containers |
| `RefCount.dfy`, `GlueState.dfy`, `Glue.dfy` | retain counts across the bridge, with cascading destructors and re-entrant client callbacks |
| `Packages.dfy` | the dependency closure of the Cygwin downloader |
| `WorkQueue.dfy` | DumpRenderTree's work queue with re-entrant items |
| `Touch.dfy` | touch mocking in QtTestBrowser |
| `Gcov.dfy`, `MidlPath.dfy`, `FileBuffer.dfy` | the gcov merge, the PATH rewriter, the growing file buffer of jsc |
| `Basics.dfy` | what several of these share |

## Results that differ from what one might expect

- **The graph conversion does not always return.** It cuts cycles with a list of ancestors, but
  `CopyCFValue` of a wrapped JavaScript value starts over with an empty list
  (`Source/JavaScriptGlue/JSValueWrapper.cpp:182-193`). A cycle through such a value makes the
  recursion endless; `CfBridge.RoundTripMakesEndlessCycle` shows how passing an object into the
  glue and storing what comes back creates one. And an array element without a CF value is
  appended as a null pointer, on which CoreFoundation crashes (`Convert.GapCrashes`).
  `Convert.ReturnsIff` gives the exact condition: the call returns if and only if no cycle that
  can be reached runs through a wrapped value and no array that can be reached has such an
  element. Other cycles are harmless, and the depth is at most one more than the number of
  objects.
- **A property that vanishes between lookup and read kills the process.** `userObjectGetter`
  releases the answer without a test (`Source/JavaScriptGlue/UserObjectImp.cpp:117-120`);
  `Glue.PropertyVanishes` is such a session, and `Glue.Session` completes exactly if every
  property that is read is there.
- **A JavaScript value does not come back from the glue as itself**, unless it is an object
  tagged as a wrapper that wraps itself. `KJSValueToJSObject` tags its wrapper as unknown, so
  `JSObjectKJSValue` puts a new object around it. `CfBridge.JsRoundTrip` says this of every
  value, and that the CF value is kept all the same.
- **Damage to the comment in a PNG can go unnoticed**, although the CRC detects every burst
  within its data: over the edge between data and CRC there is exactly one difference of four
  bytes that the reader accepts (`PngDamage.DamagedComment`, `PngDamage.DamageCanSlip`).
- **Assigning to `length` of a CF array overwrites its first element**
  (`CfProperty.LengthAssignmentOverwritesFirst`).
- **Touch events can come malformed.** A second mouse button pressed while the first is down
  sends a second Begin (`Touch.SecondButtonBreaksGroup`); `Touch.GroupsIff` gives the exact
  condition on the input.
- **An item that clears the work queue could keep `processWork` busy for ever**
  (`WorkQueue.ClearingItemNeverEnds`). No item in the tree does: `clear` is called by the test
  drivers only. `WorkQueue.RunsForeverIff` says that the loop runs for ever exactly if clearing
  items are invoked without end.

## How to read the model

- C++ containers and Python lists that are changed in place are fields of classes or local
  variables of type `seq`, `map` or `set`; fixed-size buffers are arrays. Each method is proved
  against a function of the old state, and the lemmas are about that function.
- Where the source asserts (`ASSERT(endOfQueue < queueLength)`), the model returns a failure.
- `printPNG` reads 33 bytes of its input without looking at the length, so `Png.PrintPng`
  demands them, and `convertChecksumToPNGComment` reads 32 characters of the checksum.
- The standard output of `Png` may cut any write short; the file of `FileBuffer` may end or
  fail anywhere.
- In `Convert`, `fuel` is the depth of the recursion: a value for which no fuel is enough is
  one on which the code does not end. It bounds nothing, since `ReturnsIff` says when some fuel
  is enough and `DepthBound` how much.
- In `WorkQueue`, `turns` likewise says after how many turns the loop has ended.
- In `Glue`, the owners of an object are the client, the garbage collector's cells, other
  objects, and the running calls. A `Step` may hold whole sequences of further steps, which is
  what a client does inside a callback; `trace` records which object each callback reached,
  with what, and what it answered. Cells come into being where the glue hands an object to
  JavaScript: as the result of a call or a read, or when a client sets a property of a
  JavaScript object. The collector may finalise any cell that is neither on the stack of a
  running call nor held by the handle of a JSValueWrapper.
- The clock, the network, the terminal and the toolkit are not part of the model.

## Model

| member | source | states |
|---|---|---|
| Crc.MakeCrcTable | Tools/DumpRenderTree/CyclicRedundancyCheck.cpp:36-48 | the loop over all indices fills the table with the eight-step entries |
| Crc.MakeEntry | Tools/DumpRenderTree/CyclicRedundancyCheck.cpp:39-46 | the inner loop performs eight steps of the shift register |
| Crc.RunTable | Tools/DumpRenderTree/CyclicRedundancyCheck.cpp:59-62 | for every buffer the table-driven loop returns the bit-serial CRC: all ones at the start, least significant bit first, complement at the end |
| Crc.CrcComputer.ComputeCrc | Tools/DumpRenderTree/CyclicRedundancyCheck.cpp:50-63 | the same with the lazily filled static table, on the first and on every later call |
| CrcResidue.Residue | Tools/DumpRenderTree/CyclicRedundancyCheck.cpp:57-62 | every buffer followed by its CRC, least significant byte first, has the CRC 0x2144df1c, which fixes the feedback and the complement at the end |
| CrcResidue.ResidueOnlyOfCrc | Tools/DumpRenderTree/CyclicRedundancyCheck.cpp:57-62 | and no other four bytes behind the buffer give that |
| CrcResidue.EmptyIsZero | Tools/DumpRenderTree/CyclicRedundancyCheck.cpp:57-62 | the empty buffer has CRC zero: the register starts as what it is complemented with |
| Crc.ByteStepIsFeed | Tools/DumpRenderTree/CyclicRedundancyCheck.cpp:61-61 | one table lookup and shift equals eight single-bit steps from any state |
| Crc.FastIsBitSerial | Tools/DumpRenderTree/CyclicRedundancyCheck.cpp:60-61 | the byte loop over any buffer from any state equals the bit loop |
| Crc.BurstChangesState | Tools/DumpRenderTree/CyclicRedundancyCheck.cpp:36-63 | messages that differ only within 32 consecutive bits, at any bit position, leave the register in different states |
| Crc.CrcDetectsBurst | Tools/DumpRenderTree/CyclicRedundancyCheck.cpp:50-63 | such messages have different CRCs |
| Crc.CrcDetectsWindow | Tools/DumpRenderTree/CyclicRedundancyCheck.cpp:50-63 | buffers of any equal length that differ only within four consecutive bytes have different CRCs |
| Crc.CrcOfXor | Tools/DumpRenderTree/CyclicRedundancyCheck.cpp:50-63 | the CRC of the bytewise xor of three equally long buffers is the xor of their CRCs |
| Crc.CollisionDependsOnDifference | Tools/DumpRenderTree/CyclicRedundancyCheck.cpp:50-63 | two buffers collide if and only if their difference drives the register from zero to zero |
| CrcEdge.TailDifference | Tools/DumpRenderTree/CyclicRedundancyCheck.cpp:50-63 | how the CRC changes when the last bytes of a buffer change depends on how they change alone |
| CrcEdge.EdgeTwo | Tools/DumpRenderTree/CyclicRedundancyCheck.cpp:50-63 | a change of the last two bytes that keeps the last two bytes of the CRC is none, or one particular change |
| CrcEdge.EdgeThree | Tools/DumpRenderTree/CyclicRedundancyCheck.cpp:50-63 | a change of the last three bytes changes one of the last three bytes of the CRC |
| CrcEdge.EdgeBlind | Tools/DumpRenderTree/CyclicRedundancyCheck.cpp:50-63 | that particular change turns two bytes of the CRC, the same for every buffer |
| Crc.StepInjective | Tools/DumpRenderTree/CyclicRedundancyCheck.cpp:41-44 | a bit step can be undone, because the feedback constant has its top bit set |
| Crc.StepLinear | Tools/DumpRenderTree/CyclicRedundancyCheck.cpp:41-44 | a bit step is linear over xor |
| Chunks.ParseAllExact | Tools/DumpRenderTree/PixelDumpSupport.cpp:89-89 | the checking reader accepts exactly the encodings of well-formed chunks, and each byte string encodes one list |
| Chunks.SpliceAfterFirst | Tools/DumpRenderTree/PixelDumpSupport.cpp:120-127 | splicing an encoded chunk in after the first inserts it in what the reader sees, and conversely |
| Chunks.AlteredReads | Tools/DumpRenderTree/PixelDumpSupport.cpp:97-102 | a file whose spliced chunk has any other body and check field is read, with the chunk as it stands, if and only if the field fits |
| Png.BigEndianRoundTrip | Tools/DumpRenderTree/PixelDumpSupport.cpp:77-85 | the four bytes written decode to the number |
| Png.AppendIntToVector | Tools/DumpRenderTree/PixelDumpSupport.cpp:77-85 | the vector grows by the four bytes of the number, most significant first |
| Png.ConvertChecksumToPngComment | Tools/DumpRenderTree/PixelDumpSupport.cpp:87-103 | the bytes are the encoding of a tEXt chunk with keyword "checksum", its length field and its CRC right |
| Png.CommentInserted | Tools/DumpRenderTree/PixelDumpSupport.cpp:105-136 | the output reads as the same chunks with exactly the tEXt chunk added after the header if and only if the input reads as those chunks |
| Png.CommentReads | Tools/DumpRenderTree/PixelDumpSupport.cpp:89-96 | the comment has the type "tEXt" and the keyword "checksum", a zero byte and then the checksum, in ASCII |
| Png.DroppingCommentRestores | Tools/DumpRenderTree/PixelDumpSupport.cpp:105-136 | removing the second chunk from what is read and encoding the rest gives back the input bytes |
| PngDamage.DamagedComment | Tools/DumpRenderTree/PixelDumpSupport.cpp:97-102 | a copy of the output damaged within four consecutive bytes of the comment's type, data and CRC is refused by the reader, with exactly one exception for each checksum, which reads as a comment with another checksum |
| PngDamage.DamageCanSlip | Tools/DumpRenderTree/PixelDumpSupport.cpp:97-102 | the exception exists for every file and every checksum |
| PngDamage.DamageShows | Tools/DumpRenderTree/PixelDumpSupport.cpp:97-102 | for a body of any length with its CRC behind it, such damage shows unless it is that exception |
| PngDamage.DamagedIsAltered | Tools/DumpRenderTree/PixelDumpSupport.cpp:105-136 | every copy damaged only in type, data and CRC has the form that these are about |
| Png.ParsePngExact | Tools/DumpRenderTree/PixelDumpSupport.cpp:89-89 | a byte string reads as a chunk list if and only if it is its encoding |
| Png.WriteRest | Tools/DumpRenderTree/PixelDumpSupport.cpp:125-135 | the loop sends the rest in pieces of 32768 bytes up to the first that is cut short, all of it if none is |
| Png.PrintPng | Tools/DumpRenderTree/PixelDumpSupport.cpp:112-136 | the bytes sent number at most the announced length, and reach it if and only if they are the spliced file; they do when no write is cut short; the header, the comment and the pieces are one write each |
| Convert.ReturnsIff | Source/JavaScriptGlue/JSUtils.cpp:200-365 | the call returns if and only if neither a cycle through a wrapped value nor an array with an element without CF value can be reached |
| Convert.CrashesIff | Source/JavaScriptGlue/JSUtils.cpp:307-312 | where the recursion ends it crashes if and only if such an array can be reached; every call that crashes has met one |
| Convert.NoValueIff | Source/JavaScriptGlue/JSUtils.cpp:241-248 | the null pointer comes from exactly the values that, behind any number of wrappers, have no CF value |
| Convert.GapCrashes | Source/JavaScriptGlue/JSUtils.cpp:307-312 | a one-element array on which the call crashes |
| Convert.WrapperCycleDiverges | Source/JavaScriptGlue/JSValueWrapper.cpp:182-193 | a two-object heap on which no recursion depth is enough |
| Convert.Converges | Source/JavaScriptGlue/JSUtils.cpp:254-266 | one level for each object not yet passed is depth enough |
| Convert.FailsAlong | Source/JavaScriptGlue/JSUtils.cpp:241-248 | along a simple path to a wrapped value on a cycle, or to an array with such an element, the call does not return |
| Convert.MoreFuel | Source/JavaScriptGlue/JSUtils.cpp:200-360 | more depth never changes how a call ends |
| Convert.DepthBound | Source/JavaScriptGlue/JSUtils.cpp:200-360 | a result is nested at most one deeper than there are objects, and that depth of recursion is enough |
| Unfolding.WalkShowsUp | Source/JavaScriptGlue/JSUtils.cpp:239-350 | every walk of the graph appears in the result, with the conversion of its end under the ancestors that it passed |
| Unfolding.EndOfWalk | Source/JavaScriptGlue/JSUtils.cpp:254-262 | null stands exactly where a walk meets an object that it has passed since the last wrapped value; any other object is a full array or dictionary |
| Unfolding.NullStandsIff | Source/JavaScriptGlue/JSUtils.cpp:254-262 | null stands in the result exactly where a walk ends at undefined or null or meets itself |
| Unfolding.LeafOfWalk | Source/JavaScriptGlue/JSUtils.cpp:209-237 | booleans, strings and numbers stand exactly for those of JavaScript, with the same value |
| Unfolding.ContainerHolds | Source/JavaScriptGlue/JSUtils.cpp:273-347 | an object becomes an array if its class is Array and, under the flag, all its names are digits, else a dictionary; it holds the conversions of all elements, or of exactly the properties that are there and have a CF value |
| Unfolding.NodeHasWalk | Source/JavaScriptGlue/JSUtils.cpp:300-347 | every node of the result stands at the end of a walk of the graph: nothing else is in it |
| Unfolding.AcyclicUnfolds | Source/JavaScriptGlue/JSUtils.cpp:239-350 | on an acyclic graph the result is the plain unfolding, shared objects copied in full |
| ConvertCode.OnList | Source/JavaScriptGlue/JSUtils.cpp:256-262 | the walk down the ancestor list finds an object if and only if it is on it |
| ConvertCode.IsArray | Source/JavaScriptGlue/JSUtils.cpp:273-298 | the test of class name, flag and property names decides the form of the result |
| ConvertCode.ConvertArray | Source/JavaScriptGlue/JSUtils.cpp:300-314 | the loop over the elements builds the array of their conversions, or crashes at the first null pointer |
| ConvertCode.ConvertObject | Source/JavaScriptGlue/JSUtils.cpp:315-347 | the loop over the property names builds the dictionary, absent properties and null values skipped |
| ConvertCode.KjsValueToCFTypeInternal | Source/JavaScriptGlue/JSUtils.cpp:200-360 | the code with its loops ends as the recursion that the lemmas are about: it returns the same value, or crashes |
| CfBridge.CFRoundTrip | Source/JavaScriptGlue/JSUtils.cpp:130-191 | from CF to JavaScript and back the value is kept if and only if it is not an infinite number, not an integer outside int, and not a null object other than the registered one; containers come back as the same object |
| CfBridge.NumberTrip | Source/JavaScriptGlue/JSUtils.cpp:223-237 | the numbers that keep their value, exactly, whatever the undefined cast of large doubles gives |
| CfBridge.NumbersComeOut | Source/JavaScriptGlue/JSUtils.cpp:163-169 | an integer comes out as the same JavaScript number exactly if it has at most 53 bits or rounds to itself |
| CfBridge.UndefinedIff | Source/JavaScriptGlue/JSUtils.cpp:134-191 | undefined is what comes out without a user object and for a wrapped undefined only; null exactly for a CF null |
| CfBridge.JsRoundTrip | Source/JavaScriptGlue/JSUtils.cpp:104-125 | for every value: it comes back as itself if and only if it is an object tagged as a wrapper around itself; what comes back has the same CF value, or none either, except that a CF object with a primitive counterpart comes back as that, of equal value exactly under the condition of CFRoundTrip |
| CfBridge.JsComesBackWrapped | Source/JavaScriptGlue/JSUtils.cpp:113-123 | a value that is no UserObjectImp comes back as a new object around it, with the same CF value one level deeper |
| CfBridge.RoundTripMakesEndlessCycle | Source/JavaScriptGlue/JSUtils.cpp:184-188 | storing what comes back in the object that went in makes the conversion endless |
| CfBridge.NewCellIrrelevant | Source/JavaScriptGlue/JSUtils.cpp:184-188 | a new object changes no conversion that does not mention it |
| CfProperty.Container.CopyProperty | Source/JavaScriptGlue/JavaScriptGlue.cpp:426-476 | what a property of a dictionary, array or string reads as |
| CfProperty.ArrayReads | Source/JavaScriptGlue/JavaScriptGlue.cpp:444-460 | the indices of an array, and no other names, read as its entries |
| CfProperty.DictionaryReads | Source/JavaScriptGlue/JavaScriptGlue.cpp:433-443 | the keys of a dictionary, and no other names, read as its values |
| CfProperty.LengthReads | Source/JavaScriptGlue/JavaScriptGlue.cpp:433-470 | "length" reads as the number of entries or characters; strings have no other property, other data has none |
| CfProperty.Container.SetProperty | Source/JavaScriptGlue/JavaScriptGlue.cpp:482-530 | the new container for a value and for the lack of one |
| CfProperty.Container.SetIndex | Source/JavaScriptGlue/JavaScriptGlue.cpp:496-505 | the padding loop and the final store; negative indices change nothing |
| CfProperty.PutIs | Source/JavaScriptGlue/JavaScriptGlue.cpp:498-505 | length and every slot of an array after one write |
| CfProperty.ReadBack | Source/JavaScriptGlue/JavaScriptGlue.cpp:426-530 | a written value is read back if and only if the name is not "length" and the index is not negative |
| CfProperty.OtherNamesKeep | Source/JavaScriptGlue/JavaScriptGlue.cpp:426-530 | other names read as before, or as null where the write padded |
| CfProperty.LengthAssignmentOverwritesFirst | Source/JavaScriptGlue/JavaScriptGlue.cpp:494-505 | a write to "length" lands in the first slot, which an empty array gets; it does not set the length |
| CfProperty.WritesLength | Source/JavaScriptGlue/JavaScriptGlue.cpp:482-530 | after any sequence of writes by name the length is the larger of the old one and the largest index plus one, negative indices ignored, and reads as such |
| CfProperty.ReadsLastWrite | Source/JavaScriptGlue/JavaScriptGlue.cpp:426-530 | after any such sequence a name reads as the last value written to its place: null in an array, nothing in a dictionary, if that was without CF counterpart |
| CfProperty.ReadsUnwritten | Source/JavaScriptGlue/JavaScriptGlue.cpp:426-530 | a name whose place was not written reads as before, or as null where the array has grown past it |
| RefCount.RetainKeeps | Source/JavaScriptGlue/JSBase.cpp:40-43 | retaining keeps every count equal to the number of owners |
| RefCount.DropKeeps | Source/JavaScriptGlue/JSBase.cpp:45-52 | so does a release that is not the last |
| RefCount.DeleteKeeps | Source/JavaScriptGlue/JSObject.cpp:39-45 | so does the last release, which disposes once and hands what the object held to its destructor |
| RefCount.HoldKeeps | Source/JavaScriptGlue/JavaScriptGlue.cpp:350-378 | so does appending to an array with the glue's callbacks |
| RefCount.CreateKeeps | Source/JavaScriptGlue/JSBase.cpp:32-34 | so does creating an object, with count one |
| RefCount.HeldIsLive | Source/JavaScriptGlue/UserObjectImp.cpp:37-47 | what an object holds has not been disposed of |
| RefCount.NothingLeaks | Source/JavaScriptGlue/JSBase.cpp:45-52 | when no owner is left outside and references form no cycle, every object has been disposed of |
| Glue.Bridge.Release | Source/JavaScriptGlue/JSBase.cpp:45-52 | one owner fewer; the object is disposed of in this call exactly when it was the last, and the cascade ends |
| Glue.Bridge.KjsValueToJSObject | Source/JavaScriptGlue/JSUtils.cpp:104-125 | the caller owns one reference to the object behind a UserObjectImp, or to a new one of unknown tag; no other object changes |
| Glue.Bridge.JSObjectKjsValue | Source/JavaScriptGlue/JSUtils.cpp:130-191 | data with a counterpart, and data tagged as a wrapper of a value, gives that value, which may be a UserObjectImp; other data gets one new UserObjectImp, which owns one reference; the caller's references are as before |
| Glue.Bridge.NewImp | Source/JavaScriptGlue/UserObjectImp.cpp:37-41 | the new cell owns one reference to its object; nothing else changes hands |
| Glue.Bridge.CollectCell | Source/JavaScriptGlue/UserObjectImp.cpp:43-47 | the collector drops its reference to a cell that neither a call nor a handle uses; the cell is disposed of exactly when no owner is left |
| Glue.Bridge.ClientRetain | Source/JavaScriptGlue/JavaScriptGlue.cpp:65-73 | the client owns one reference more, and no other count changes |
| Glue.Bridge.ClientRelease | Source/JavaScriptGlue/JavaScriptGlue.cpp:78-85 | the client owns one reference fewer; the object is disposed of exactly when no owner is left |
| Glue.Bridge.ClientCreate | Source/JavaScriptGlue/JavaScriptGlue.cpp:150-154 | the client owns a new object with count one; the other objects are as they were |
| Glue.Bridge.ClientWrap | Source/JavaScriptGlue/JavaScriptGlue.cpp:384-400 | the client owns a new object, which owns one reference to the CF value |
| Glue.Bridge.MakeArgs | Source/JavaScriptGlue/UserObjectImp.cpp:59-69 | the array holds the objects behind the arguments, in order, and nothing else is owned afterwards |
| Glue.Bridge.CallAsFunctionCode | Source/JavaScriptGlue/UserObjectImp.cpp:54-89 | the object behind the cell is called first, with the objects behind `this` and the arguments, in order; the result is the value of the callback's answer, or undefined; every temporary is given back on every path, whatever the callback does, and the cell keeps its object meanwhile |
| Glue.Bridge.GetOwnPropertySlotCode | Source/JavaScriptGlue/UserObjectImp.cpp:125-146 | the object behind the cell is asked for the property; if it answers, that is all, else the same object is asked for its primitive value; every temporary is given back |
| Glue.Bridge.UserObjectGetterCode | Source/JavaScriptGlue/UserObjectImp.cpp:110-123 | the object behind the cell is asked for the property and the result is the value of its answer; without an answer the process dies, and a callback that does nothing else answers exactly if the client has the reference; every temporary is given back |
| Glue.Bridge.PutCode | Source/JavaScriptGlue/UserObjectImp.cpp:148-160 | the object behind the cell gets the property set to the object behind the value, or to a new one; every temporary is given back |
| Glue.Bridge.ToPrimitiveCode | Source/JavaScriptGlue/UserObjectImp.cpp:167-201 | the object behind the cell is asked for its CF value; every temporary is given back |
| Glue.Bridge.Run | Source/JavaScriptGlue/UserObjectImp.cpp:37-201 | in any nested sequence of calls each step takes its effect, the invariant is kept and all temporaries are given back, unless the process dies, which it does at the first read of a property that is not there |
| Glue.Session | Source/JavaScriptGlue/UserObjectImp.cpp:37-201 | any sequence of calls from a bridge without objects completes if and only if every property that was read was there, and then does the same |
| Glue.PropertyVanishes | Source/JavaScriptGlue/UserObjectImp.cpp:110-146 | a session in which the lookup of a property is answered and the read is not: it does not complete |
| GlueState.BetweenCalls | Source/JavaScriptGlue/JSBase.cpp:32-52 | between calls each count is the number of live owners, disposal happens once and exactly at zero, and never while a UserObjectImp holds the object |
| GlueState.NotRefused | Source/JavaScriptGlue/UserObjectImp.cpp:37-201 | every step whose cells and objects are there is taken |
| Packages.Downloader.AddPackageAndDependencies | Tools/CygwinDownloader/cygwin-downloader.py:116-124 | the search ends on every graph; what it adds is complete, flagged, and within every closed set around the name |
| Packages.Downloader.SelectPackages | Tools/CygwinDownloader/cygwin-downloader.py:126-128 | the names are the least set that contains the marked packages and is closed under known requirements, and equal the flagged ones |
| Packages.Downloader.DownloadAll | Tools/CygwinDownloader/cygwin-downloader.py:130-134 | each selected package is announced once, in the order of the list, numbered up to the size of the set |
| Packages.LeastIsReachable | Tools/CygwinDownloader/cygwin-downloader.py:112-128 | the least closed set is the set of packages reachable along requirements |
| WorkQueue.Queue.Enqueue | Tools/DumpRenderTree/WorkQueue.cpp:52-63 | the item is appended, or deleted if frozen, or the assertion fails |
| WorkQueue.FrozenDrops | Tools/DumpRenderTree/WorkQueue.cpp:52-63 | whatever is done to a frozen queue short of thawing it, nothing joins the pending items and every item handed in is deleted |
| WorkQueue.FrozenFails | Tools/DumpRenderTree/WorkQueue.cpp:54-60 | queueing fails the assertion on a full array, frozen or not |
| WorkQueue.UnfrozenAppends | Tools/DumpRenderTree/WorkQueue.cpp:52-63 | on a queue that is not frozen any items join the pending ones in order, if and only if there is room among the 1024 places |
| WorkQueue.FreezeTakesHold | Tools/DumpRenderTree/WorkQueue.cpp:57-62 | freezing and thawing take hold at once |
| WorkQueue.Queue.Dequeue | Tools/DumpRenderTree/WorkQueue.cpp:65-73 | the first pending item is handed to the caller |
| WorkQueue.Queue.Count | Tools/DumpRenderTree/WorkQueue.cpp:75-78 | the number of pending items |
| WorkQueue.Queue.Clear | Tools/DumpRenderTree/WorkQueue.cpp:80-89 | the loop deletes the pending items, each once |
| WorkQueue.Queue.ProcessWork | Tools/DumpRenderTree/WorkQueue.cpp:91-104 | on every queue on which the loop ends, with re-entrant enqueues, freezes and clears, it computes the abstract loop |
| WorkQueue.LoopOutcome | Tools/DumpRenderTree/WorkQueue.cpp:91-104 | whenever the loop ends, the result is true exactly when the queue is drained and no item invoked by the call loads; else the call stopped right after the first that does |
| WorkQueue.EndsWithoutClear | Tools/DumpRenderTree/WorkQueue.cpp:35-104 | as many turns as there is room behind the start index contain one whose item clears the queue |
| WorkQueue.RunsForeverIff | Tools/DumpRenderTree/WorkQueue.cpp:80-104 | the loop runs for ever if and only if items that clear the queue are invoked without end |
| WorkQueue.NeverClearingEnds | Tools/DumpRenderTree/WorkQueue.cpp:35-104 | it ends if no item clears the queue |
| WorkQueue.TurnKeeps | Tools/DumpRenderTree/WorkQueue.cpp:95-100 | one turn invokes the first pending item and keeps order and conservation |
| WorkQueue.ItemsAddUp | Tools/DumpRenderTree/WorkQueue.cpp:52-104 | items handed in are those pending, those returned and those deleted |
| WorkQueue.OnePlace | Tools/DumpRenderTree/WorkQueue.cpp:52-104 | every item is in exactly one of these places |
| WorkQueue.ClearingItemNeverEnds | Tools/DumpRenderTree/WorkQueue.cpp:80-104 | with an item that clears the queue and queues itself again the loop always has another turn to take |
| Touch.LauncherWindow.SendTouchEvent | Tools/QtTestBrowser/launcherwindow.cpp:453-475 | the event sent and the list after it |
| Touch.LauncherWindow.EventFilter | Tools/QtTestBrowser/launcherwindow.cpp:494-553 | the handler does what the step function says and keeps at most two points, of distinct identity, none released |
| Touch.HandleAgrees | Tools/QtTestBrowser/launcherwindow.cpp:494-553 | every event keeps the list so, and the list shows which of mouse and keyboard are down |
| Touch.HandleShows | Tools/QtTestBrowser/launcherwindow.cpp:494-553 | every event leaves the points that the input alone says, at its positions and in its states, and sends its own point and the other one as it stands |
| Touch.RunShows | Tools/QtTestBrowser/launcherwindow.cpp:494-553 | after any input the mouse point is where the last mouse event that was not ignored put it, the keyboard point where the cursor was when it went down, and there is no other |
| Touch.LastSends | Tools/QtTestBrowser/launcherwindow.cpp:453-553 | the last event of any input sends nothing if it is ignored, else one touch event with exactly those points |
| Touch.HandleSends | Tools/QtTestBrowser/launcherwindow.cpp:453-475 | Begin is sent exactly when the list was empty, End exactly when it becomes empty, for orderly events |
| Touch.GroupsIff | Tools/QtTestBrowser/launcherwindow.cpp:453-553 | for every input the events sent form Begin, Update, End groups if and only if, while no keyboard point is down, the button goes down exactly when it was up |
| Touch.OneButtonMakesGroups | Tools/QtTestBrowser/launcherwindow.cpp:494-525 | one-button input, with any keyboard events, makes well-formed groups |
| Touch.SecondButtonBreaksGroup | Tools/QtTestBrowser/launcherwindow.cpp:506-525 | an input that does not |
| Gcov.MergeReports | Tools/CodeCoverage/cov.py:146-176 | each line that is not test code ends as not code if all accepted reports say so, else as the sum of their counts |
| Gcov.PostProcess | Tools/CodeCoverage/cov.py:178-196 | totals and markers of the lines, covered at most total at most the number of lines |
| Gcov.TotalsCount | Tools/CodeCoverage/cov.py:178-194 | covered is the number of lines with a positive count, total the number of lines with a count |
| Gcov.MarkerIs | Tools/CodeCoverage/cov.py:181-194 | which state gets which marker |
| Gcov.CoveredIff | Tools/CodeCoverage/cov.py:146-194 | after a merge a line counts as covered if and only if it is not test code and some accepted report has a positive count for it |
| Gcov.CoverageOfMerge | Tools/CodeCoverage/cov.py:146-194 | the totals of a merge are the numbers of those lines, and of the lines that some accepted report calls code |
| Gcov.MergedIs | Tools/CodeCoverage/cov.py:161-176 | the loop over the reports computes that state for every line |
| Gcov.OrderIrrelevant | Tools/CodeCoverage/cov.py:146-176 | permuting the reports changes no state |
| Gcov.MoreReportsMoreLines | Tools/CodeCoverage/cov.py:161-194 | one more accepted report lowers neither total |
| Gcov.AnotherFile | Tools/CodeCoverage/cov.py:146-194 | another file in a merge lowers neither total, accepted or not |
| MidlPath.CutRemovesEntry | Tools/MIDLWrapper/MIDLWrapper.cpp:35-68 | split on semicolons, the new value is the old list with only the first entry that contains the text replaced by an empty one |
| MidlPath.SplitIs | Tools/MIDLWrapper/MIDLWrapper.cpp:35-49 | the entries are the pieces between semicolons: none contains one, and joined they give the string |
| MidlPath.CopyAround | Tools/MIDLWrapper/MIDLWrapper.cpp:54-66 | the two copy loops fill the new buffer exactly, the terminating zero last |
| MidlPath.CutPath | Tools/MIDLWrapper/MIDLWrapper.cpp:35-66 | finding the entry and copying around it rewrites the value so |
| MidlPath.RewritePath | Tools/MIDLWrapper/MIDLWrapper.cpp:17-68 | the first PATH variable is rewritten, or the status is -1 and nothing changes |
| FileBuffer.FillBuffer | Source/JavaScriptCore/jsc.cpp:556-572 | the buffer holds the bytes of the file and a zero in bounds, a leading "#!" and only that rewritten to "//"; the capacity is 1024 doubled until it exceeds the size, so at most twice the size beyond that |
| FileBuffer.FillBufferWithContentsOfFile | Source/JavaScriptCore/jsc.cpp:548-575 | the same, capacity included, and false without a file |

## Left out

- The static and dynamic types of CF and JavaScriptCore beyond what the code tests, CFURL objects, and the formatting of numbers as strings.
- JavaScript getters with effects during a conversion, allocation failure, threads and locks.
- The garbage collector's own reachability: `Glue` lets it finalise any cell that no running call and no handle uses.
- Damage to the length field of the comment, which makes a reader look for the CRC elsewhere in the file.
- `toBoolean`, `toNumber` and `toString` of UserObjectImp have the retains and releases of `toPrimitive` and are not repeated.
- MidlPath.CutPath: the temporary zero written over the first character of the match, to end the search for the last semicolon there, is modelled by searching the text up to the match.
- Gcov.MergeReports: a count that is not a number makes the source raise an exception; the model starts from parsed counts and from given initial states.
- The writing of setup.ini, downloads, process creation, bitmap hashing, and the rest of the tools, which are calls into other systems.
- WorkQueue.Queue.ProcessWork: what an item's `invoke` does besides queueing, freezing and clearing is not modelled.
